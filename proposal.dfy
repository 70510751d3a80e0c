/**
 * The data the DOCX export reads: the proposal record with its client
 * attributes and pricing items, and the stored sections. Costs are whole
 * numbers (a cost in the smallest unit the proposal uses).
 */
module Proposal {
  import opened Wrappers

  /** A stored section: its title, the `html` of its content (absent when the
      content has none) and its position key `order`. */
  datatype SectionData = SectionData(id: string, title: string, html: Option<string>, order: int)

  /** A pricing line item; the frequency label is optional. */
  datatype PricingItem = PricingItem(description: string, cost: int, frequency: Option<string>)

  /** The client attributes are optional strings; `clientLogoUrl` is the
      logo reference. */
  datatype ProposalRecord = ProposalRecord(
    title: string,
    clientName: Option<string>,
    clientCompany: Option<string>,
    clientEmail: Option<string>,
    clientAddress: Option<string>,
    clientLogoUrl: Option<string>,
    pricingItems: seq<PricingItem>)

  /** JavaScript truthiness of an optional string: present and not empty. */
  predicate Truthy(v: Option<string>)
  {
    v.Some? && v.value != ""
  }

  /** `v || fallback` on an optional string. */
  function OrElse(v: Option<string>, fallback: string): string
  {
    if Truthy(v) then v.value else fallback
  }
}
