/**
 * The body of the DOCX export: the list of paragraphs the document is made
 * of, in order — the client logo when it loads, the title, the client
 * information, the sections sorted by `order` with their content converted
 * from HTML, and the pricing breakdown with its total. `Document` states the
 * whole list; `BuildDocument` builds it step by step as the route does.
 */
module Assembler {
  import opened Wrappers
  import opened Text
  import opened Docx
  import opened Proposal
  import opened ImageLoader
  import opened SectionOrder
  import opened Mapper
  import Segmenter

  const LogoWidth: nat := 150
  const LogoHeight: nat := 75

  /** The logo paragraph: the image at 150 by 75, centred, 400 after. */
  function LogoParagraph(data: Bytes): Paragraph
  {
    Paragraph([ImageRun(data, LogoWidth, LogoHeight)], Body, Center, 0, 400, 0, 0)
  }

  /** The logo part of the document: nothing when the proposal has no logo
      reference or it cannot be loaded, else the logo paragraph. A loaded
      but empty image still counts, as an empty `Buffer` is truthy. */
  function LogoParagraphs(url: Option<string>, readFile: string -> Option<Bytes>, get: (bool, string) -> Option<Bytes>): (ps: seq<Paragraph>)
    ensures |ps| <= 1
  {
    if !Truthy(url) then []
    else match LoadImage(url.value, readFile, get)
      case Some(data) => [LogoParagraph(data)]
      case None => []
  }

  function TitleParagraph(title: string): Paragraph
  {
    TextParagraph(title, Heading1, Center, 0, 400)
  }

  const ClientHeading: Paragraph := TextParagraph("Client Information", Heading2, Start, 200, 200)

  /** One labelled client attribute, on a line of its own; a missing or
      empty attribute reads "N/A". */
  function ClientLine(field: string, v: Option<string>): Run
  {
    Line(field + ": " + OrElse(v, "N/A"))
  }

  function ClientParagraph(p: ProposalRecord): Paragraph
  {
    Paragraph([ClientLine("Client", p.clientName), ClientLine("Company", p.clientCompany),
               ClientLine("Email", p.clientEmail), ClientLine("Address", p.clientAddress)],
              Body, Start, 0, 400, 0, 0)
  }

  /** The section's title as a second-level heading, then its converted content. */
  function SectionParagraphs(s: SectionData): seq<Paragraph>
  {
    [TextParagraph(s.title, Heading2, Start, 400, 200)] + MapBlocks(Segmenter.Blocks(s.html.GetOr("")))
  }

  /** The sections' paragraphs one section after the other. */
  function SectionsParagraphs(ss: seq<SectionData>): seq<Paragraph>
  {
    ConcatMap(SectionParagraphs, ss)
  }

  /** f applied to each element, the results concatenated from the left. */
  function ConcatMap<T, U>(f: T -> seq<U>, s: seq<T>): seq<U>
  {
    if s == [] then [] else ConcatMap(f, s[..|s| - 1]) + f(s[|s| - 1])
  }

  /** `items.reduce((sum, item) => sum + item.cost, 0)`: from the left. */
  function Total(items: seq<PricingItem>): int
  {
    if items == [] then 0 else Total(items[..|items| - 1]) + items[|items| - 1].cost
  }

  /** The sum of the costs, from the right: the reference the total is checked against. */
  function Sum(items: seq<PricingItem>): int
  {
    if items == [] then 0 else items[0].cost + Sum(items[1..])
  }

  /** A pricing line: description, cost with grouping, frequency or "one-time". */
  function PricingLine(item: PricingItem): Paragraph
  {
    Paragraph([Line(item.description + ": $" + FormatAmount(item.cost) + " " + OrElse(item.frequency, "one-time"))],
              Body, Start, 0, 0, 0, 0)
  }

  function TotalParagraph(total: int): Paragraph
  {
    Paragraph([TextRun("Total: $" + FormatAmount(total), true, false, true)], Body, Start, 200, 0, 0, 0)
  }

  const PricingHeading: Paragraph := TextParagraph("Pricing Breakdown", Heading2, Start, 400, 200)

  /** The pricing part: nothing without items, else the heading, one line
      per item in their order, and the total. */
  function PricingParagraphs(items: seq<PricingItem>): seq<Paragraph>
  {
    if items == [] then []
    else [PricingHeading] + PricingLines(items) + [TotalParagraph(Total(items))]
  }

  /** One line per item, in order. */
  function PricingLines(items: seq<PricingItem>): (ls: seq<Paragraph>)
    ensures |ls| == |items| && forall k :: 0 <= k < |items| ==> ls[k] == PricingLine(items[k])
  {
    seq(|items|, k requires 0 <= k < |items| => PricingLine(items[k]))
  }

  /** The document's paragraphs. `sections` is None when the proposal's
      content holds no array of sections. */
  function Document(p: ProposalRecord, sections: Option<seq<SectionData>>,
                    readFile: string -> Option<Bytes>, get: (bool, string) -> Option<Bytes>): seq<Paragraph>
  {
    LogoParagraphs(p.clientLogoUrl, readFile, get)
    + [TitleParagraph(p.title), ClientHeading, ClientParagraph(p)]
    + (if sections.Some? then SectionsParagraphs(SortByOrder(sections.value)) else [])
    + PricingParagraphs(p.pricingItems)
  }

  /** The route's assembly: sorts the stored sections in place (as
      `Array.prototype.sort` does) and appends the paragraphs part by part. */
  method BuildDocument(p: ProposalRecord, sections: array?<SectionData>,
                       readFile: string -> Option<Bytes>, get: (bool, string) -> Option<Bytes>)
    returns (children: seq<Paragraph>)
    modifies sections
    ensures sections != null ==> sections[..] == SortByOrder(old(sections[..]))
    ensures children == Document(p, if sections == null then None else Some(old(sections[..])), readFile, get)
  {
    children := LogoParagraphs(p.clientLogoUrl, readFile, get);
    children := children + [TitleParagraph(p.title), ClientHeading, ClientParagraph(p)];
    if sections != null {
      SortSections(sections);
      var body := AllSectionParagraphs(sections);
      children := children + body;
    }
    var pricing := BuildPricing(p.pricingItems);
    children := children + pricing;
  }

  /** The `forEach` over the sorted sections. */
  method AllSectionParagraphs(sections: array<SectionData>) returns (ps: seq<Paragraph>)
    ensures ps == SectionsParagraphs(sections[..])
  {
    ps := [];
    var i := 0;
    while i < sections.Length
      invariant 0 <= i <= sections.Length
      invariant ps == SectionsParagraphs(sections[..i])
    {
      var s := sections[i];
      var content := HtmlToParagraphs(s.html.GetOr(""));
      SectionsParagraphsSnoc(sections[..], i);
      ps := ps + ([TextParagraph(s.title, Heading2, Start, 400, 200)] + content);
      i := i + 1;
    }
    assert sections[..sections.Length] == sections[..];
  }

  lemma PricingLinesSnoc(items: seq<PricingItem>, i: nat)
    requires i < |items|
    ensures PricingLines(items[..i + 1]) == PricingLines(items[..i]) + [PricingLine(items[i])]
  {
    var l, r := PricingLines(items[..i + 1]), PricingLines(items[..i]) + [PricingLine(items[i])];
    forall k | 0 <= k < i + 1
      ensures l[k] == r[k]
    {
      if k < i {
        assert items[..i + 1][k] == items[..i][k];
      }
    }
    assert l == r;
  }

  lemma SectionsParagraphsSnoc(ss: seq<SectionData>, i: nat)
    requires i < |ss|
    ensures SectionsParagraphs(ss[..i + 1]) == SectionsParagraphs(ss[..i]) + SectionParagraphs(ss[i])
  {
    assert ss[..i + 1][..i] == ss[..i];
  }

  /** The pricing part: one line per item, then the total accumulated as
      `reduce` does. */
  method BuildPricing(items: seq<PricingItem>) returns (ps: seq<Paragraph>)
    ensures ps == PricingParagraphs(items)
  {
    if |items| == 0 {
      return [];
    }
    ps := [PricingHeading];
    var i := 0;
    while i < |items|
      invariant 0 <= i <= |items|
      invariant ps == [PricingHeading] + PricingLines(items[..i])
    {
      PricingLinesSnoc(items, i);
      ps := ps + [PricingLine(items[i])];
      i := i + 1;
    }
    assert items[..i] == items;
    var total := TotalCost(items);
    ps := ps + [TotalParagraph(total)];
  }

  /** `items.reduce((sum, item) => sum + item.cost, 0)` as a loop. */
  method TotalCost(items: seq<PricingItem>) returns (total: int)
    ensures total == Total(items)
  {
    total := 0;
    var i := 0;
    while i < |items|
      invariant 0 <= i <= |items|
      invariant total == Total(items[..i])
    {
      total := total + items[i].cost;
      assert items[..i + 1][..i] == items[..i];
      i := i + 1;
    }
    assert items[..i] == items;
  }

  /** The logo does not depend on any I/O for a reference that is neither
      under `/uploads/` nor starts with `http`: there is none. */
  lemma NoLogoForOtherReferences(url: Option<string>, readFile: string -> Option<Bytes>, get: (bool, string) -> Option<Bytes>)
    requires Truthy(url) ==> !(UploadsPrefix <= url.value) && !("http" <= url.value)
    ensures LogoParagraphs(url, readFile, get) == []
  {
    if Truthy(url) {
      ResolveSpec(url.value);
    }
  }

  /** An `/uploads/` logo comes from the file under `public`, whatever the
      network would return; the logo paragraph is there exactly when the read
      succeeds, even when the file is empty. */
  lemma LogoFromUploads(url: string, readFile: string -> Option<Bytes>, get: (bool, string) -> Option<Bytes>)
    requires url != [] && UploadsPrefix <= url
    ensures LogoParagraphs(Some(url), readFile, get)
      == if readFile("public" + url).Some? then [LogoParagraph(readFile("public" + url).value)] else []
  {
    ResolveSpec(url);
  }

  /** An `http...` logo comes from the GET, over https exactly when the
      reference starts with `https`; the file system is not read. */
  lemma LogoFromRemote(url: string, readFile: string -> Option<Bytes>, get: (bool, string) -> Option<Bytes>)
    requires "http" <= url
    ensures LogoParagraphs(Some(url), readFile, get)
      == if get("https" <= url, url).Some? then [LogoParagraph(get("https" <= url, url).value)] else []
  {
    ResolveSpec(url);
  }

  /** The document opens with the logo when there is one, then the title,
      centred as a first-level heading, the client heading and the client
      paragraph. */
  lemma DocumentHead(p: ProposalRecord, sections: Option<seq<SectionData>>,
                     readFile: string -> Option<Bytes>, get: (bool, string) -> Option<Bytes>)
    ensures var d, n := Document(p, sections, readFile, get), |LogoParagraphs(p.clientLogoUrl, readFile, get)|;
      n + 3 <= |d| && d[..n] == LogoParagraphs(p.clientLogoUrl, readFile, get)
      && d[n] == TitleParagraph(p.title) && d[n].heading == Heading1 && d[n].alignment == Center
      && d[n + 1] == ClientHeading && d[n + 2] == ClientParagraph(p)
    ensures var d, n := Document(p, sections, readFile, get), |LogoParagraphs(p.clientLogoUrl, readFile, get)|;
      n + 3 <= |d|
      && (n == 1 ==> d[0].runs[0].ImageRun? && d[0].runs[0].width == 150 && d[0].runs[0].height == 75
                     && d[0].alignment == Center && d[0].after == 400)
      && d[n].runs == [Plain(p.title)] && d[n].before == 0 && d[n].after == 400
      && d[n + 1].runs == [Plain("Client Information")] && d[n + 1].heading == Heading2
      && d[n + 1].alignment == Start && d[n + 1].before == 200 && d[n + 1].after == 200
      && |d[n + 2].runs| == 4 && d[n + 2].heading == Body && d[n + 2].after == 400
  {
    Headed(LogoParagraphs(p.clientLogoUrl, readFile, get), TitleParagraph(p.title), ClientHeading, ClientParagraph(p),
           if sections.Some? then SectionsParagraphs(SortByOrder(sections.value)) else [],
           PricingParagraphs(p.pricingItems));
  }

  /** Three elements after a prefix and before two more parts. */
  lemma Headed<T>(prefix: seq<T>, x: T, y: T, z: T, r1: seq<T>, r2: seq<T>)
    ensures var d, n := prefix + [x, y, z] + r1 + r2, |prefix|;
      n + 3 <= |d| && d[..n] == prefix && d[n] == x && d[n + 1] == y && d[n + 2] == z
  {
    var d, n := prefix + [x, y, z] + r1 + r2, |prefix|;
    assert d[..n] == prefix;
  }

  /** A client attribute reads "N/A" exactly when it is missing, empty, or
      itself "N/A"; it is never printed empty, and otherwise it is printed as is. */
  lemma ClientLineSpec(field: string, v: Option<string>)
    ensures var t := ClientLine(field, v).text;
      field + ": " <= t && t[|field| + 2..] != []
      && (t[|field| + 2..] == "N/A" <==> !Truthy(v) || v.value == "N/A")
      && (Truthy(v) ==> t[|field| + 2..] == v.value)
      && ClientLine(field, v).lineBreak
  {
    var t := ClientLine(field, v).text;
    assert t == field + ": " + OrElse(v, "N/A");
    assert t[|field| + 2..] == OrElse(v, "N/A");
  }

  /** Appending sections appends their paragraphs. */
  lemma SectionsParagraphsAppend(a: seq<SectionData>, b: seq<SectionData>)
    ensures SectionsParagraphs(a + b) == SectionsParagraphs(a) + SectionsParagraphs(b)
  {
    ConcatMapAppend(SectionParagraphs, a, b);
  }

  lemma {:induction false} ConcatMapAppend<T, U>(f: T -> seq<U>, a: seq<T>, b: seq<T>)
    decreases |b|
    ensures ConcatMap(f, a + b) == ConcatMap(f, a) + ConcatMap(f, b)
  {
    if b == [] {
      assert a + b == a;
    } else {
      var b', x := b[..|b| - 1], b[|b| - 1];
      ConcatMapAppend(f, a, b');
      assert (a + b)[..|a + b| - 1] == a + b';
      assert (a + b)[|a + b| - 1] == x;
      ConcatAssoc(ConcatMap(f, a), ConcatMap(f, b'), f(x));
    }
  }

  lemma ConcatAssoc<T>(x: seq<T>, y: seq<T>, z: seq<T>)
    ensures x + y + z == x + (y + z)
  {
  }

  /** A section without content, or whose content has no markup at all,
      contributes only its title. */
  lemma SectionWithoutMarkup(s: SectionData)
    requires s.html.Some? ==> forall k :: 0 <= k < |s.html.value| ==> s.html.value[k] != '<'
    ensures SectionParagraphs(s) == [TextParagraph(s.title, Heading2, Start, 400, 200)]
  {
    Segmenter.NoMarkupNoBlocks(s.html.GetOr(""));
  }

  /** The sum from the left is the sum from the right. */
  lemma {:induction false} TotalIsSum(items: seq<PricingItem>)
    decreases |items|
    ensures Total(items) == Sum(items)
  {
    if items != [] {
      var init := items[..|items| - 1];
      TotalIsSum(init);
      SumSnoc(init, items[|items| - 1]);
      assert init + [items[|items| - 1]] == items;
    }
  }

  lemma {:induction false} SumSnoc(items: seq<PricingItem>, x: PricingItem)
    decreases |items|
    ensures Sum(items + [x]) == Sum(items) + x.cost
  {
    if items != [] {
      SumSnoc(items[1..], x);
      assert (items + [x])[1..] == items[1..] + [x];
    }
  }

  /** Removing one item takes its cost off the sum. */
  lemma {:induction false} SumRemove(items: seq<PricingItem>, i: nat)
    requires i < |items|
    decreases i
    ensures Sum(items) == items[i].cost + Sum(items[..i] + items[i + 1..])
  {
    if i == 0 {
      assert items[..0] + items[1..] == items[1..];
    } else {
      var tail := items[1..];
      SumRemove(tail, i - 1);
      assert items[..i] + items[i + 1..] == [items[0]] + (tail[..i - 1] + tail[i..]);
    }
  }

  /** The total does not depend on the order of the items. */
  lemma {:induction false} TotalPermutation(a: seq<PricingItem>, b: seq<PricingItem>)
    requires multiset(a) == multiset(b)
    decreases |a|
    ensures Total(a) == Total(b)
  {
    TotalIsSum(a);
    TotalIsSum(b);
    if a != [] {
      assert a[0] in multiset(b);
      var j :| 0 <= j < |b| && b[j] == a[0];
      var rest := b[..j] + b[j + 1..];
      SumRemove(b, j);
      RemoveFromBoth(a, b, j);
      TotalPermutation(a[1..], rest);
      TotalIsSum(a[1..]);
      TotalIsSum(rest);
    }
  }

  lemma RemoveFromBoth(a: seq<PricingItem>, b: seq<PricingItem>, j: nat)
    requires multiset(a) == multiset(b) && a != [] && j < |b| && b[j] == a[0]
    ensures multiset(a[1..]) == multiset(b[..j] + b[j + 1..])
  {
    assert b == b[..j] + [b[j]] + b[j + 1..];
    assert a == [a[0]] + a[1..];
    assert multiset(b) == multiset(b[..j]) + multiset{b[j]} + multiset(b[j + 1..]);
    assert multiset(b[..j] + b[j + 1..]) == multiset(b[..j]) + multiset(b[j + 1..]);
    assert multiset(a) == multiset{a[0]} + multiset(a[1..]);
    var m := multiset{a[0]};
    var left, right := multiset(a[1..]), multiset(b[..j] + b[j + 1..]);
    assert left + m == multiset(a);
    assert right + m == multiset(b);
    assert left == (left + m) - m;
    assert right == (right + m) - m;
  }

  /** The pricing part is there exactly when there are items: the heading,
      item k's line at position k + 1, and last the bold total, which is the
      sum of all the costs. */
  lemma PricingSpec(items: seq<PricingItem>)
    ensures PricingParagraphs(items) == [] <==> items == []
    ensures items != [] ==>
      var ps := PricingParagraphs(items);
      |ps| == |items| + 2 && ps[0] == PricingHeading
      && (forall k :: 0 <= k < |items| ==> ps[k + 1] == PricingLine(items[k]))
      && ps[|ps| - 1] == TotalParagraph(Sum(items))
      && ps[|ps| - 1].runs[0].bold
    ensures items != [] ==>
      var ps := PricingParagraphs(items);
      |ps| == |items| + 2
      && ps[0].runs == [Plain("Pricing Breakdown")] && ps[0].heading == Heading2
      && ps[0].before == 400 && ps[0].after == 200
      && ps[|ps| - 1].runs == [TextRun("Total: $" + FormatAmount(Sum(items)), true, false, true)]
      && ps[|ps| - 1].before == 200 && ps[|ps| - 1].heading == Body
  {
    if items != [] {
      Framed(PricingHeading, PricingLines(items), TotalParagraph(Total(items)));
      TotalIsSum(items);
    }
  }

  /** A sequence framed by a first and a last element. */
  lemma Framed<T>(first: T, middle: seq<T>, last: T)
    ensures var s := [first] + middle + [last];
      |s| == |middle| + 2 && s[0] == first && s[|s| - 1] == last
      && forall k :: 0 <= k < |middle| ==> s[k + 1] == middle[k]
  {
  }

  /** Every item's line shows its description, then its cost, then its
      frequency or "one-time". */
  lemma PricingLineSpec(item: PricingItem)
    ensures var t := PricingLine(item).runs[0].text;
      item.description + ": $" <= t
      && t[|item.description| + 3..] == FormatAmount(item.cost) + " " + OrElse(item.frequency, "one-time")
  {
    var head, amount, tail := item.description + ": $", FormatAmount(item.cost), " " + OrElse(item.frequency, "one-time");
    ConcatAssoc(head + amount, " ", OrElse(item.frequency, "one-time"));
    ConcatAssoc(head, amount, tail);
    assert PricingLine(item).runs[0].text == head + (amount + tail);
  }
}
