/**
 * The document elements the export builds, in place of the objects of the
 * `docx` library: paragraphs made of text and image runs, with a heading
 * style, an alignment, spacing and indentation. Spacing and indentation are
 * in twentieths of a point, and 0 stands for "not set".
 */
module Docx {
  /** Raw bytes, as a Node `Buffer` holds them. */
  type Bytes = seq<bv8>

  /** `HeadingLevel`: none for body text, or heading 1 to 3. */
  datatype HeadingLevel = Body | Heading1 | Heading2 | Heading3

  /** `AlignmentType`: the default start alignment, or centred. */
  datatype Alignment = Start | Center

  /** A `TextRun` (with its bold and italic flags, and whether it begins
      with a line break, `break: 1`) or an `ImageRun` of the given display size. */
  datatype Run =
    | TextRun(text: string, bold: bool, italics: bool, lineBreak: bool)
    | ImageRun(data: Bytes, width: nat, height: nat)

  datatype Paragraph = Paragraph(
    runs: seq<Run>,
    heading: HeadingLevel,
    alignment: Alignment,
    before: nat,
    after: nat,
    left: nat,
    right: nat)

  /** A plain run, as `new Paragraph({ text })` makes one. */
  function Plain(t: string): Run
  {
    TextRun(t, false, false, false)
  }

  /** A run that starts on a new line (`new TextRun({ text, break: 1 })`). */
  function Line(t: string): Run
  {
    TextRun(t, false, false, true)
  }

  /** `new Paragraph({ text, heading, alignment, spacing: { before, after } })`. */
  function TextParagraph(t: string, heading: HeadingLevel, alignment: Alignment, before: nat, after: nat): Paragraph
  {
    Paragraph([Plain(t)], heading, alignment, before, after, 0, 0)
  }
}
