/**
 * The style table of the DOCX export and `htmlToParagraphs` itself: each
 * content block becomes one paragraph with fixed spacing and indentation,
 * and a section's HTML becomes the paragraphs of its blocks, in order.
 */
module Mapper {
  import opened Wrappers
  import opened Text
  import opened Docx
  import Segmenter

  type Block = Segmenter.Block

  /** The bullet prefix of an unordered item, as the source spells it: the
      UTF-8 bytes of U+2022 read as Windows-1252, then a space. */
  const BulletPrefix: string := "\U{00E2}\U{20AC}\U{00A2} "

  /** The paragraph of one block. Headings keep their level and get spacing
      400/200, 300/150 or 200/100; list items get a prefix, spacing after
      100 and left indent 400; a quote is italic, in double quotes, with
      spacing after 200 and indent 720 on both sides; a paragraph gets
      spacing after 150. */
  function MapBlock(b: Block): (p: Paragraph)
    ensures |p.runs| == 1 && p.runs[0].TextRun? && !p.runs[0].bold && !p.runs[0].lineBreak
    ensures p.alignment == Start
    ensures p.heading != Body <==> b.Heading?
    ensures p.runs[0].italics <==> b.Quote?
    ensures p.left == 400 <==> b.BulletItem? || b.NumberedItem?
    ensures b.Heading? && b.level == 1 ==> p.heading == Heading1 && p.before == 400 && p.after == 200
    ensures b.Heading? && b.level == 2 ==> p.heading == Heading2 && p.before == 300 && p.after == 150
    ensures b.Heading? && b.level != 1 && b.level != 2 ==> p.heading == Heading3 && p.before == 200 && p.after == 100
    ensures b.BulletItem? || b.NumberedItem? ==> p.before == 0 && p.after == 100 && p.right == 0
    ensures b.Quote? ==> p.before == 0 && p.after == 200 && p.left == 720 && p.right == 720
    ensures b.Paragraph? ==> p.before == 0 && p.after == 150
    ensures b.Heading? || b.Paragraph? ==> p.left == 0 && p.right == 0
  {
    match b
    case Heading(level, t) =>
      if level == 1 then TextParagraph(t, Heading1, Start, 400, 200)
      else if level == 2 then TextParagraph(t, Heading2, Start, 300, 150)
      else TextParagraph(t, Heading3, Start, 200, 100)
    case BulletItem(t) =>
      Paragraph([Plain(BulletPrefix + t)], Body, Start, 0, 100, 400, 0)
    case NumberedItem(n, t) =>
      Paragraph([Plain(NatToString(n) + ". " + t)], Body, Start, 0, 100, 400, 0)
    case Quote(t) =>
      Paragraph([TextRun("\"" + t + "\"", false, true, false)], Body, Start, 0, 200, 720, 720)
    case Paragraph(t) =>
      TextParagraph(t, Body, Start, 0, 150)
  }

  /** The number of leading decimal digits of s. */
  function DigitRun(s: string): (n: nat)
    ensures n <= |s| && AllDigits(s[..n]) && (n < |s| ==> !IsDigit(s[n]))
  {
    if s != [] && IsDigit(s[0]) then
      var n := 1 + DigitRun(s[1..]);
      assert s[..n] == [s[0]] + s[1..][..n - 1];
      n
    else 0
  }

  /** Reads `<number>. <text>` back. */
  function ParseNumbered(s: string): Option<Block>
  {
    var d := DigitRun(s);
    if d > 0 && d + 2 <= |s| && s[d..d + 2] == ". " then
      Some(Segmenter.NumberedItem(DigitsValue(s[..d]), s[d + 2..]))
    else None
  }

  /** Reads the block back from its paragraph, from the style alone: the
      heading level, then italics for a quote, then the left indent of 400
      and the prefix for a list item; anything else is a paragraph. */
  function Unmap(p: Paragraph): Option<Block>
  {
    if |p.runs| != 1 || !p.runs[0].TextRun? then None
    else
      var s := p.runs[0].text;
      match p.heading
      case Heading1 => Some(Segmenter.Heading(1, s))
      case Heading2 => Some(Segmenter.Heading(2, s))
      case Heading3 => Some(Segmenter.Heading(3, s))
      case Body =>
        if p.runs[0].italics then
          if 2 <= |s| && s[0] == '"' && s[|s| - 1] == '"' then Some(Segmenter.Quote(s[1..|s| - 1])) else None
        else if p.left == 400 then
          if BulletPrefix <= s then Some(Segmenter.BulletItem(s[|BulletPrefix|..])) else ParseNumbered(s)
        else Some(Segmenter.Paragraph(s))
  }

  lemma NumberedRoundTrip(n: nat, t: string)
    ensures ParseNumbered(NatToString(n) + ". " + t) == Some(Segmenter.NumberedItem(n, t))
  {
    var d := NatToString(n);
    var s := d + (". " + t);
    assert s == NatToString(n) + ". " + t;
    DigitRunOfDigits(d, ". " + t);
    assert DigitRun(s) == |d|;
    assert s[..|d|] == d;
    assert s[|d|..|d| + 2] == ". " && s[|d| + 2..] == t;
    NatToStringRoundTrip(n);
    assert DigitsValue(s[..|d|]) == n;
  }

  /** Digits followed by a non-digit: the digit run is exactly those digits. */
  lemma {:induction false} DigitRunOfDigits(d: string, rest: string)
    requires AllDigits(d) && rest != [] && !IsDigit(rest[0])
    ensures DigitRun(d + rest) == |d|
  {
    if d != [] {
      assert (d + rest)[1..] == d[1..] + rest;
      DigitRunOfDigits(d[1..], rest);
    }
  }

  /** The style table loses nothing: every block whose heading level is
      1 to 3 is read back from its paragraph. */
  lemma MapBlockRoundTrip(b: Block)
    requires b.Heading? ==> 1 <= b.level <= 3
    ensures Unmap(MapBlock(b)) == Some(b)
  {
    match b
    case Heading(level, t) =>
    case BulletItem(t) => BulletRoundTrip(t);
    case NumberedItem(n, t) => NumberedItemRoundTrip(n, t);
    case Quote(t) => QuoteRoundTrip(t);
    case Paragraph(t) =>
  }

  lemma BulletRoundTrip(t: string)
    ensures Unmap(MapBlock(Segmenter.BulletItem(t))) == Some(Segmenter.BulletItem(t))
  {
    var s := BulletPrefix + t;
    assert MapBlock(Segmenter.BulletItem(t)).runs[0].text == s;
    assert BulletPrefix <= s && s[|BulletPrefix|..] == t;
  }

  lemma NumberedItemRoundTrip(n: nat, t: string)
    ensures Unmap(MapBlock(Segmenter.NumberedItem(n, t))) == Some(Segmenter.NumberedItem(n, t))
  {
    var s := NatToString(n) + ". " + t;
    assert MapBlock(Segmenter.NumberedItem(n, t)).runs[0].text == s;
    assert !(BulletPrefix <= s) by {
      assert IsDigit(s[0]);
    }
    NumberedRoundTrip(n, t);
  }

  lemma QuoteRoundTrip(t: string)
    ensures Unmap(MapBlock(Segmenter.Quote(t))) == Some(Segmenter.Quote(t))
  {
    var s := "\"" + t + "\"";
    assert MapBlock(Segmenter.Quote(t)).runs[0].text == s;
    assert s[1..|s| - 1] == t;
  }

  /** Hence distinct blocks give distinct paragraphs: a list item never
      looks like a paragraph, a quote never like a heading. */
  lemma MapBlockInjective(a: Block, b: Block)
    requires a.Heading? ==> 1 <= a.level <= 3
    requires b.Heading? ==> 1 <= b.level <= 3
    requires MapBlock(a) == MapBlock(b)
    ensures a == b
  {
    MapBlockRoundTrip(a);
    MapBlockRoundTrip(b);
  }

  /** The paragraphs of a sequence of blocks, one each, in order. */
  function MapBlocks(bs: seq<Block>): (ps: seq<Paragraph>)
    ensures |ps| == |bs| && forall k :: 0 <= k < |bs| ==> ps[k] == MapBlock(bs[k])
  {
    seq(|bs|, k requires 0 <= k < |bs| => MapBlock(bs[k]))
  }

  lemma MapBlocksAppend(a: seq<Block>, b: seq<Block>)
    ensures MapBlocks(a + b) == MapBlocks(a) + MapBlocks(b)
  {
    assert forall k :: 0 <= k < |a + b| ==> MapBlocks(a + b)[k] == (MapBlocks(a) + MapBlocks(b))[k];
  }

  /** `items.forEach((item, index) => ...)`: push a paragraph for every
      item whose clean text is not empty, numbered `index + 1` in an ordered list. */
  method ItemParagraphs(items: seq<string>, ordered: bool) returns (ps: seq<Paragraph>)
    ensures ps == MapBlocks(Segmenter.ItemBlocks(Segmenter.ItemTexts(items), ordered))
  {
    ghost var texts := Segmenter.ItemTexts(items);
    ps := [];
    for j := 0 to |items|
      invariant ps == MapBlocks(Segmenter.ItemBlocks(texts[..j], ordered))
    {
      var text := Segmenter.Clean(items[j]);
      var pushed: seq<Paragraph> := [];
      if text != [] {
        var block := if ordered then Segmenter.NumberedItem(j + 1, text) else Segmenter.BulletItem(text);
        pushed := [MapBlock(block)];
      }
      ItemParagraphsStep(texts, j, ordered, ps, pushed);
      ps := ps + pushed;
    }
    assert texts[..|items|] == texts;
  }

  /** The paragraphs of one piece (the body of `sections.forEach`): none for
      a blank piece; its items' for a list; one for a heading, quote or
      paragraph whose clean text is not empty; none otherwise. */
  method PieceParagraphs(section: string) returns (ps: seq<Paragraph>)
    ensures ps == MapBlocks(Segmenter.PieceBlocks(section))
  {
    if Trim(section) == [] {
      Segmenter.BlankPieceBlocks(section);
      return [];
    }
    var kind := Segmenter.Classify(section);
    if kind == Segmenter.Bulleted || kind == Segmenter.Numbered {
      var items := Segmenter.ListItems(section);
      ps := ItemParagraphs(items, kind == Segmenter.Numbered);
      Segmenter.ListPieceBlocksAre(section);
      assert Segmenter.PieceBlocks(section) == Segmenter.ItemBlocks(Segmenter.ItemTexts(items), kind == Segmenter.Numbered);
      return;
    }
    if kind == Segmenter.Unrecognized {
      Segmenter.UnrecognizedPieceBlocks(section);
      return [];
    }
    ps := LeafParagraphs(section, kind);
  }

  /** A heading, quote or paragraph piece: one paragraph when its clean text
      is not empty. */
  method LeafParagraphs(section: string, kind: Segmenter.Kind) returns (ps: seq<Paragraph>)
    requires Trim(section) != [] && kind == Segmenter.Classify(section) && Segmenter.IsLeafKind(kind)
    ensures ps == MapBlocks(Segmenter.PieceBlocks(section))
  {
    var text := Segmenter.Clean(section);
    ghost var blocks := Segmenter.PieceBlocks(section);
    Segmenter.LeafPieceBlocksAre(section);
    ps := [];
    if text != [] {
      var block := Segmenter.LeafBlock(kind, text);
      assert blocks == [block];
      ps := [MapBlock(block)];
    } else {
      assert blocks == [];
    }
    assert |ps| == |blocks|;
  }

  /** `htmlToParagraphs`: split the HTML and push the paragraphs of each
      piece in turn. The result is the paragraphs of the segmenter's blocks. */
  method HtmlToParagraphs(html: string) returns (paragraphs: seq<Paragraph>)
    ensures paragraphs == MapBlocks(Segmenter.Blocks(html))
  {
    var sections := Segmenter.Split(html);
    paragraphs := [];
    for i := 0 to |sections|
      invariant paragraphs == MapBlocks(Segmenter.BlocksOf(sections[..i]))
    {
      var ps := PieceParagraphs(sections[i].text);
      PiecesStep(sections, i, paragraphs, ps);
      paragraphs := paragraphs + ps;
    }
    assert sections[..|sections|] == sections;
  }

  /** One step of the piece loop: the paragraphs of piece i extend those of
      the first i pieces to those of the first i + 1. */
  lemma PiecesStep(pieces: seq<Segmenter.Piece>, i: nat, paragraphs: seq<Paragraph>, ps: seq<Paragraph>)
    requires i < |pieces|
    requires paragraphs == MapBlocks(Segmenter.BlocksOf(pieces[..i]))
    requires ps == MapBlocks(Segmenter.PieceBlocks(pieces[i].text))
    ensures paragraphs + ps == MapBlocks(Segmenter.BlocksOf(pieces[..i + 1]))
  {
    Segmenter.BlocksOfSnoc(pieces, i);
    MapBlocksAppend(Segmenter.BlocksOf(pieces[..i]), Segmenter.PieceBlocks(pieces[i].text));
  }

  /** One step of the item loop: pushing the paragraph of item j's block, if
      any, extends the paragraphs of the first j items to those of the first j + 1. */
  lemma ItemParagraphsStep(texts: seq<string>, j: nat, ordered: bool, ps: seq<Paragraph>, pushed: seq<Paragraph>)
    requires j < |texts|
    requires ps == MapBlocks(Segmenter.ItemBlocks(texts[..j], ordered))
    requires pushed == if texts[j] == [] then []
                       else if ordered then [MapBlock(Segmenter.NumberedItem(j + 1, texts[j]))]
                       else [MapBlock(Segmenter.BulletItem(texts[j]))]
    ensures ps + pushed == MapBlocks(Segmenter.ItemBlocks(texts[..j + 1], ordered))
  {
    var added := Segmenter.ItemBlock(texts[j], ordered, j);
    ItemBlocksSnoc(texts, j, ordered);
    MapBlocksAppend(Segmenter.ItemBlocks(texts[..j], ordered), added);
    assert pushed == MapBlocks(added);
  }

  /** One more item of a list: its blocks so far, then the item's. */
  lemma ItemBlocksSnoc(texts: seq<string>, j: nat, ordered: bool)
    requires j < |texts|
    ensures Segmenter.ItemBlocks(texts[..j + 1], ordered)
         == Segmenter.ItemBlocks(texts[..j], ordered) + Segmenter.ItemBlock(texts[j], ordered, j)
  {
    assert texts[..j + 1][..j] == texts[..j];
  }
}
