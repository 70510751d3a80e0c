/**
 * The block segmenter of the DOCX export (`htmlToParagraphs`): the split of a
 * section's HTML by the block-element pattern, the classification of each
 * piece by the first block tag it opens, the list-item matcher, and the typed
 * blocks that result. Regular expressions are replaced by scanners that do
 * what the JavaScript engine does with these particular patterns.
 */
module Segmenter {
  import opened Wrappers
  import opened Text

  /** One position of a pattern: a character matched case-insensitively, or
      the class `[1-3]`. */
  datatype Sym = Ch(c: char) | OneToThree

  predicate SymMatches(c: char, x: Sym)
  {
    match x
    case Ch(d) => LowerAscii(c) == d
    case OneToThree => '1' <= c <= '3'
  }

  /** The pattern of a lower-case literal. */
  function Lit(t: string): (r: seq<Sym>)
    ensures |r| == |t| && forall k :: 0 <= k < |t| ==> r[k] == Ch(t[k])
  {
    seq(|t|, k requires 0 <= k < |t| => Ch(t[k]))
  }

  /** pat matches s at position i. */
  predicate PatAt(s: string, i: nat, pat: seq<Sym>)
  {
    i + |pat| <= |s| && forall k :: 0 <= k < |pat| ==> SymMatches(s[i + k], pat[k])
  }

  /** `.*?` followed by close, tried from k: the end of the first occurrence of
      close at or after k, provided no line terminator comes before it (`.`
      matches no line terminator without the `s` flag). */
  function LazyClose(s: string, k: nat, close: seq<Sym>): (r: Option<nat>)
    decreases |s| - k
    ensures r.Some? ==> k + |close| <= r.value <= |s|
  {
    if PatAt(s, k, close) then Some(k + |close|)
    else if k < |s| && !IsLineTerminator(s[k]) then LazyClose(s, k + 1, close)
    else None
  }

  /** The lazy `.*?` ends on an occurrence of close, and what it skipped holds
      no line terminator. */
  lemma {:induction false} LazyCloseSpec(s: string, k: nat, close: seq<Sym>, e: nat)
    requires LazyClose(s, k, close) == Some(e)
    decreases |s| - k
    ensures k + |close| <= e && PatAt(s, e - |close|, close)
    ensures forall m :: k <= m < e - |close| ==> !IsLineTerminator(s[m])
  {
    if !PatAt(s, k, close) {
      LazyCloseSpec(s, k + 1, close, e);
    }
  }

  /** ... and it finds an occurrence of close whenever one follows with no
      line terminator before it, ending at or before that occurrence. */
  lemma {:induction false} LazyCloseFinds(s: string, k: nat, close: seq<Sym>, m: nat)
    requires k <= m && PatAt(s, m, close)
    requires forall n :: k <= n < m ==> !IsLineTerminator(s[n])
    decreases m - k
    ensures LazyClose(s, k, close).Some? && LazyClose(s, k, close).value <= m + |close|
  {
    if !PatAt(s, k, close) {
      LazyCloseFinds(s, k + 1, close, m);
    }
  }

  /** ... and it is the first occurrence of close from k on. */
  lemma {:induction false} LazyCloseIsFirst(s: string, k: nat, close: seq<Sym>, m: nat)
    requires LazyClose(s, k, close).Some?
    requires k <= m < LazyClose(s, k, close).value - |close|
    decreases |s| - k
    ensures !PatAt(s, m, close)
  {
    if m > k {
      LazyCloseIsFirst(s, k + 1, close, m);
    }
  }

  /** The end of a match of `<open>[^>]*>.*?<close>` at i: the opening
      pattern, everything up to the first `>` (which may include line breaks),
      then the shortest run without a line terminator that ends in close. */
  function ElementEnd(s: string, i: nat, open: seq<Sym>, close: seq<Sym>): (r: Option<nat>)
    ensures r.Some? ==> i + |open| < r.value <= |s|
  {
    if PatAt(s, i, open) then
      match FindGt(s, i + |open|)
      case Some(j) => LazyClose(s, j + 1, close)
      case None => None
    else None
  }

  /** One alternative of the split pattern: `<open[^>]*>.*?<close>`. */
  datatype Alternative = Alternative(open: seq<Sym>, close: seq<Sym>)

  const HeadingAlt := Alternative([Ch('<'), Ch('h'), OneToThree], Lit("</h") + [OneToThree] + Lit(">"))
  const ParagraphAlt := Alternative(Lit("<p"), Lit("</p>"))
  const UnorderedAlt := Alternative(Lit("<ul"), Lit("</ul>"))
  const OrderedAlt := Alternative(Lit("<ol"), Lit("</ol>"))
  const QuoteAlt := Alternative(Lit("<blockquote"), Lit("</blockquote>"))

  /** The alternatives in the order the alternation tries them: h1-h3, p, ul, ol, blockquote. */
  const SplitOrder: seq<Alternative> := [HeadingAlt, ParagraphAlt, UnorderedAlt, OrderedAlt, QuoteAlt]

  function TagEndAt(s: string, i: nat, t: Alternative): Option<nat>
  {
    ElementEnd(s, i, t.open, t.close)
  }

  /** The end of the match the alternation finds at i: that of the first
      alternative in tags that matches there. */
  function FirstMatch(s: string, i: nat, tags: seq<Alternative>): (r: Option<nat>)
    ensures r.Some? ==> i < r.value <= |s|
  {
    if tags == [] then None
    else
      match TagEndAt(s, i, tags[0])
      case Some(e) => Some(e)
      case None => FirstMatch(s, i, tags[1..])
  }

  /** The alternative FirstMatch took: the earliest one in tags that matches. */
  lemma {:induction false} FirstMatchSpec(s: string, i: nat, tags: seq<Alternative>)
    requires FirstMatch(s, i, tags).Some?
    ensures exists j :: 0 <= j < |tags| && TagEndAt(s, i, tags[j]) == FirstMatch(s, i, tags)
                        && forall m :: 0 <= m < j ==> TagEndAt(s, i, tags[m]).None?
  {
    if TagEndAt(s, i, tags[0]).None? {
      FirstMatchSpec(s, i, tags[1..]);
      var j :| 0 <= j < |tags[1..]| && TagEndAt(s, i, tags[1..][j]) == FirstMatch(s, i, tags[1..])
               && forall m :: 0 <= m < j ==> TagEndAt(s, i, tags[1..][m]).None?;
      assert TagEndAt(s, i, tags[j + 1]) == FirstMatch(s, i, tags);
      forall m | 0 <= m < j + 1
        ensures TagEndAt(s, i, tags[m]).None?
      {
        if m > 0 {
          assert tags[m] == tags[1..][m - 1];
        }
      }
    } else {
      assert TagEndAt(s, i, tags[0]) == FirstMatch(s, i, tags);
    }
  }

  /** The end of the match the split pattern finds at position i. */
  function MatchAt(s: string, i: nat): (r: Option<nat>)
    ensures r.Some? ==> i < r.value <= |s|
  {
    FirstMatch(s, i, SplitOrder)
  }

  /** A pattern, seen as where its match at a given position ends. */
  type Matcher = (string, nat) -> Option<nat>

  /** Every match the matcher finds is non-empty and inside the string. */
  ghost predicate Advances(m: Matcher)
  {
    forall s: string, i: nat :: i < |s| && m(s, i).Some? ==> i < m(s, i).value <= |s|
  }

  lemma MatchAtAdvances()
    ensures Advances(MatchAt)
  {
  }

  /** A piece of the split: text between matches, or a captured match. */
  datatype Piece = Piece(text: string, captured: bool)

  /** `s.split(re)` for a pattern that is one capturing group, as
      String.prototype.split runs it: from the end p of the last match, try
      the pattern at q, q + 1, ...; on a match emit the text before it and
      the match itself, and go on after it; at the end emit the rest. */
  function SplitFrom(m: Matcher, s: string, p: nat, q: nat): seq<Piece>
    requires Advances(m) && p <= q <= |s|
    decreases |s| - q
  {
    if q == |s| then [Piece(s[p..], false)]
    else
      match m(s, q)
      case Some(e) => [Piece(s[p..q], false), Piece(s[q..e], true)] + SplitFrom(m, s, e, e)
      case None => SplitFrom(m, s, p, q + 1)
  }

  /** `html.split(/(<h[1-3][^>]*>.*?<\/h[1-3]>|<p[^>]*>.*?<\/p>|<ul[^>]*>.*?<\/ul>|<ol[^>]*>.*?<\/ol>|<blockquote[^>]*>.*?<\/blockquote>)/gi)`. */
  function Split(html: string): seq<Piece>
  {
    MatchAtAdvances();
    SplitFrom(MatchAt, html, 0, 0)
  }

  /** The pieces' texts, concatenated. */
  function Joined(ps: seq<Piece>): string
  {
    if ps == [] then [] else ps[0].text + Joined(ps[1..])
  }

  /** The split loses nothing and reorders nothing: its pieces concatenate
      back to the input. */
  lemma {:induction false} SplitFromLossless(m: Matcher, s: string, p: nat, q: nat)
    requires Advances(m) && p <= q <= |s|
    decreases |s| - q
    ensures Joined(SplitFrom(m, s, p, q)) == s[p..]
  {
    if q < |s| {
      match m(s, q)
      case Some(e) =>
        SplitFromLossless(m, s, e, e);
        var rest := SplitFrom(m, s, e, e);
        var ps := [Piece(s[p..q], false), Piece(s[q..e], true)] + rest;
        assert ps[1..] == [Piece(s[q..e], true)] + rest;
        assert ps[1..][1..] == rest;
        assert s[p..] == s[p..q] + s[q..e] + s[e..];
      case None =>
        SplitFromLossless(m, s, p, q + 1);
    }
  }

  lemma SplitLossless(html: string)
    ensures Joined(Split(html)) == html
  {
    MatchAtAdvances();
    SplitFromLossless(MatchAt, html, 0, 0);
  }

  /** Pieces alternate: text between matches at even indices, captured
      matches at odd ones; the split begins and ends with a between-piece. */
  lemma {:induction false} SplitFromAlternates(m: Matcher, s: string, p: nat, q: nat)
    requires Advances(m) && p <= q <= |s|
    decreases |s| - q
    ensures |SplitFrom(m, s, p, q)| % 2 == 1
    ensures forall k :: 0 <= k < |SplitFrom(m, s, p, q)| ==> (SplitFrom(m, s, p, q)[k].captured <==> k % 2 == 1)
  {
    if q < |s| {
      match m(s, q)
      case Some(e) =>
        SplitFromAlternates(m, s, e, e);
        var rest := SplitFrom(m, s, e, e);
        var ps := [Piece(s[p..q], false), Piece(s[q..e], true)] + rest;
        assert forall k :: 2 <= k < |ps| ==> ps[k] == rest[k - 2];
      case None =>
        SplitFromAlternates(m, s, p, q + 1);
    }
  }

  lemma SplitAlternates(html: string)
    ensures |Split(html)| % 2 == 1
    ensures forall k :: 0 <= k < |Split(html)| ==> (Split(html)[k].captured <==> k % 2 == 1)
  {
    MatchAtAdvances();
    SplitFromAlternates(MatchAt, html, 0, 0);
  }

  /** When every match the matcher can find from q on has property P, so has
      every captured piece. */
  lemma {:induction false} SplitFromCapturesOnly(m: Matcher, P: string -> bool, s: string, p: nat, q: nat)
    requires Advances(m) && p <= q <= |s|
    requires forall i :: q <= i < |s| && m(s, i).Some? ==> P(s[i..m(s, i).value])
    decreases |s| - q
    ensures forall k :: 0 <= k < |SplitFrom(m, s, p, q)| && SplitFrom(m, s, p, q)[k].captured ==>
              P(SplitFrom(m, s, p, q)[k].text)
  {
    if q < |s| {
      match m(s, q)
      case Some(e) =>
        SplitFromCapturesOnly(m, P, s, e, e);
        var rest := SplitFrom(m, s, e, e);
        var ps := [Piece(s[p..q], false), Piece(s[q..e], true)] + rest;
        assert forall k :: 2 <= k < |ps| ==> ps[k] == rest[k - 2];
      case None =>
        SplitFromCapturesOnly(m, P, s, p, q + 1);
    }
  }

  /** t is one whole element of kind tag, as the split captures it. */
  predicate IsElement(t: string, tag: Alternative)
  {
    TagEndAt(t, 0, tag) == Some(|t|)
  }

  lemma {:induction false} PatAtWindow(s: string, a: nat, b: nat, i: nat, pat: seq<Sym>)
    requires a <= b <= |s| && a + i + |pat| <= b
    ensures PatAt(s[a..b], i, pat) <==> PatAt(s, a + i, pat)
  {
    assert forall k :: 0 <= k < |pat| ==> (SymMatches(s[a..b][i + k], pat[k]) <==> SymMatches(s[a + i + k], pat[k]));
  }

  lemma {:induction false} FindGtWindow(s: string, a: nat, b: nat, n: nat)
    requires a <= b <= |s| && a + n <= b
    requires FindGt(s, a + n).Some? && FindGt(s, a + n).value < b
    decreases b - a - n
    ensures FindGt(s[a..b], n) == Some(FindGt(s, a + n).value - a)
  {
    assert s[a..b][n] == s[a + n];
    if s[a + n] != '>' {
      FindGtWindow(s, a, b, n + 1);
    }
  }

  lemma {:induction false} LazyCloseWindow(s: string, a: nat, b: nat, k: nat, close: seq<Sym>)
    requires a <= b <= |s| && a + k <= b
    requires LazyClose(s, a + k, close) == Some(b)
    decreases b - a - k
    ensures LazyClose(s[a..b], k, close) == Some(b - a)
  {
    if PatAt(s, a + k, close) {
      PatAtWindow(s, a, b, k, close);
    } else {
      if a + k + |close| <= b {
        PatAtWindow(s, a, b, k, close);
      }
      assert s[a..b][k] == s[a + k];
      LazyCloseWindow(s, a, b, k + 1, close);
    }
  }

  /** Matching depends only on the matched text: a match of an alternative,
      cut out of the string, is on its own one whole element of it. */
  lemma TagEndAtWindow(s: string, q: nat, tag: Alternative)
    requires TagEndAt(s, q, tag).Some?
    ensures IsElement(s[q..TagEndAt(s, q, tag).value], tag)
  {
    var e := TagEndAt(s, q, tag).value;
    var open, close := tag.open, tag.close;
    var j := ElementEndParts(s, q, open, close);
    LazyCloseWindow(s, q, e, j + 1 - q, close);
    FindGtWindow(s, q, e, |open|);
    PatAtWindow(s, q, e, 0, open);
    ElementEndOfParts(s[q..e], open, close, j - q);
  }

  /** What a match of an element is made of: the opening tag, the first `>`
      after it, and the lazy run up to the closing tag. */
  lemma ElementEndParts(s: string, i: nat, open: seq<Sym>, close: seq<Sym>) returns (j: nat)
    requires ElementEnd(s, i, open, close).Some?
    ensures PatAt(s, i, open) && FindGt(s, i + |open|) == Some(j)
    ensures i + |open| <= j && j + 1 + |close| <= ElementEnd(s, i, open, close).value
    ensures LazyClose(s, j + 1, close) == ElementEnd(s, i, open, close)
  {
    j := FindGt(s, i + |open|).value;
  }

  /** The converse: those three parts make a match ending at the end of t. */
  lemma ElementEndOfParts(t: string, open: seq<Sym>, close: seq<Sym>, j: nat)
    requires PatAt(t, 0, open) && FindGt(t, |open|) == Some(j) && LazyClose(t, j + 1, close) == Some(|t|)
    ensures ElementEnd(t, 0, open, close) == Some(|t|)
  {
  }

  /** Without the `s` flag an element never runs across a line break between
      the end of its opening tag and its closing tag (the attributes inside
      the opening tag may). */
  lemma ElementContentOnOneLine(t: string, open: seq<Sym>, close: seq<Sym>) returns (j: nat)
    requires ElementEnd(t, 0, open, close) == Some(|t|)
    ensures FindGt(t, |open|) == Some(j) && j + 1 + |close| <= |t|
    ensures PatAt(t, |t| - |close|, close)
    ensures forall m :: j < m < |t| - |close| ==> !IsLineTerminator(t[m])
  {
    j := ElementEndParts(t, 0, open, close);
    LazyCloseSpec(t, j + 1, close, |t|);
  }

  /** Whatever alternative the alternation took, its match is an element of that tag. */
  lemma {:induction false} FirstMatchIsElement(s: string, i: nat, tags: seq<Alternative>) returns (tag: Alternative)
    requires FirstMatch(s, i, tags).Some?
    decreases |tags|
    ensures tag in tags && IsElement(s[i..FirstMatch(s, i, tags).value], tag)
  {
    if TagEndAt(s, i, tags[0]).Some? {
      tag := tags[0];
      TagEndAtWindow(s, i, tag);
    } else {
      tag := FirstMatchIsElement(s, i, tags[1..]);
    }
  }

  /** The content of element t of kind tag, from after its opening tag's
      `>` to its closing tag, holds no line terminator. */
  predicate ContentOnOneLine(t: string, tag: Alternative)
  {
    FindGt(t, |tag.open|).Some?
    && forall m :: FindGt(t, |tag.open|).value < m < |t| - |tag.close| ==> !IsLineTerminator(t[m])
  }

  /** t is, on its own, one whole element of one of the five alternatives of
      the split, with its content on one line. */
  ghost predicate IsCapture(t: string)
  {
    exists tag :: tag in SplitOrder && IsElement(t, tag) && ContentOnOneLine(t, tag)
  }

  /** Every captured piece is, on its own, exactly one h1-h3, p, ul, ol or
      blockquote element, and its content never crosses a line break. */
  lemma SplitCapturesElements(html: string)
    ensures forall k :: 0 <= k < |Split(html)| && Split(html)[k].captured ==> IsCapture(Split(html)[k].text)
  {
    MatchAtAdvances();
    forall i | 0 <= i < |html| && MatchAt(html, i).Some?
      ensures IsCapture(html[i..MatchAt(html, i).value])
    {
      var t := html[i..MatchAt(html, i).value];
      var tag := MatchIsElement(html, i);
      var j := ElementContentOnOneLine(t, tag.open, tag.close);
      assert ContentOnOneLine(t, tag);
    }
    SplitFromCapturesOnly(MatchAt, IsCapture, html, 0, 0);
  }

  lemma MatchIsElement(s: string, i: nat) returns (tag: Alternative)
    requires MatchAt(s, i).Some?
    ensures tag in SplitOrder && IsElement(s[i..MatchAt(s, i).value], tag)
  {
    tag := FirstMatchIsElement(s, i, SplitOrder);
  }

  /** `piece.match(/<name[^>]*>/i)` succeeds: `<name` occurs somewhere in the
      piece, case-insensitively, with a `>` after it. */
  predicate Opens(piece: string, name: string)
  {
    OpensFrom(piece, name, 0)
  }

  /** The scan behind Opens: an occurrence of `<name` at i or later, with a
      `>` somewhere after it. */
  predicate OpensFrom(piece: string, name: string, i: nat)
    decreases |piece| - i
  {
    i < |piece|
    && ((PatAt(piece, i, Lit("<" + name)) && FindGt(piece, i + |name| + 1).Some?) || OpensFrom(piece, name, i + 1))
  }

  /** The block kind a piece is classified as. */
  datatype Kind = H1 | H2 | H3 | Bulleted | Numbered | Quoted | Plain | Unrecognized

  /** The classification table: a tag name and the kind of block it makes, in
      the order the source tests them. */
  const Priority: seq<(string, Kind)> :=
    [("h1", H1), ("h2", H2), ("h3", H3), ("ul", Bulleted), ("ol", Numbered), ("blockquote", Quoted), ("p", Plain)]

  function ClassifyBy(piece: string, table: seq<(string, Kind)>): Kind
  {
    if table == [] then Unrecognized
    else if Opens(piece, table[0].0) then table[0].1
    else ClassifyBy(piece, table[1..])
  }

  /** The kind of the first entry of the table whose opening tag occurs in the piece. */
  function Classify(piece: string): Kind
  {
    ClassifyBy(piece, Priority)
  }

  predicate DistinctKinds(table: seq<(string, Kind)>)
  {
    forall a, b :: 0 <= a < b < |table| ==> table[a].1 != table[b].1
  }

  /** ClassifyBy answers one of the table's kinds, or Unrecognized. */
  lemma {:induction false} ClassifyByInTable(piece: string, table: seq<(string, Kind)>)
    decreases |table|
    ensures ClassifyBy(piece, table) == Unrecognized
         || exists m :: 0 <= m < |table| && table[m].1 == ClassifyBy(piece, table)
  {
    if table != [] && !Opens(piece, table[0].0) {
      ClassifyByInTable(piece, table[1..]);
      if ClassifyBy(piece, table[1..]) != Unrecognized {
        var m :| 0 <= m < |table[1..]| && table[1..][m].1 == ClassifyBy(piece, table[1..]);
        assert table[m + 1].1 == ClassifyBy(piece, table);
      }
    }
  }

  /** With distinct kinds, classifying by a table picks entry j exactly when
      j's tag is opened and no earlier entry's is: the table is a priority order. */
  lemma {:induction false} ClassifyByIsFirst(piece: string, table: seq<(string, Kind)>, j: nat)
    requires DistinctKinds(table) && forall m :: 0 <= m < |table| ==> table[m].1 != Unrecognized
    requires j < |table|
    decreases |table|
    ensures ClassifyBy(piece, table) == table[j].1 <==>
              Opens(piece, table[j].0) && forall m :: 0 <= m < j ==> !Opens(piece, table[m].0)
  {
    var rest := table[1..];
    assert forall m :: 1 <= m < |table| ==> rest[m - 1] == table[m];
    if !Opens(piece, table[0].0) {
      if j == 0 {
        ClassifyByInTable(piece, rest);
      } else {
        ClassifyByIsFirst(piece, rest, j - 1);
      }
    }
  }

  /** The source's order: a piece is H1 when it opens an h1, H2 when it opens
      an h2 and no h1, and so on down to Plain for a p; Unrecognized when it
      opens none of the seven. */
  lemma ClassifyIsFirstOpened(piece: string, j: nat)
    requires j < |Priority|
    ensures Classify(piece) == Priority[j].1 <==>
              Opens(piece, Priority[j].0) && forall m :: 0 <= m < j ==> !Opens(piece, Priority[m].0)
  {
    ClassifyByIsFirst(piece, Priority, j);
  }

  /** `text.replace(/<[^>]+>/g, '').trim()`: the leaf text of a piece or an item. */
  function Clean(s: string): string
  {
    Trim(StripTags(s))
  }

  /** Clean text has no surrounding white space and no tag left in it. */
  lemma CleanIsClean(s: string)
    ensures Trimmed(Clean(s)) && NoTag(Clean(s))
  {
    var t := StripTags(s);
    StripTagsLeavesNoTag(s, 0);
    TrimIsInfix(t);
    var a, b := LeadingSpace(t), LeadingSpace(t) + |Trim(t)|;
    NoTagInfix(t, a, b);
    assert Clean(s) == t[a..b];
  }

  /** The list-item pattern `<li[^>]*>(.*?)<\/li>`. */
  const ItemAlt := Alternative(Lit("<li"), Lit("</li>"))

  /** `piece.match(re)` with the global flag: try the pattern at q, q + 1, ...;
      on a match keep the whole matched text and go on at its end. */
  function MatchAllFrom(s: string, q: nat, tag: Alternative): seq<string>
    requires q <= |s|
    decreases |s| - q
  {
    if q == |s| then []
    else
      match TagEndAt(s, q, tag)
      case Some(e) => [s[q..e]] + MatchAllFrom(s, e, tag)
      case None => MatchAllFrom(s, q + 1, tag)
  }

  /** `piece.match(/<li[^>]*>(.*?)<\/li>/gi) || []`: the list items of a piece. */
  function ListItems(piece: string): seq<string>
  {
    MatchAllFrom(piece, 0, ItemAlt)
  }

  /** Every match of the global scan is one whole element of the pattern. */
  lemma {:induction false} MatchAllFromAreElements(s: string, q: nat, tag: Alternative)
    requires q <= |s|
    decreases |s| - q
    ensures forall k :: 0 <= k < |MatchAllFrom(s, q, tag)| ==> IsElement(MatchAllFrom(s, q, tag)[k], tag)
  {
    if q < |s| {
      match TagEndAt(s, q, tag)
      case Some(e) =>
        TagEndAtWindow(s, q, tag);
        MatchAllFromAreElements(s, e, tag);
      case None =>
        MatchAllFromAreElements(s, q + 1, tag);
    }
  }

  /** Each list item is one whole `<li>` element, its content on one line. */
  lemma ListItemsAreElements(piece: string)
    ensures forall k :: 0 <= k < |ListItems(piece)| ==> IsElement(ListItems(piece)[k], ItemAlt)
  {
    MatchAllFromAreElements(piece, 0, ItemAlt);
  }

  /** A content block, as the segmenter hands it to the style table. */
  datatype Block =
    | Heading(level: nat, text: string)
    | BulletItem(text: string)
    | NumberedItem(number: nat, text: string)
    | Quote(text: string)
    | Paragraph(text: string)

  /** What every block the segmenter emits satisfies: its text is non-empty,
      trimmed and free of tags; a heading has level 1 to 3 and a numbered
      item a number from 1. */
  predicate WellFormed(b: Block)
  {
    && b.text != []
    && Trimmed(b.text)
    && NoTag(b.text)
    && (b.Heading? ==> 1 <= b.level <= 3)
    && (b.NumberedItem? ==> b.number >= 1)
  }

  /** The clean text of each list item. */
  function ItemTexts(items: seq<string>): (r: seq<string>)
    ensures |r| == |items| && forall k :: 0 <= k < |items| ==> r[k] == Clean(items[k])
  {
    seq(|items|, k requires 0 <= k < |items| => Clean(items[k]))
  }

  /** The item at 0-based index `index` of a list, given its clean text t:
      skipped when t is empty, numbered `index + 1` in an ordered list. */
  function ItemBlock(t: string, ordered: bool, index: nat): seq<Block>
  {
    if t == [] then []
    else if ordered then [NumberedItem(index + 1, t)]
    else [BulletItem(t)]
  }

  /** The blocks of a list, given its items' clean texts, in order (`items.forEach`). */
  function ItemBlocks(texts: seq<string>, ordered: bool): seq<Block>
  {
    if texts == [] then []
    else ItemBlocks(texts[..|texts| - 1], ordered) + ItemBlock(texts[|texts| - 1], ordered, |texts| - 1)
  }

  /** The kinds that yield one block from the whole piece. */
  predicate IsLeafKind(kind: Kind)
  {
    kind == H1 || kind == H2 || kind == H3 || kind == Quoted || kind == Plain
  }

  /** The block a heading, quote or paragraph piece makes of its text t. */
  function LeafBlock(kind: Kind, t: string): (b: Block)
    requires IsLeafKind(kind)
    ensures KindOf(b) == kind && b.text == t && (b.Heading? ==> 1 <= b.level <= 3)
  {
    match kind
    case H1 => Heading(1, t)
    case H2 => Heading(2, t)
    case H3 => Heading(3, t)
    case Quoted => Quote(t)
    case Plain => Paragraph(t)
  }

  /** The blocks of one piece (one round of `sections.forEach`): nothing for
      a blank piece; for a list, its items; for a heading, quote or paragraph,
      its clean text when that is not empty; nothing for an unrecognized piece. */
  function PieceBlocks(piece: string): seq<Block>
  {
    if Trim(piece) == [] then []
    else
      var kind := Classify(piece);
      if kind == Bulleted || kind == Numbered then ItemBlocks(ItemTexts(ListItems(piece)), kind == Numbered)
      else if kind == Unrecognized then []
      else
        var t := Clean(piece);
        if t == [] then [] else [LeafBlock(kind, t)]
  }

  /** PieceBlocks, one case at a time, for callers that branch as it does. */
  lemma BlankPieceBlocks(piece: string)
    requires Trim(piece) == []
    ensures PieceBlocks(piece) == []
  {
  }

  lemma ListPieceBlocksAre(piece: string)
    requires Trim(piece) != [] && (Classify(piece) == Bulleted || Classify(piece) == Numbered)
    ensures PieceBlocks(piece) == ItemBlocks(ItemTexts(ListItems(piece)), Classify(piece) == Numbered)
  {
  }

  lemma UnrecognizedPieceBlocks(piece: string)
    requires Trim(piece) != [] && Classify(piece) == Unrecognized
    ensures PieceBlocks(piece) == []
  {
  }

  lemma LeafPieceBlocksAre(piece: string)
    requires Trim(piece) != [] && IsLeafKind(Classify(piece))
    ensures PieceBlocks(piece) == if Clean(piece) == [] then [] else [LeafBlock(Classify(piece), Clean(piece))]
  {
  }

  /** The blocks of a sequence of pieces, piece after piece. */
  function BlocksOf(ps: seq<Piece>): seq<Block>
  {
    if ps == [] then []
    else BlocksOf(ps[..|ps| - 1]) + PieceBlocks(ps[|ps| - 1].text)
  }

  lemma BlocksOfSnoc(ps: seq<Piece>, i: nat)
    requires i < |ps|
    ensures BlocksOf(ps[..i + 1]) == BlocksOf(ps[..i]) + PieceBlocks(ps[i].text)
  {
    var q := ps[..i + 1];
    assert q[..i] == ps[..i] && q[i] == ps[i];
  }

  /** The blocks of a section's HTML. */
  function Blocks(html: string): seq<Block>
  {
    BlocksOf(Split(html))
  }

  /** The kind of piece a block comes from. */
  function KindOf(b: Block): Kind
  {
    match b
    case Heading(level, _) => if level == 1 then H1 else if level == 2 then H2 else H3
    case BulletItem(_) => Bulleted
    case NumberedItem(_, _) => Numbered
    case Quote(_) => Quoted
    case Paragraph(_) => Plain
  }

  /** Each block of bs is the numbered item `number - 1` of a list, with that
      item's text. */
  predicate NumberedFrom(bs: seq<Block>, texts: seq<string>)
  {
    forall k :: 0 <= k < |bs| ==>
      bs[k].NumberedItem? && 1 <= bs[k].number <= |texts| && bs[k].text == texts[bs[k].number - 1]
  }

  /** Numbers strictly increase along bs. */
  predicate Increasing(bs: seq<Block>)
  {
    forall a, c :: 0 <= a < c < |bs| && bs[a].NumberedItem? && bs[c].NumberedItem? ==> bs[a].number < bs[c].number
  }

  /** Every item whose text is not empty has its block in bs. */
  predicate KeepsNonEmpty(bs: seq<Block>, texts: seq<string>)
  {
    forall j :: 0 <= j < |texts| && texts[j] != [] ==> exists k :: 0 <= k < |bs| && bs[k].NumberedItem? && bs[k].number == j + 1
  }

  /** One more item: the blocks so far, then the new item's (if any). */
  lemma NumberedSnocShape(front: seq<Block>, texts: seq<string>)
    requires texts != []
    ensures var n := |texts|;
            var bs := front + ItemBlock(texts[n - 1], true, n - 1);
            && (texts[n - 1] == [] ==> bs == front)
            && (texts[n - 1] != [] ==> |bs| == |front| + 1 && bs[|front|] == NumberedItem(n, texts[n - 1]))
            && forall k :: 0 <= k < |front| ==> bs[k] == front[k]
  {
  }

  /** One more item keeps every block tied to its item. */
  lemma NumberedSnocFrom(front: seq<Block>, texts: seq<string>)
    requires texts != [] && NumberedFrom(front, texts[..|texts| - 1])
    ensures NumberedFrom(front + ItemBlock(texts[|texts| - 1], true, |texts| - 1), texts)
  {
    var n := |texts|;
    var init := texts[..n - 1];
    var bs := front + ItemBlock(texts[n - 1], true, n - 1);
    NumberedSnocShape(front, texts);
    forall k | 0 <= k < |bs|
      ensures bs[k].NumberedItem? && 1 <= bs[k].number <= n && bs[k].text == texts[bs[k].number - 1]
    {
      if k < |front| {
        var x := front[k].number - 1;
        assert init[x] == texts[x];
      }
    }
  }

  /** One more item keeps the numbers increasing. */
  lemma NumberedSnocIncreasing(front: seq<Block>, texts: seq<string>)
    requires texts != [] && NumberedFrom(front, texts[..|texts| - 1]) && Increasing(front)
    ensures Increasing(front + ItemBlock(texts[|texts| - 1], true, |texts| - 1))
  {
    var n := |texts|;
    var bs := front + ItemBlock(texts[n - 1], true, n - 1);
    NumberedSnocShape(front, texts);
    forall a, c | 0 <= a < c < |bs| && bs[a].NumberedItem? && bs[c].NumberedItem?
      ensures bs[a].number < bs[c].number
    {
      assert bs[a] == front[a] && front[a].number <= n - 1;
    }
  }

  /** One more item keeps every non-empty item present. */
  lemma NumberedSnocKeeps(front: seq<Block>, texts: seq<string>)
    requires texts != [] && KeepsNonEmpty(front, texts[..|texts| - 1])
    ensures KeepsNonEmpty(front + ItemBlock(texts[|texts| - 1], true, |texts| - 1), texts)
  {
    var n := |texts|;
    var init := texts[..n - 1];
    var bs := front + ItemBlock(texts[n - 1], true, n - 1);
    NumberedSnocShape(front, texts);
    forall j | 0 <= j < n && texts[j] != []
      ensures exists k :: 0 <= k < |bs| && bs[k].NumberedItem? && bs[k].number == j + 1
    {
      if j < n - 1 {
        assert init[j] == texts[j];
        var k :| 0 <= k < |front| && front[k].NumberedItem? && front[k].number == j + 1;
        assert bs[k] == front[k];
      } else {
        assert bs[|front|].number == j + 1;
      }
    }
  }

  /** Items of an ordered list: each block is item `number - 1`'s text,
      numbers strictly increase, and every item whose text is not empty is
      there. Numbers count the skipped items too, so they can have gaps. */
  lemma {:induction false} NumberedItems(texts: seq<string>)
    ensures NumberedFrom(ItemBlocks(texts, true), texts)
    ensures Increasing(ItemBlocks(texts, true))
    ensures KeepsNonEmpty(ItemBlocks(texts, true), texts)
  {
    if texts != [] {
      var front := ItemBlocks(texts[..|texts| - 1], true);
      NumberedItems(texts[..|texts| - 1]);
      NumberedSnocFrom(front, texts);
      NumberedSnocIncreasing(front, texts);
      NumberedSnocKeeps(front, texts);
    }
  }

  /** Every item, as a bullet: the number dropped. */
  function AsBullets(bs: seq<Block>): (r: seq<Block>)
    ensures |r| == |bs| && forall k :: 0 <= k < |bs| ==> r[k] == BulletItem(bs[k].text)
  {
    seq(|bs|, k requires 0 <= k < |bs| => BulletItem(bs[k].text))
  }

  /** An unordered list keeps exactly the items an ordered one keeps, as
      bullets instead of numbers. */
  lemma {:induction false} BulletsAreUnnumbered(texts: seq<string>)
    ensures ItemBlocks(texts, false) == AsBullets(ItemBlocks(texts, true))
  {
    if texts != [] {
      var n := |texts|;
      BulletsAreUnnumbered(texts[..n - 1]);
      assert AsBullets(ItemBlocks(texts, true))
          == AsBullets(ItemBlocks(texts[..n - 1], true)) + AsBullets(ItemBlock(texts[n - 1], true, n - 1));
    }
  }

  /** Every block of a list is well formed and is an item of that list's kind. */
  lemma {:induction false} ItemBlocksWellFormed(texts: seq<string>, ordered: bool)
    requires forall k :: 0 <= k < |texts| ==> Trimmed(texts[k]) && NoTag(texts[k])
    ensures forall b :: b in ItemBlocks(texts, ordered) ==>
              WellFormed(b) && KindOf(b) == (if ordered then Numbered else Bulleted)
  {
    if texts != [] {
      var n := |texts|;
      assert forall k :: 0 <= k < n - 1 ==> texts[..n - 1][k] == texts[k];
      ItemBlocksWellFormed(texts[..n - 1], ordered);
    }
  }

  /** A list piece yields well-formed items of its list's kind. */
  lemma ListPieceBlocks(piece: string)
    requires Classify(piece) == Bulleted || Classify(piece) == Numbered
    ensures forall b :: b in PieceBlocks(piece) ==> WellFormed(b) && KindOf(b) == Classify(piece)
  {
    if Trim(piece) != [] {
      var items := ListItems(piece);
      forall k | 0 <= k < |items|
        ensures Trimmed(ItemTexts(items)[k]) && NoTag(ItemTexts(items)[k])
      {
        CleanIsClean(items[k]);
      }
      ItemBlocksWellFormed(ItemTexts(items), Classify(piece) == Numbered);
    }
  }

  /** A heading, quote or paragraph piece yields at most one block: a
      well-formed one of its kind, whose text is the piece's clean text. */
  lemma LeafPieceBlocks(piece: string)
    requires IsLeafKind(Classify(piece))
    ensures |PieceBlocks(piece)| <= 1
    ensures forall b :: b in PieceBlocks(piece) ==>
              WellFormed(b) && KindOf(b) == Classify(piece) && b.text == Clean(piece)
  {
    if Trim(piece) == [] {
      BlankPieceBlocks(piece);
    } else {
      LeafPieceBlocksAre(piece);
      var t := Clean(piece);
      if t != [] {
        CleanIsClean(piece);
        var b := LeafBlock(Classify(piece), t);
        assert WellFormed(b);
        assert PieceBlocks(piece) == [b];
      }
    }
  }

  /** Each piece yields well-formed blocks of the kind it is classified as
      (so a piece is never both a heading and a list), and an unrecognized
      piece yields nothing. */
  lemma PieceBlocksFollowClassify(piece: string)
    ensures forall b :: b in PieceBlocks(piece) ==> WellFormed(b) && KindOf(b) == Classify(piece)
    ensures Classify(piece) == Unrecognized ==> PieceBlocks(piece) == []
  {
    var kind := Classify(piece);
    if kind == Bulleted || kind == Numbered {
      ListPieceBlocks(piece);
    } else if kind != Unrecognized {
      LeafPieceBlocks(piece);
    }
  }

  /** No block the segmenter emits has empty text, and all are well formed. */
  lemma {:induction false} BlocksOfWellFormed(ps: seq<Piece>)
    ensures forall b :: b in BlocksOf(ps) ==> WellFormed(b)
  {
    if ps != [] {
      BlocksOfWellFormed(ps[..|ps| - 1]);
      PieceBlocksFollowClassify(ps[|ps| - 1].text);
    }
  }

  lemma BlocksWellFormed(html: string)
    ensures forall b :: b in Blocks(html) ==> WellFormed(b)
  {
    BlocksOfWellFormed(Split(html));
  }

  /** Where the matcher finds nothing from q on, the split is the rest of
      the string, uncaptured. */
  lemma {:induction false} SplitFromNoMatch(m: Matcher, s: string, p: nat, q: nat)
    requires Advances(m) && p <= q <= |s|
    requires forall i :: q <= i < |s| ==> m(s, i).None?
    decreases |s| - q
    ensures SplitFrom(m, s, p, q) == [Piece(s[p..], false)]
  {
    if q < |s| {
      SplitFromNoMatch(m, s, p, q + 1);
    }
  }

  /** Every alternative of the split pattern begins with `<`. */
  predicate OpensWithLt(tags: seq<Alternative>)
  {
    forall t :: t in tags ==> |t.open| > 0 && t.open[0] == Ch('<')
  }

  lemma {:induction false} FirstMatchNeedsLt(s: string, i: nat, tags: seq<Alternative>)
    requires OpensWithLt(tags)
    requires i < |s| && s[i] != '<'
    decreases |tags|
    ensures FirstMatch(s, i, tags).None?
  {
    if tags != [] {
      assert !SymMatches(s[i], tags[0].open[0]);
      assert OpensWithLt(tags[1..]) by {
        forall t | t in tags[1..]
          ensures |t.open| > 0 && t.open[0] == Ch('<')
        {
          assert t in tags;
        }
      }
      FirstMatchNeedsLt(s, i, tags[1..]);
    }
  }

  /** A piece without `<` opens no tag. */
  lemma NoLtOpensNothing(piece: string, name: string)
    requires forall k :: 0 <= k < |piece| ==> piece[k] != '<'
    ensures !Opens(piece, name)
  {
    NoLtOpensNothingFrom(piece, name, 0);
  }

  lemma {:induction false} NoLtOpensNothingFrom(piece: string, name: string, i: nat)
    requires forall k :: 0 <= k < |piece| ==> piece[k] != '<'
    decreases |piece| - i
    ensures !OpensFrom(piece, name, i)
  {
    if i < |piece| {
      assert !SymMatches(piece[i], Lit("<" + name)[0]);
      NoLtOpensNothingFrom(piece, name, i + 1);
    }
  }

  /** No entry of the table is opened in a piece without `<`. */
  lemma {:induction false} ClassifyByNeedsLt(piece: string, table: seq<(string, Kind)>)
    requires forall k :: 0 <= k < |piece| ==> piece[k] != '<'
    decreases |table|
    ensures ClassifyBy(piece, table) == Unrecognized
  {
    if table != [] {
      NoLtOpensNothing(piece, table[0].0);
      ClassifyByNeedsLt(piece, table[1..]);
    }
  }

  /** Text without `<` is not split at all. */
  lemma NoMarkupNoSplit(html: string)
    requires forall k :: 0 <= k < |html| ==> html[k] != '<'
    ensures Split(html) == [Piece(html, false)]
  {
    MatchAtAdvances();
    assert OpensWithLt(SplitOrder);
    forall i | 0 <= i < |html|
      ensures MatchAt(html, i).None?
    {
      FirstMatchNeedsLt(html, i, SplitOrder);
    }
    SplitFromNoMatch(MatchAt, html, 0, 0);
  }

  /** Text without any `<` yields no block at all: text outside the
      recognized elements is dropped. */
  lemma NoMarkupNoBlocks(html: string)
    requires forall k :: 0 <= k < |html| ==> html[k] != '<'
    ensures Blocks(html) == []
  {
    NoMarkupNoSplit(html);
    ClassifyByNeedsLt(html, Priority);
    assert BlocksOf([Piece(html, false)]) == BlocksOf([]) + PieceBlocks(html);
  }
}
