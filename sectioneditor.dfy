/**
 * The section list of the proposal editor: adding, updating, deleting and
 * moving sections, and expanding or collapsing them. Sections are shared
 * objects: the list operations build new lists, `updateSection` builds new
 * objects for the sections it changes, and `moveSection` writes `order`
 * into the objects it is given. `order` is what the export sorts by, so the
 * editor's list and the exported document agree when the list is sorted by
 * `order` (`InExportOrder`).
 */
module SectionEditor {
  import opened Wrappers
  import opened Text
  import opened Proposal
  import opened SectionOrder

  /** The section types the editor offers. */
  datatype Kind = Text | Pricing | Timeline | Custom

  /** A section's attributes at one moment. */
  datatype SectionValue = SectionValue(id: string, title: string, html: string, order: int, kind: Kind)

  /** A section object of the editor's list. Only `order` is ever written in place. */
  class Section {
    const id: string
    const title: string
    const html: string
    const kind: Kind
    var order: int

    constructor (id: string, title: string, html: string, order: int, kind: Kind)
      ensures Value() == SectionValue(id, title, html, order, kind)
    {
      this.id := id;
      this.title := title;
      this.html := html;
      this.order := order;
      this.kind := kind;
    }

    function Value(): SectionValue
      reads this
    {
      SectionValue(id, title, html, order, kind)
    }
  }

  /** What the export reads of a section: its title, html and order. */
  function Stored(v: SectionValue): SectionData
  {
    SectionData(v.id, v.title, Some(v.html), v.order)
  }

  /** The list as the export reads it. */
  function Values(ss: seq<Section>): (vs: seq<SectionData>)
    reads set s | s in ss
    ensures |vs| == |ss| && forall k :: 0 <= k < |ss| ==> vs[k] == Stored(ss[k].Value())
  {
    if ss == [] then [] else Values(ss[..|ss| - 1]) + [Stored(ss[|ss| - 1].Value())]
  }

  /** The editor shows the sections in list order and the export in `order`
      order; they agree exactly when the list is sorted by `order`. */
  predicate InExportOrder(ss: seq<Section>)
    reads set s | s in ss
  {
    SortedByOrder(Values(ss))
  }

  lemma ExportShowsEditorOrder(ss: seq<Section>)
    requires InExportOrder(ss)
    ensures SortByOrder(Values(ss)) == Values(ss)
  {
    SortedIsFixed(Values(ss));
  }

  // ---------------------------------------------------------------- add

  /** The order `addSection` gives a new section: the list's length. */
  function AsWrittenNewOrder(ss: seq<SectionData>): int
  {
    |ss|
  }

  /** One more than the largest order in the list, and 0 for an empty list:
      the order that puts a new section last. */
  function NextOrder(ss: seq<SectionData>): (r: int)
    ensures r >= 0 && forall k :: 0 <= k < |ss| ==> ss[k].order < r
  {
    if ss == [] then 0
    else
      var m := NextOrder(ss[..|ss| - 1]);
      if ss[|ss| - 1].order + 1 > m then ss[|ss| - 1].order + 1 else m
  }

  /** On a list numbered 0..n-1, as `moveSection` leaves it, the next order
      is the length, as `addSection` computes it. */
  lemma {:induction false} NextOrderOfNumbered(ss: seq<SectionData>)
    requires forall k :: 0 <= k < |ss| ==> ss[k].order == k
    ensures NextOrder(ss) == AsWrittenNewOrder(ss)
  {
    if ss != [] {
      NextOrderOfNumbered(ss[..|ss| - 1]);
    }
  }

  /** A section added with the next order comes last in the export, after
      the others in their export order. */
  lemma NextOrderSortsLast(ss: seq<SectionData>, x: SectionData)
    requires x.order == NextOrder(ss)
    ensures SortByOrder(ss + [x]) == SortByOrder(ss) + [x]
  {
    AppendLargestSortsLast(ss, x);
  }

  /** With the length as the new order, a deletion followed by an addition
      shows the new section last in the editor but not in the export:
      deleting the first two of three sections numbered 0, 1, 2 leaves the
      third with order 2, and the new section gets order 1. */
  lemma AsWrittenAddMisorders()
    ensures var a := SectionData("a", "A", Some(""), 0);
      var b := SectionData("b", "B", Some(""), 1);
      var c := SectionData("c", "C", Some(""), 2);
      var kept := DeleteStored(DeleteStored([a, b, c], "a"), "b");
      var added := SectionData("section-0", "New Section", Some(""), AsWrittenNewOrder(kept));
      kept == [c] && SortByOrder(kept + [added]) == [added, c] != kept + [added]
  {
    var a := SectionData("a", "A", Some(""), 0);
    var b := SectionData("b", "B", Some(""), 1);
    var c := SectionData("c", "C", Some(""), 2);
    assert "a" != "b" && "a" != "c" && "b" != "c" by {
      assert "a"[0] != "b"[0] && "a"[0] != "c"[0] && "b"[0] != "c"[0];
    }
    DeleteFirstTwo(a, b, c);
    var added := SectionData("section-0", "New Section", Some(""), 1);
    LowerOrderSortsFirst(c, added);
  }

  lemma DeleteFirstTwo(a: SectionData, b: SectionData, c: SectionData)
    requires a.id != b.id && a.id != c.id && b.id != c.id
    ensures DeleteStored(DeleteStored([a, b, c], a.id), b.id) == [c]
  {
    assert DeleteStored([a, b, c], a.id) == [b, c] by {
      DeleteStoredSnoc([], a, a.id);
      assert [] + [a] == [a];
      DeleteStoredSnoc([a], b, a.id);
      assert [a] + [b] == [a, b];
      DeleteStoredSnoc([a, b], c, a.id);
      assert [a, b] + [c] == [a, b, c];
    }
    assert DeleteStored([b, c], b.id) == [c] by {
      DeleteStoredSnoc([], b, b.id);
      assert [] + [b] == [b];
      DeleteStoredSnoc([b], c, b.id);
      assert [b] + [c] == [b, c];
    }
  }

  lemma DeleteStoredSnoc(ss: seq<SectionData>, x: SectionData, id: string)
    ensures DeleteStored(ss + [x], id) == DeleteStored(ss, id) + (if x.id == id then [] else [x])
  {
    assert (ss + [x])[..|ss|] == ss;
  }

  lemma LowerOrderSortsFirst(c: SectionData, x: SectionData)
    requires x.order < c.order
    ensures SortByOrder([c, x]) == [x, c]
  {
    assert [c, x][..1] == [c];
    assert SortByOrder([c]) == [c];
    assert Insert(x, []) == [x];
  }

  /** The list numbered 0..n-1, as `moveSection` leaves it. */
  predicate Numbered(ss: seq<Section>)
    reads set s | s in ss
  {
    forall k :: 0 <= k < |ss| ==> ss[k].order == k
  }

  /** A numbered list is in export order. */
  lemma NumberedInExportOrder(ss: seq<Section>)
    requires Numbered(ss)
    ensures InExportOrder(ss)
  {
  }

  /** `addSection`: a fresh section appended at the end, with id
      "section-" followed by the clock reading, title "New Section", empty
      content, type text, and the list's length as its order; its id is
      appended to the expanded ids. The existing sections are the same
      objects. On a numbered list the new section is numbered too, so the
      export still shows the editor's order; on other lists it may not (see
      `AsWrittenAddMisorders`). */
  method AddSection(sections: seq<Section>, expanded: seq<string>, now: nat)
    returns (r: seq<Section>, e: seq<string>)
    ensures |r| == |sections| + 1 && r[..|sections|] == sections
    ensures fresh(r[|sections|])
    ensures r[|sections|].Value()
      == SectionValue("section-" + NatToString(now), "New Section", "", |sections|, Text)
    ensures e == expanded + [r[|sections|].id]
    ensures Numbered(sections) ==> Numbered(r) && InExportOrder(r)
  {
    r, e := AddWithOrder(sections, expanded, now, AsWrittenNewOrder(Values(sections)));
    if Numbered(sections) {
      assert Numbered(r) by {
        forall k | 0 <= k < |r|
          ensures r[k].order == k
        {
          if k < |sections| {
            assert r[k] == sections[k];
          }
        }
      }
      NumberedInExportOrder(r);
    }
  }

  /** `addSection` with the order corrected to `NextOrder`: the new section
      comes last in the export as in the editor, on every list in export order. */
  method AddSectionLast(sections: seq<Section>, expanded: seq<string>, now: nat)
    returns (r: seq<Section>, e: seq<string>)
    ensures |r| == |sections| + 1 && r[..|sections|] == sections
    ensures fresh(r[|sections|])
    ensures r[|sections|].Value()
      == SectionValue("section-" + NatToString(now), "New Section", "", NextOrder(Values(sections)), Text)
    ensures e == expanded + [r[|sections|].id]
    ensures InExportOrder(sections) ==> InExportOrder(r)
  {
    r, e := AddWithOrder(sections, expanded, now, NextOrder(Values(sections)));
    if InExportOrder(sections) {
      SortedAppend(Values(sections), Stored(r[|sections|].Value()));
    }
  }

  /** The part the two share: a new section of the given order appended. */
  method AddWithOrder(sections: seq<Section>, expanded: seq<string>, now: nat, order: int)
    returns (r: seq<Section>, e: seq<string>)
    ensures |r| == |sections| + 1 && r[..|sections|] == sections
    ensures fresh(r[|sections|])
    ensures r[|sections|].Value() == SectionValue("section-" + NatToString(now), "New Section", "", order, Text)
    ensures e == expanded + [r[|sections|].id]
    ensures Values(r) == Values(sections) + [Stored(r[|sections|].Value())]
  {
    var s := new Section("section-" + NatToString(now), "New Section", "", order, Text);
    r := sections + [s];
    e := expanded + [s.id];
    assert r[..|sections|] == sections;
  }

  lemma SortedAppend(ss: seq<SectionData>, x: SectionData)
    requires SortedByOrder(ss) && forall k :: 0 <= k < |ss| ==> ss[k].order <= x.order
    ensures SortedByOrder(ss + [x])
  {
  }

  // ------------------------------------------------------------- update

  /** `Partial<Section>`: the attributes an update sets; None leaves one as it is. */
  datatype SectionUpdate = SectionUpdate(
    id: Option<string>, title: Option<string>, html: Option<string>, order: Option<int>, kind: Option<Kind>)

  const NoUpdate := SectionUpdate(None, None, None, None, None)

  /** `{ ...section, ...updates }`. */
  function Merge(v: SectionValue, u: SectionUpdate): SectionValue
  {
    SectionValue(u.id.GetOr(v.id), u.title.GetOr(v.title), u.html.GetOr(v.html),
                 u.order.GetOr(v.order), u.kind.GetOr(v.kind))
  }

  /** Two updates in a row: the later one's attributes win. */
  function Then(u1: SectionUpdate, u2: SectionUpdate): SectionUpdate
  {
    SectionUpdate(if u2.id.Some? then u2.id else u1.id,
                  if u2.title.Some? then u2.title else u1.title,
                  if u2.html.Some? then u2.html else u1.html,
                  if u2.order.Some? then u2.order else u1.order,
                  if u2.kind.Some? then u2.kind else u1.kind)
  }

  /** The empty update changes nothing; applying an update twice is applying
      it once; two updates in a row are one combined update. */
  lemma MergeLaws(v: SectionValue, u: SectionUpdate, u2: SectionUpdate)
    ensures Merge(v, NoUpdate) == v
    ensures Merge(Merge(v, u), u) == Merge(v, u)
    ensures Merge(Merge(v, u), u2) == Merge(v, Then(u, u2))
  {
  }

  /** Only the attributes the update names change. */
  lemma MergeChangesOnlyNamed(v: SectionValue, u: SectionUpdate)
    ensures Merge(v, u).title != v.title ==> u.title.Some?
    ensures Merge(v, u).html != v.html ==> u.html.Some?
    ensures Merge(v, u).order != v.order ==> u.order.Some?
    ensures Merge(v, u).id != v.id ==> u.id.Some?
    ensures Merge(v, u).kind != v.kind ==> u.kind.Some?
  {
  }

  /** `updateSection`: the list mapped, each section with the id replaced by
      a new object holding the merged attributes, every other section the
      same object. */
  method UpdateSection(sections: seq<Section>, id: string, u: SectionUpdate) returns (r: seq<Section>)
    ensures |r| == |sections|
    ensures forall k :: 0 <= k < |sections| && sections[k].id != id ==> r[k] == sections[k]
    ensures forall k :: 0 <= k < |sections| && sections[k].id == id ==>
      fresh(r[k]) && r[k].Value() == Merge(sections[k].Value(), u)
    ensures u.order.None? && InExportOrder(sections) ==> InExportOrder(r)
  {
    r := [];
    var i := 0;
    while i < |sections|
      invariant 0 <= i <= |sections| && |r| == i
      invariant forall k :: 0 <= k < i && sections[k].id != id ==> r[k] == sections[k]
      invariant forall k :: 0 <= k < i && sections[k].id == id ==>
        fresh(r[k]) && r[k].Value() == Merge(sections[k].Value(), u)
    {
      var s := sections[i];
      if s.id == id {
        var v := Merge(s.Value(), u);
        var n := new Section(v.id, v.title, v.html, v.order, v.kind);
        r := r + [n];
      } else {
        r := r + [s];
      }
      i := i + 1;
    }
    if u.order.None? && InExportOrder(sections) {
      SameOrdersSorted(Values(sections), Values(r));
    }
  }

  /** Sortedness by order depends on the orders alone. */
  lemma SameOrdersSorted(a: seq<SectionData>, b: seq<SectionData>)
    requires SortedByOrder(a) && |a| == |b|
    requires forall k :: 0 <= k < |a| ==> a[k].order == b[k].order
    ensures SortedByOrder(b)
  {
  }

  // ------------------------------------------------------------- delete

  /** `deleteSection` on the list: the sections whose id differs, in order. */
  function DeleteSection(ss: seq<Section>, id: string): seq<Section>
  {
    if ss == [] then []
    else DeleteSection(ss[..|ss| - 1], id) + (if ss[|ss| - 1].id == id then [] else [ss[|ss| - 1]])
  }

  /** `deleteSection` on the expanded ids, and the filter `toggleSection` uses. */
  function Without(ids: seq<string>, id: string): seq<string>
  {
    if ids == [] then []
    else Without(ids[..|ids| - 1], id) + (if ids[|ids| - 1] == id then [] else [ids[|ids| - 1]])
  }

  /** The same filter on the data the export reads. */
  function DeleteStored(ss: seq<SectionData>, id: string): seq<SectionData>
  {
    if ss == [] then []
    else DeleteStored(ss[..|ss| - 1], id) + (if ss[|ss| - 1].id == id then [] else [ss[|ss| - 1]])
  }

  /** Deleting removes every section with the id and keeps every other one;
      it works piece by piece, so the survivors keep their relative order. */
  lemma {:induction false} DeleteSectionSpec(ss: seq<Section>, id: string)
    ensures forall s :: s in DeleteSection(ss, id) <==> s in ss && s.id != id
  {
    if ss != [] {
      var init := ss[..|ss| - 1];
      DeleteSectionSpec(init, id);
      assert ss == init + [ss[|ss| - 1]];
    }
  }

  lemma {:induction false} DeleteSectionAppend(a: seq<Section>, b: seq<Section>, id: string)
    decreases |b|
    ensures DeleteSection(a + b, id) == DeleteSection(a, id) + DeleteSection(b, id)
  {
    if b == [] {
      assert a + b == a;
    } else {
      var b' := b[..|b| - 1];
      DeleteSectionAppend(a, b', id);
      assert (a + b)[..|a + b| - 1] == a + b';
    }
  }

  /** Deleting does not renumber: it is the same deletion on what the
      export reads. */
  lemma {:induction false} DeleteSectionValues(ss: seq<Section>, id: string)
    ensures Values(DeleteSection(ss, id)) == DeleteStored(Values(ss), id)
  {
    if ss != [] {
      var init := ss[..|ss| - 1];
      DeleteSectionValues(init, id);
      assert Values(ss)[..|ss| - 1] == Values(init);
      ValuesAppend(DeleteSection(init, id), if ss[|ss| - 1].id == id then [] else [ss[|ss| - 1]]);
    }
  }

  lemma {:induction false} ValuesAppend(a: seq<Section>, b: seq<Section>)
    ensures Values(a + b) == Values(a) + Values(b)
  {
    assert |Values(a + b)| == |Values(a) + Values(b)|;
    forall k | 0 <= k < |a + b|
      ensures Values(a + b)[k] == (Values(a) + Values(b))[k]
    {
      if k < |a| {
        assert (a + b)[k] == a[k];
      } else {
        assert (a + b)[k] == b[k - |a|];
      }
    }
  }

  /** The survivors of a deletion are among the sections, each with its order. */
  lemma {:induction false} DeleteStoredIn(ss: seq<SectionData>, id: string, x: SectionData)
    requires x in DeleteStored(ss, id)
    ensures x in ss
  {
    if ss != [] && x in DeleteStored(ss[..|ss| - 1], id) {
      DeleteStoredIn(ss[..|ss| - 1], id, x);
    }
  }

  /** A list in export order stays in export order when sections are deleted. */
  lemma {:induction false} DeleteStoredKeepsSorted(ss: seq<SectionData>, id: string)
    requires SortedByOrder(ss)
    ensures SortedByOrder(DeleteStored(ss, id))
  {
    if ss != [] {
      var init := ss[..|ss| - 1];
      var last := ss[|ss| - 1];
      DeleteStoredKeepsSorted(init, id);
      if last.id != id {
        var d := DeleteStored(init, id);
        forall k | 0 <= k < |d|
          ensures d[k].order <= last.order
        {
          DeleteStoredIn(init, id, d[k]);
          var m :| 0 <= m < |init| && init[m] == d[k];
          assert ss[m] == d[k];
        }
        SortedAppend(d, last);
      }
    }
  }

  lemma DeleteKeepsExportOrder(ss: seq<Section>, id: string)
    requires InExportOrder(ss)
    ensures InExportOrder(DeleteSection(ss, id))
  {
    DeleteSectionValues(ss, id);
    DeleteStoredKeepsSorted(Values(ss), id);
  }

  // ------------------------------------------------------------- toggle

  lemma {:induction false} WithoutSpec(ids: seq<string>, id: string)
    ensures forall x :: x in Without(ids, id) <==> x in ids && x != id
  {
    if ids != [] {
      var init := ids[..|ids| - 1];
      WithoutSpec(init, id);
      assert ids == init + [ids[|ids| - 1]];
    }
  }

  /** `toggleSection`: every occurrence of the id removed when it is
      expanded, the id appended when it is not. */
  function ToggleSection(expanded: seq<string>, id: string): seq<string>
  {
    if id in expanded then Without(expanded, id) else expanded + [id]
  }

  /** Toggling flips whether the id is expanded and leaves the other ids, in
      their order; toggling a collapsed id twice restores the list. */
  lemma ToggleSectionSpec(expanded: seq<string>, id: string)
    ensures id in ToggleSection(expanded, id) <==> id !in expanded
    ensures forall x :: x != id ==> (x in ToggleSection(expanded, id) <==> x in expanded)
    ensures Without(ToggleSection(expanded, id), id) == Without(expanded, id)
    ensures id !in expanded ==> ToggleSection(ToggleSection(expanded, id), id) == expanded
  {
    WithoutSpec(expanded, id);
    if id !in expanded {
      WithoutAbsent(expanded, id);
      assert (expanded + [id])[..|expanded|] == expanded;
    } else {
      WithoutTwice(expanded, id);
    }
  }

  lemma {:induction false} WithoutAbsent(ids: seq<string>, id: string)
    requires id !in ids
    ensures Without(ids, id) == ids
  {
    if ids != [] {
      WithoutAbsent(ids[..|ids| - 1], id);
    }
  }

  lemma WithoutTwice(ids: seq<string>, id: string)
    ensures Without(Without(ids, id), id) == Without(ids, id)
  {
    WithoutSpec(ids, id);
    WithoutAbsent(Without(ids, id), id);
  }

  // --------------------------------------------------------------- move

  datatype Direction = Up | Down

  /** `findIndex`: the first position holding the id, or -1. */
  function FindIndex(ss: seq<Section>, id: string): (r: int)
    ensures -1 <= r < |ss|
    ensures r >= 0 ==> ss[r].id == id && forall k :: 0 <= k < r ==> ss[k].id != id
    ensures r == -1 <==> forall k :: 0 <= k < |ss| ==> ss[k].id != id
  {
    if ss == [] then -1
    else if ss[0].id == id then 0
    else
      var r := FindIndex(ss[1..], id);
      if r == -1 then -1 else r + 1
  }

  function Swap<T>(s: seq<T>, i: nat, j: nat): (r: seq<T>)
    requires i < |s| && j < |s|
    ensures |r| == |s| && r[i] == s[j] && r[j] == s[i]
    ensures forall k :: 0 <= k < |s| && k != i && k != j ==> r[k] == s[k]
  {
    s[i := s[j]][j := s[i]]
  }

  /** The list `moveSection` hands on: None at the boundary (up from the
      first position, down from the last), where it does nothing; else the
      list with the section and its neighbour swapped. */
  function Moved(ss: seq<Section>, id: string, dir: Direction): Option<seq<Section>>
    requires exists k :: 0 <= k < |ss| && ss[k].id == id
  {
    var i := FindIndex(ss, id);
    assert i >= 0;
    match dir
    case Up => if i == 0 then None else Some(Swap(ss, i, i - 1))
    case Down => if i == |ss| - 1 then None else Some(Swap(ss, i, i + 1))
  }

  /** A move is a permutation: the same sections, each as many times. */
  lemma MovedPermutes(ss: seq<Section>, id: string, dir: Direction)
    requires exists k :: 0 <= k < |ss| && ss[k].id == id
    ensures Moved(ss, id, dir).Some? ==> multiset(Moved(ss, id, dir).value) == multiset(ss)
  {
    var i := FindIndex(ss, id);
    if Moved(ss, id, dir).Some? {
      var j := if dir == Up then i - 1 else i + 1;
      SwapPermutes(ss, i, j);
    }
  }

  lemma SwapPermutes<T>(s: seq<T>, i: nat, j: nat)
    requires i < |s| && j < |s|
    ensures multiset(Swap(s, i, j)) == multiset(s)
  {
    var t := s[i := s[j]];
    assert multiset(t) == multiset(s) - multiset{s[i]} + multiset{s[j]};
    assert multiset(t[j := s[i]]) == multiset(t) - multiset{t[j]} + multiset{s[i]};
  }

  /** Moving a section up and then down again restores the list. */
  lemma MoveUpThenDown(ss: seq<Section>, id: string)
    requires exists k :: 0 <= k < |ss| && ss[k].id == id
    requires Moved(ss, id, Up).Some?
    ensures var up := Moved(ss, id, Up).value;
      FindIndex(up, id) == FindIndex(ss, id) - 1 && Moved(up, id, Down) == Some(ss)
  {
    var i := FindIndex(ss, id);
    var up := Swap(ss, i, i - 1);
    assert up[i - 1].id == id;
    assert FindIndex(up, id) == i - 1;
    assert Swap(up, i - 1, i) == ss;
  }

  /** The last position holding the object, or -1. */
  function LastIndexOf(ss: seq<Section>, s: Section): (r: int)
    ensures -1 <= r < |ss|
    ensures r >= 0 ==> ss[r] == s && forall k :: r < k < |ss| ==> ss[k] != s
    ensures r == -1 ==> s !in ss
  {
    if ss == [] then -1
    else if ss[|ss| - 1] == s then |ss| - 1
    else LastIndexOf(ss[..|ss| - 1], s)
  }

  /** The last position of an object in one more element of a list. */
  lemma LastIndexOfSnoc(ss: seq<Section>, i: nat, s: Section)
    requires i < |ss|
    ensures LastIndexOf(ss[..i + 1], s) == if ss[i] == s then i else LastIndexOf(ss[..i], s)
  {
    assert ss[..i + 1][..i] == ss[..i];
  }

  predicate Distinct(ss: seq<Section>)
  {
    forall i, j :: 0 <= i < j < |ss| ==> ss[i] != ss[j]
  }

  /** Of distinct objects, each is last at its own position. */
  lemma LastIndexOfDistinct(ss: seq<Section>, k: nat)
    requires Distinct(ss) && k < |ss|
    ensures LastIndexOf(ss, ss[k]) == k
  {
  }

  /** `moveSection`. At the boundary it does nothing and returns None (no
      `onChange`). Otherwise it returns the moved list and has written each
      section's position into its `order`: as the loop writes position by
      position, an object listed twice keeps its last position. Nothing else
      of a section changes. */
  method MoveSection(sections: seq<Section>, id: string, dir: Direction) returns (r: Option<seq<Section>>)
    requires exists k :: 0 <= k < |sections| && sections[k].id == id
    modifies set s | s in sections
    ensures r == Moved(sections, id, dir)
    ensures r.None? ==> forall s :: s in sections ==> s.order == old(s.order)
    ensures r.Some? ==> forall k :: 0 <= k < |r.value| ==> r.value[k].order == LastIndexOf(r.value, r.value[k])
  {
    var index := FindIndex(sections, id);
    if (dir == Up && index == 0) || (dir == Down && index == |sections| - 1) {
      assert Moved(sections, id, dir) == None;
      return None;
    }
    assert 0 <= index < |sections|;
    var target := if dir == Up then index - 1 else index + 1;
    var moved := Swap(sections, index, target);
    assert Moved(sections, id, dir) == Some(moved);
    SwapPermutes(sections, index, target);
    Renumber(moved, sections);
    r := Some(moved);
  }

  /** The `forEach` writing each position into the section there. */
  method Renumber(ss: seq<Section>, within: seq<Section>)
    requires multiset(ss) == multiset(within)
    modifies set s | s in within
    ensures forall k :: 0 <= k < |ss| ==> ss[k].order == LastIndexOf(ss, ss[k])
  {
    var i := 0;
    while i < |ss|
      invariant 0 <= i <= |ss|
      invariant forall k :: 0 <= k < i ==> ss[k].order == LastIndexOf(ss[..i], ss[k])
    {
      assert ss[i] in multiset(within);
      ss[i].order := i;
      forall k | 0 <= k <= i
        ensures ss[k].order == LastIndexOf(ss[..i + 1], ss[k])
      {
        LastIndexOfSnoc(ss, i, ss[k]);
      }
      i := i + 1;
    }
    assert ss[..|ss|] == ss;
  }

  /** After a move of distinct sections the orders are exactly 0..n-1, so the
      list is in export order. */
  lemma MovedIsNumbered(r: seq<Section>)
    requires Distinct(r)
    requires forall k :: 0 <= k < |r| ==> r[k].order == LastIndexOf(r, r[k])
    ensures forall k :: 0 <= k < |r| ==> r[k].order == k
    ensures InExportOrder(r)
  {
    forall k | 0 <= k < |r|
      ensures r[k].order == k
    {
      LastIndexOfDistinct(r, k);
    }
  }
}
