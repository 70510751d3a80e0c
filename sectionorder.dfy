/**
 * The sort of the export's sections by `order`
 * (`sections.sort((a, b) => a.order - b.order)`). Array.prototype.sort is
 * stable, so the result is the stable sort: sorted by order, and sections
 * with equal order keep their relative positions. The specification is a
 * functional insertion sort; the in-place method is proved equal to it.
 */
module SectionOrder {
  import opened Proposal

  predicate SortedByOrder(s: seq<SectionData>)
  {
    forall i, j :: 0 <= i < j < |s| ==> s[i].order <= s[j].order
  }

  /** x inserted into s after every element whose order is at most x's. */
  function Insert(x: SectionData, s: seq<SectionData>): (r: seq<SectionData>)
    ensures |r| == |s| + 1
  {
    if s == [] || s[|s| - 1].order <= x.order then s + [x]
    else Insert(x, s[..|s| - 1]) + [s[|s| - 1]]
  }

  /** The stable sort by order: each element in turn inserted into the sorted prefix. */
  function SortByOrder(s: seq<SectionData>): (r: seq<SectionData>)
    ensures |r| == |s|
  {
    if s == [] then [] else Insert(s[|s| - 1], SortByOrder(s[..|s| - 1]))
  }

  /** The elements of s whose order is k, in their order in s. */
  function WithOrder(s: seq<SectionData>, k: int): seq<SectionData>
  {
    if s == [] then []
    else WithOrder(s[..|s| - 1], k) + (if s[|s| - 1].order == k then [s[|s| - 1]] else [])
  }

  lemma {:induction false} InsertPermutes(x: SectionData, s: seq<SectionData>)
    ensures multiset(Insert(x, s)) == multiset(s) + multiset{x}
  {
    if s != [] && s[|s| - 1].order > x.order {
      InsertPermutes(x, s[..|s| - 1]);
      assert s == s[..|s| - 1] + [s[|s| - 1]];
    }
  }

  lemma {:induction false} InsertSorted(x: SectionData, s: seq<SectionData>)
    requires SortedByOrder(s)
    ensures SortedByOrder(Insert(x, s))
  {
    if s != [] && s[|s| - 1].order > x.order {
      var init := s[..|s| - 1];
      var last := s[|s| - 1];
      InsertSorted(x, init);
      assert forall i :: 0 <= i < |init| ==> init[i].order <= last.order by {
        assert forall i :: 0 <= i < |init| ==> init[i] == s[i];
      }
      InsertBounded(x, init, last.order);
      var r := Insert(x, init);
      var t := r + [last];
      forall i, j | 0 <= i < j < |t|
        ensures t[i].order <= t[j].order
      {
        if j == |r| {
          assert t[i] in r;
        } else {
          assert t[i] == r[i] && t[j] == r[j];
        }
      }
    }
  }

  /** Inserting x under a bound its order and all of s respect keeps every order under it. */
  lemma {:induction false} InsertBounded(x: SectionData, s: seq<SectionData>, b: int)
    requires x.order <= b && forall i :: 0 <= i < |s| ==> s[i].order <= b
    ensures forall i :: 0 <= i < |Insert(x, s)| ==> Insert(x, s)[i].order <= b
  {
    if s != [] && s[|s| - 1].order > x.order {
      var init := s[..|s| - 1];
      assert forall i :: 0 <= i < |init| ==> init[i] == s[i];
      InsertBounded(x, init, b);
    }
  }

  /** Inserting x adds x to the elements of its own order, after them, and
      leaves every other order's elements as they were. */
  lemma {:induction false} InsertWithOrder(x: SectionData, s: seq<SectionData>, k: int)
    ensures WithOrder(Insert(x, s), k) == WithOrder(s, k) + (if x.order == k then [x] else [])
  {
    if s != [] && s[|s| - 1].order > x.order {
      var init := s[..|s| - 1];
      var last := s[|s| - 1];
      InsertWithOrder(x, init, k);
      var r := Insert(x, init);
      assert (r + [last])[..|r + [last]| - 1] == r;
      if last.order == k {
        assert x.order != k;
      }
    } else {
      assert (s + [x])[..|s + [x]| - 1] == s;
    }
  }

  /** The sort's result is ordered and is a permutation of its input. */
  lemma {:induction false} SortByOrderSorted(s: seq<SectionData>)
    ensures SortedByOrder(SortByOrder(s))
    ensures multiset(SortByOrder(s)) == multiset(s)
  {
    if s != [] {
      var init, x := s[..|s| - 1], s[|s| - 1];
      assert SortedByOrder(SortByOrder(s)) by {
        SortByOrderSorted(init);
        InsertSorted(x, SortByOrder(init));
      }
      assert multiset(SortByOrder(s)) == multiset(s) by {
        SortByOrderSorted(init);
        InsertPermutes(x, SortByOrder(init));
        assert s == init + [x];
      }
    }
  }

  /** The sort is stable: for every order, the elements of that order come
      out in the order they went in. */
  lemma {:induction false} SortByOrderStable(s: seq<SectionData>, k: int)
    ensures WithOrder(SortByOrder(s), k) == WithOrder(s, k)
  {
    if s != [] {
      var init := s[..|s| - 1];
      SortByOrderStable(init, k);
      InsertWithOrder(s[|s| - 1], SortByOrder(init), k);
    }
  }

  /** Every element of s is among the elements of its own order. */
  lemma {:induction false} WithOrderHas(s: seq<SectionData>, i: nat)
    requires i < |s|
    ensures s[i] in WithOrder(s, s[i].order)
  {
    if i < |s| - 1 {
      WithOrderHas(s[..|s| - 1], i);
    }
  }

  /** ... and WithOrder picks only elements of s of that order. */
  lemma {:induction false} WithOrderIn(s: seq<SectionData>, k: int, e: SectionData)
    requires e in WithOrder(s, k)
    ensures e in s && e.order == k
  {
    if s != [] && e in WithOrder(s[..|s| - 1], k) {
      WithOrderIn(s[..|s| - 1], k, e);
    }
  }

  /** t and u hold the same elements of each order, in the same relative order. */
  ghost predicate SameGroups(t: seq<SectionData>, u: seq<SectionData>)
  {
    forall k :: WithOrder(t, k) == WithOrder(u, k)
  }

  lemma WithOrderSnoc(s: seq<SectionData>, x: SectionData, k: int)
    ensures WithOrder(s + [x], k) == WithOrder(s, k) + (if x.order == k then [x] else [])
  {
    assert (s + [x])[..|s|] == s;
  }

  /** Two sorted sequences with the same groups end in elements of the same order. */
  lemma LastSameOrder(t: seq<SectionData>, u: seq<SectionData>)
    requires SortedByOrder(t) && SortedByOrder(u) && t != [] && u != []
    requires SameGroups(t, u)
    ensures t[|t| - 1].order == u[|u| - 1].order
  {
    var x, y := t[|t| - 1], u[|u| - 1];
    WithOrderHas(t, |t| - 1);
    assert WithOrder(t, x.order) == WithOrder(u, x.order);
    WithOrderIn(u, x.order, x);
    WithOrderHas(u, |u| - 1);
    assert WithOrder(t, y.order) == WithOrder(u, y.order);
    WithOrderIn(t, y.order, y);
  }

  /** s == A + [x] == B + [y] splits the same way. */
  lemma SnocInjective(a: seq<SectionData>, x: SectionData, b: seq<SectionData>, y: SectionData)
    requires a + [x] == b + [y]
    ensures a == b && x == y
  {
    assert |a| == |b|;
    assert x == (a + [x])[|a|] == (b + [y])[|b|] == y;
    assert a == (a + [x])[..|a|] == (b + [y])[..|b|] == b;
  }

  /** Equal groups with last elements of the same order: the last elements
      are the same, and the groups of what precedes them agree. */
  lemma InitsAgree(t: seq<SectionData>, x: SectionData, u: seq<SectionData>, y: SectionData)
    requires x.order == y.order && SameGroups(t + [x], u + [y])
    ensures x == y && SameGroups(t, u)
  {
    forall k ensures WithOrder(t, k) == WithOrder(u, k) && (k == x.order ==> x == y)
    {
      WithOrderSnoc(t, x, k);
      WithOrderSnoc(u, y, k);
      assert WithOrder(t + [x], k) == WithOrder(u + [y], k);
      if k == x.order {
        SnocInjective(WithOrder(t, k), x, WithOrder(u, k), y);
      } else {
        assert WithOrder(t + [x], k) == WithOrder(t, k) + [];
        assert WithOrder(u + [y], k) == WithOrder(u, k) + [];
        assert WithOrder(t, k) + [] == WithOrder(t, k);
        assert WithOrder(u, k) + [] == WithOrder(u, k);
      }
    }
    assert WithOrder(t, x.order) == WithOrder(u, x.order);
  }

  /** Every non-empty sequence has a non-empty group: its first element's. */
  lemma FirstGroupNonEmpty(s: seq<SectionData>)
    ensures s != [] ==> WithOrder(s, s[0].order) != []
  {
    if s != [] {
      WithOrderHas(s, 0);
    }
  }

  /** A sorted sequence is determined by its groups: two sorted sequences with
      the same elements of each order, each order's in the same relative
      order, are equal. */
  lemma {:induction false} SortedUnique(t: seq<SectionData>, u: seq<SectionData>)
    requires SortedByOrder(t) && SortedByOrder(u) && SameGroups(t, u)
    decreases |t| + |u|
    ensures t == u
  {
    if t == [] {
      FirstGroupNonEmpty(u);
    } else if u == [] {
      FirstGroupNonEmpty(t);
    } else {
      LastSameOrder(t, u);
      var t', u' := t[..|t| - 1], u[..|u| - 1];
      assert t == t' + [t[|t| - 1]] && u == u' + [u[|u| - 1]];
      InitsAgree(t', t[|t| - 1], u', u[|u| - 1]);
      SortedUnique(t', u');
    }
  }

  /** SortByOrder is the one stable sort by order: any sorted arrangement of s
      that keeps every order's elements in their order in s is SortByOrder(s). */
  lemma StableSortIsSortByOrder(s: seq<SectionData>, t: seq<SectionData>)
    requires SortedByOrder(t)
    requires forall k :: WithOrder(t, k) == WithOrder(s, k)
    ensures t == SortByOrder(s)
  {
    SortByOrderSorted(s);
    forall k ensures WithOrder(t, k) == WithOrder(SortByOrder(s), k)
    {
      SortByOrderStable(s, k);
    }
    SortedUnique(t, SortByOrder(s));
  }

  /** Sections already in order are left as they are. */
  lemma SortedIsFixed(s: seq<SectionData>)
    requires SortedByOrder(s)
    ensures SortByOrder(s) == s
  {
    StableSortIsSortByOrder(s, s);
  }

  /** A section whose order is at least every other's is sorted last,
      after all the others in their sorted arrangement. */
  lemma AppendLargestSortsLast(s: seq<SectionData>, x: SectionData)
    requires forall i :: 0 <= i < |s| ==> s[i].order <= x.order
    ensures SortByOrder(s + [x]) == SortByOrder(s) + [x]
  {
    var r := SortByOrder(s);
    assert r == [] || r[|r| - 1].order <= x.order by {
      if r != [] {
        LastOfSortedIsFromInput(s);
        var m :| 0 <= m < |s| && s[m] == r[|r| - 1];
      }
    }
    InsertAfterLast(x, r);
    SortByOrderSnoc(s, x);
  }

  lemma SortByOrderSnoc(s: seq<SectionData>, x: SectionData)
    ensures SortByOrder(s + [x]) == Insert(x, SortByOrder(s))
  {
    assert (s + [x])[..|s|] == s;
  }

  lemma LastOfSortedIsFromInput(s: seq<SectionData>)
    requires s != []
    ensures SortByOrder(s)[|s| - 1] in s
  {
    SortByOrderSorted(s);
    assert SortByOrder(s)[|s| - 1] in multiset(SortByOrder(s));
  }

  lemma InsertAfterLast(x: SectionData, r: seq<SectionData>)
    requires r == [] || r[|r| - 1].order <= x.order
    ensures Insert(x, r) == r + [x]
  {
  }

  /** `sections.sort((a, b) => a.order - b.order)`, in place: each element in
      turn is moved left into the sorted prefix before it. */
  method SortSections(a: array<SectionData>)
    modifies a
    ensures a[..] == SortByOrder(old(a[..]))
  {
    ghost var s := a[..];
    var i := 0;
    while i < a.Length
      invariant 0 <= i <= a.Length
      invariant a[..i] == SortByOrder(s[..i])
      invariant a[i..] == s[i..]
    {
      ghost var prev := a[..];
      InsertLeft(a, i);
      SortStep(s, i, prev, a[..]);
      i := i + 1;
    }
    assert a[..] == a[..a.Length] && s == s[..a.Length];
  }

  /** One round of the sort's loop: inserting element i extends the sorted prefix by one. */
  lemma SortStep(s: seq<SectionData>, i: nat, prev: seq<SectionData>, next: seq<SectionData>)
    requires i < |s| == |prev| == |next|
    requires prev[..i] == SortByOrder(s[..i]) && prev[i..] == s[i..]
    requires next[..i + 1] == Insert(prev[i], prev[..i]) && next[i + 1..] == prev[i + 1..]
    ensures next[..i + 1] == SortByOrder(s[..i + 1]) && next[i + 1..] == s[i + 1..]
  {
    assert s[..i + 1][..i] == s[..i];
    assert prev[i] == s[i] by {
      assert prev[i..][0] == s[i..][0];
    }
    assert prev[i + 1..] == s[i + 1..] by {
      assert prev[i + 1..] == prev[i..][1..] && s[i + 1..] == s[i..][1..];
    }
  }

  /** One step of the sort: a[i] is swapped leftwards past the elements of
      greater order before it, so elements of equal order never pass each
      other; a[..i + 1] becomes a[i] inserted into a[..i]. */
  method InsertLeft(a: array<SectionData>, i: nat)
    requires i < a.Length
    modifies a
    ensures a[..i + 1] == Insert(old(a[i]), old(a[..i]))
    ensures a[i + 1..] == old(a[i + 1..])
  {
    ghost var sorted := a[..i];
    var x := a[i];
    var j := i;
    while j > 0 && a[j - 1].order > x.order
      invariant 0 <= j <= i
      invariant a[j] == x
      invariant a[..j] + a[j + 1..i + 1] == sorted
      invariant a[i + 1..] == old(a[i + 1..])
      invariant Insert(x, sorted) == Insert(x, a[..j]) + a[j + 1..i + 1]
    {
      ghost var before := a[..];
      a[j - 1], a[j] := a[j], a[j - 1];
      assert a[..] == before[j - 1 := before[j]][j := before[j - 1]];
      SwapStep(before, a[..], i, j, x, sorted);
      j := j - 1;
    }
    assert a[..i + 1] == a[..j] + [x] + a[j + 1..i + 1];
  }

  /** Swapping x with the greater element before it keeps the insertion's invariant. */
  lemma SwapStep(before: seq<SectionData>, after: seq<SectionData>, i: nat, j: nat, x: SectionData, sorted: seq<SectionData>)
    requires 0 < j <= i < |before|
    requires after == before[j - 1 := before[j]][j := before[j - 1]]
    requires before[j] == x && before[j - 1].order > x.order
    requires before[..j] + before[j + 1..i + 1] == sorted
    requires Insert(x, sorted) == Insert(x, before[..j]) + before[j + 1..i + 1]
    ensures after[j - 1] == x
    ensures after[..j - 1] + after[j..i + 1] == sorted
    ensures Insert(x, sorted) == Insert(x, after[..j - 1]) + after[j..i + 1]
    ensures after[i + 1..] == before[i + 1..]
  {
    var y, head, tail := before[j - 1], before[..j - 1], before[j + 1..i + 1];
    SwapSlices(before, after, i, j);
    InsertPastGreater(x, head, y);
    var ins := Insert(x, head);
    assert (ins + [y]) + tail == ins + ([y] + tail);
  }

  /** x is inserted before a last element of greater order. */
  lemma InsertPastGreater(x: SectionData, head: seq<SectionData>, y: SectionData)
    requires y.order > x.order
    ensures Insert(x, head + [y]) == Insert(x, head) + [y]
  {
    assert (head + [y])[..|head|] == head;
  }

  /** How swapping positions j - 1 and j rearranges the slices around them. */
  lemma SwapSlices<T>(before: seq<T>, after: seq<T>, i: nat, j: nat)
    requires 0 < j <= i < |before|
    requires after == before[j - 1 := before[j]][j := before[j - 1]]
    ensures after[j - 1] == before[j] && after[..j - 1] == before[..j - 1]
    ensures after[j..i + 1] == [before[j - 1]] + before[j + 1..i + 1]
    ensures before[..j] == before[..j - 1] + [before[j - 1]]
    ensures after[i + 1..] == before[i + 1..]
  {
    assert after[j + 1..i + 1] == before[j + 1..i + 1];
  }
}
