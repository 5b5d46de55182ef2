/** The in-place sort the views apply to their lists (`Array.prototype.sort`
    with a comparator). The engine's sort is stable, so for a comparator
    that is a total preorder its result is the stable sorted permutation;
    `Sort` below defines that permutation as a stable insertion sort and
    `InsertionSort` computes it in place on an array. */
module StableSort {

  /** Inserts `x` after every element of `s` that the comparator does not
      put after `x` (so equal elements keep their order). */
  function Insert<T>(s: seq<T>, x: T, cmp: (T, T) -> int): (r: seq<T>)
    ensures |r| == |s| + 1
  {
    if s == [] || cmp(s[|s| - 1], x) <= 0 then s + [x]
    else
      assert s == s[..|s| - 1] + [s[|s| - 1]];
      Insert(s[..|s| - 1], x, cmp) + [s[|s| - 1]]
  }

  function Sort<T>(s: seq<T>, cmp: (T, T) -> int): (r: seq<T>)
    ensures |r| == |s|
  {
    if s == [] then []
    else
      assert s == s[..|s| - 1] + [s[|s| - 1]];
      Insert(Sort(s[..|s| - 1], cmp), s[|s| - 1], cmp)
  }

  /** Inserting adds exactly `x` to the elements. */
  lemma {:induction false} InsertPermutes<T>(s: seq<T>, x: T, cmp: (T, T) -> int)
    ensures multiset(Insert(s, x, cmp)) == multiset(s) + multiset{x}
  {
    if s != [] && cmp(s[|s| - 1], x) > 0 {
      var init := s[..|s| - 1];
      InsertPermutes(init, x, cmp);
      assert s == init + [s[|s| - 1]];
    }
  }

  /** Sorting rearranges the elements and neither loses nor adds any. */
  lemma {:induction false} SortPermutes<T>(s: seq<T>, cmp: (T, T) -> int)
    ensures multiset(Sort(s, cmp)) == multiset(s)
  {
    if s != [] {
      var init := s[..|s| - 1];
      SortPermutes(init, cmp);
      InsertPermutes(Sort(init, cmp), s[|s| - 1], cmp);
      assert s == init + [s[|s| - 1]];
    }
  }

  /** The conditions JavaScript puts on a sort comparator: consistent signs
      and a transitive "not after" relation. */
  ghost predicate IsComparator<T(!new)>(cmp: (T, T) -> int)
  {
    && (forall a, b :: cmp(a, b) > 0 <==> cmp(b, a) < 0)
    && (forall a, b, c :: cmp(a, b) <= 0 && cmp(b, c) <= 0 ==> cmp(a, c) <= 0)
  }

  predicate SortedBy<T>(s: seq<T>, cmp: (T, T) -> int)
  {
    forall i, j :: 0 <= i < j < |s| ==> cmp(s[i], s[j]) <= 0
  }

  /** Appending an element no earlier element comes after keeps a list sorted. */
  lemma {:induction false} SortedSnoc<T>(s: seq<T>, y: T, cmp: (T, T) -> int)
    requires SortedBy(s, cmp)
    requires forall i :: 0 <= i < |s| ==> cmp(s[i], y) <= 0
    ensures SortedBy(s + [y], cmp)
  {
  }

  /** In a sorted list every element is "not after" the last one. */
  lemma {:induction false} SortedLast<T(!new)>(s: seq<T>, cmp: (T, T) -> int)
    requires IsComparator(cmp) && SortedBy(s, cmp) && s != []
    ensures forall i :: 0 <= i < |s| ==> cmp(s[i], s[|s| - 1]) <= 0
  {
    var last := s[|s| - 1];
    assert !(cmp(last, last) > 0);
  }

  /** Every element of an insertion is the inserted one or an old one. */
  lemma {:induction false} InsertElements<T>(s: seq<T>, x: T, cmp: (T, T) -> int)
    ensures forall i :: 0 <= i < |Insert(s, x, cmp)| ==> Insert(s, x, cmp)[i] == x || Insert(s, x, cmp)[i] in s
  {
    if s != [] && cmp(s[|s| - 1], x) > 0 {
      InsertElements(s[..|s| - 1], x, cmp);
    }
  }

  lemma {:induction false} InsertSorted<T(!new)>(s: seq<T>, x: T, cmp: (T, T) -> int)
    requires IsComparator(cmp) && SortedBy(s, cmp)
    ensures SortedBy(Insert(s, x, cmp), cmp)
  {
    if s == [] {
    } else if cmp(s[|s| - 1], x) <= 0 {
      SortedLast(s, cmp);
      SortedSnoc(s, x, cmp);
    } else {
      var init, last := s[..|s| - 1], s[|s| - 1];
      assert SortedBy(init, cmp);
      InsertSorted(init, x, cmp);
      var r := Insert(init, x, cmp);
      InsertElements(init, x, cmp);
      SortedLast(s, cmp);
      assert cmp(x, last) < 0;
      forall i | 0 <= i < |r| ensures cmp(r[i], last) <= 0 {
        if r[i] != x {
          var k :| 0 <= k < |init| && init[k] == r[i];
          assert s[k] == r[i];
        }
      }
      SortedSnoc(r, last, cmp);
    }
  }

  /** The sorted permutation is sorted. */
  lemma {:induction false} SortIsSorted<T(!new)>(s: seq<T>, cmp: (T, T) -> int)
    requires IsComparator(cmp)
    ensures SortedBy(Sort(s, cmp), cmp)
  {
    if s != [] {
      SortIsSorted(s[..|s| - 1], cmp);
      InsertSorted(Sort(s[..|s| - 1], cmp), s[|s| - 1], cmp);
    }
  }

  /** A list that is already in order is left exactly as it is: sorting is
      stable and idempotent. */
  lemma {:induction false} SortOfSorted<T>(s: seq<T>, cmp: (T, T) -> int)
    requires SortedBy(s, cmp)
    ensures Sort(s, cmp) == s
  {
    if s != [] {
      var init := s[..|s| - 1];
      assert SortedBy(init, cmp);
      SortOfSorted(init, cmp);
      assert s == init + [s[|s| - 1]];
      InsertStop(init, |init|, s[|s| - 1], cmp);
      assert init[..|init|] == init;
    }
  }

  /** Sorting a sorted list changes nothing. */
  lemma {:induction false} SortIdempotent<T(!new)>(s: seq<T>, cmp: (T, T) -> int)
    requires IsComparator(cmp)
    ensures Sort(Sort(s, cmp), cmp) == Sort(s, cmp)
  {
    SortIsSorted(s, cmp);
    SortOfSorted(Sort(s, cmp), cmp);
  }

  /** Where the insertion lands: after the first `j` elements when the one
      before position `j` does not come after `x` and every element from
      `j` on does. */
  lemma {:induction false} InsertLands<T>(done: seq<T>, j: int, x: T, cmp: (T, T) -> int)
    requires 0 <= j <= |done| && (j == 0 || cmp(done[j - 1], x) <= 0)
    requires forall k :: j <= k < |done| ==> cmp(done[k], x) > 0
    ensures Insert(done, x, cmp) == done[..j] + [x] + done[j..]
    decreases |done|
  {
    if j == |done| {
      assert done[..j] == done && done[j..] == [];
    } else {
      var init, last := done[..|done| - 1], done[|done| - 1];
      assert cmp(last, x) > 0;
      assert Insert(done, x, cmp) == Insert(init, x, cmp) + [last];
      assert j == 0 || init[j - 1] == done[j - 1];
      forall k | j <= k < |init|
        ensures cmp(init[k], x) > 0
      {
        assert init[k] == done[k];
      }
      InsertLands(init, j, x, cmp);
      assert init[..j] == done[..j];
      assert done[j..] == init[j..] + [last];
    }
  }

  /** The scan stops where nothing before the hole comes after `x`. */
  lemma {:induction false} InsertStop<T>(done: seq<T>, j: int, x: T, cmp: (T, T) -> int)
    requires 0 <= j <= |done| && (j == 0 || cmp(done[j - 1], x) <= 0)
    ensures Insert(done[..j], x, cmp) == done[..j] + [x]
  {
  }

  /** Sorting one more element of the input inserts it into the sorted prefix. */
  lemma {:induction false} SortPrefix<T>(s: seq<T>, i: int, cmp: (T, T) -> int)
    requires 0 <= i < |s|
    ensures Sort(s[..i + 1], cmp) == Insert(Sort(s[..i], cmp), s[i], cmp)
  {
    assert s[..i + 1][..i] == s[..i];
  }

  /** A list that agrees with `done` before position `j`, holds `x` at `j`
      and agrees with `done` shifted by one after it is `done` with `x`
      put in at `j`. */
  lemma {:induction false} Assemble<T>(t: seq<T>, done: seq<T>, j: int, x: T)
    requires 0 <= j <= |done| && |t| == |done| + 1
    requires forall k :: 0 <= k < j ==> t[k] == done[k]
    requires t[j] == x
    requires forall k :: j < k < |t| ==> t[k] == done[k - 1]
    ensures t == done[..j] + [x] + done[j..]
  {
    var r := done[..j] + [x] + done[j..];
    forall k | 0 <= k < |t|
      ensures t[k] == r[k]
    {
      if k < j {
        assert r[k] == done[..j][k];
      } else if k > j {
        assert r[k] == done[j..][k - j - 1];
      }
    }
  }

  /** Moves `a[i]` back past every element of `a[..i]` that comes after it:
      the prefix `a[..i + 1]` becomes `Insert(a[..i], a[i])`, the rest of
      the array is left alone. */
  method InsertAt<T>(a: array<T>, i: int, cmp: (T, T) -> int)
    requires 0 <= i < a.Length
    modifies a
    ensures a[..i + 1] == Insert(old(a[..i]), old(a[i]), cmp)
    ensures forall k :: i < k < a.Length ==> a[k] == old(a[k])
  {
    var x := a[i];
    ghost var done := a[..i];
    var j := i;
    while j > 0 && cmp(a[j - 1], x) > 0
      invariant 0 <= j <= i
      invariant forall k :: 0 <= k < j ==> a[k] == done[k]
      invariant forall k :: j < k <= i ==> a[k] == done[k - 1]
      invariant forall k :: i < k < a.Length ==> a[k] == old(a[k])
      invariant forall k :: j <= k < i ==> cmp(done[k], x) > 0
    {
      a[j] := a[j - 1];
      j := j - 1;
    }
    InsertLands(done, j, x, cmp);
    a[j] := x;
    Assemble(a[..i + 1], done, j, x);
  }

  /** Stable insertion sort in place: the array ends up holding `Sort` of
      what it held. */
  method InsertionSort<T>(a: array<T>, cmp: (T, T) -> int)
    modifies a
    ensures a[..] == Sort(old(a[..]), cmp)
  {
    ghost var s0 := a[..];
    var i := 0;
    while i < a.Length
      invariant 0 <= i <= a.Length
      invariant a[..i] == Sort(s0[..i], cmp)
      invariant forall k :: i <= k < a.Length ==> a[k] == s0[k]
    {
      InsertAt(a, i, cmp);
      SortPrefix(s0, i, cmp);
      i := i + 1;
    }
    assert a[..] == a[..a.Length];
    assert s0 == s0[..a.Length];
  }
}
