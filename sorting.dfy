/**
 * Stable insertion by key, the ordering discipline shared by the obstacle-neighbour
 * list of the RVO world (a new entry is shifted left past strictly larger keys only)
 * and the neighbour sort of the integer RVO sampler.
 *
 * Entries are (key, payload) pairs; keys are reals (integer keys are embedded exactly).
 */
module StableInsertion {

  /** Non-decreasing by key. */
  ghost predicate Sorted<T>(s: seq<(real, T)>) {
    forall i, j :: 0 <= i < j < |s| ==> s[i].0 <= s[j].0
  }

  /**
   * The list after inserting `x`: `x` is moved left past every trailing entry whose key
   * is strictly larger, so it lands after all entries with an equal key.
   */
  function InsertSorted<T>(s: seq<(real, T)>, x: (real, T)): seq<(real, T)>
  {
    if |s| == 0 then [x]
    else if x.0 < s[|s|-1].0 then InsertSorted(s[..|s|-1], x) + [s[|s|-1]]
    else s + [x]
  }

  /** Insertion sort: each element in turn is inserted into the sorted prefix before it. */
  function InsSort<T>(s: seq<(real, T)>): seq<(real, T)>
  {
    if |s| == 0 then [] else InsertSorted(InsSort(s[..|s|-1]), s[|s|-1])
  }

  /** The first `n` entries, or all of them when there are fewer (List.RemoveRange(n, ...)). */
  function Take<T>(s: seq<T>, n: nat): (r: seq<T>)
    ensures |r| == if |s| > n then n else |s|
    ensures r == s[..|r|]
  {
    if |s| > n then s[..n] else s
  }

  /**
   * The insertion position is the one the shifting loop stops at: after the last entry
   * whose key is not larger than x's, before every strictly larger one.
   */
  lemma {:induction false} InsertAt<T>(s: seq<(real, T)>, x: (real, T), i: nat)
    requires i <= |s|
    requires i == 0 || s[i-1].0 <= x.0
    requires forall j :: i <= j < |s| ==> x.0 < s[j].0
    ensures InsertSorted(s, x) == s[..i] + [x] + s[i..]
  {
    if |s| == 0 {
    } else if i == |s| {
      assert s[..i] == s && s[i..] == [];
    } else {
      var p := s[..|s|-1];
      assert x.0 < s[|s|-1].0;
      assert p[..i] == s[..i];
      if i > 0 {
        assert p[i-1] == s[i-1];
      }
      InsertAt(p, x, i);
      assert s[i..] == p[i..] + [s[|s|-1]];
    }
  }

  /**
   * One shift of the insertion loop: with the list equal to `s` before the hole at `i`
   * and shifted by one after it, copying entry i - 1 into the hole moves the hole left.
   */
  lemma ShiftStep<T>(s: seq<(real, T)>, a: seq<(real, T)>, i: nat)
    requires 0 < i <= |s| && |a| == |s| + 1 && a[..i] == s[..i] && a[i+1..] == s[i..]
    ensures a[i - 1] == s[i - 1]
    ensures a[i := a[i - 1]][..i - 1] == s[..i - 1] && a[i := a[i - 1]][i..] == s[i - 1..]
  {
    assert a[i - 1] == a[..i][i - 1];
    var b := a[i := a[i - 1]];
    assert b[..i - 1] == a[..i][..i - 1];
    assert b[i..] == [s[i - 1]] + s[i..];
  }

  /** Filling the hole at `i` with `x` leaves the list with `x` inserted at `i`. */
  lemma FillHole<T>(s: seq<(real, T)>, a: seq<(real, T)>, i: nat, x: (real, T))
    requires i <= |s| && |a| == |s| + 1 && a[..i] == s[..i] && a[i+1..] == s[i..]
    ensures a[i := x] == s[..i] + [x] + s[i..]
  {
    var b := a[i := x];
    assert b[..i] == a[..i] && b[i+1..] == a[i+1..];
    assert b == b[..i] + [b[i]] + b[i+1..];
  }

  /**
   * The in-place insertion loop shared by the obstacle-neighbour list and the neighbour
   * sort: `x` is appended, then moved left while the entry before it has a strictly
   * larger key.
   */
  method Insert<T>(s: seq<(real, T)>, x: (real, T)) returns (a: seq<(real, T)>)
    ensures a == InsertSorted(s, x)
  {
    a := s + [x];
    var i := |s|;
    while i != 0 && x.0 < a[i - 1].0
      invariant 0 <= i <= |s| && |a| == |s| + 1
      invariant a[..i] == s[..i] && a[i+1..] == s[i..]
      invariant forall j :: i <= j < |s| ==> x.0 < s[j].0
      decreases i
    {
      ShiftStep(s, a, i);
      a := a[i := a[i - 1]];
      i := i - 1;
    }
    FillHole(s, a, i, x);
    a := a[i := x];
    InsertAt(s, x, i);
  }

  /**
   * One round of an insertion sort over the list c: with the first i entries sorted and
   * the rest untouched, inserting entry i extends the sorted prefix by one.
   */
  lemma SortStep<T>(c: seq<(real, T)>, t: seq<(real, T)>, i: nat, p: seq<(real, T)>)
    requires 0 < i < |c| && |t| == |c| && t[..i] == InsSort(c[..i]) && t[i..] == c[i..]
    requires p == InsertSorted(t[..i], t[i])
    ensures t[i] == c[i] && |p + t[i+1..]| == |c|
    ensures (p + t[i+1..])[..i+1] == InsSort(c[..i+1]) && (p + t[i+1..])[i+1..] == c[i+1..]
  {
    assert t[i] == t[i..][0] == c[i..][0] == c[i];
    InsertSortedMultiset(t[..i], t[i]);
    InsSortSortedPermutation(c[..i]);
    assert c[..i+1][..i] == c[..i];
    assert |p| == i + 1;
    assert (p + t[i+1..])[..i+1] == p;
    assert t[i+1..] == t[i..][1..] == c[i..][1..] == c[i+1..];
  }

  /** Inserting adds exactly `x` to the multiset of entries. */
  lemma {:induction false} InsertSortedMultiset<T>(s: seq<(real, T)>, x: (real, T))
    ensures multiset(InsertSorted(s, x)) == multiset(s) + multiset{x}
    ensures |InsertSorted(s, x)| == |s| + 1
  {
    if |s| == 0 {
    } else if x.0 < s[|s|-1].0 {
      var p := s[..|s|-1];
      InsertSortedMultiset(p, x);
      assert s == p + [s[|s|-1]];
    }
  }

  /** Inserting into a sorted list keeps it sorted. */
  lemma {:induction false} InsertSortedSorted<T>(s: seq<(real, T)>, x: (real, T))
    requires Sorted(s)
    ensures Sorted(InsertSorted(s, x))
  {
    if |s| == 0 {
    } else if x.0 < s[|s|-1].0 {
      var p := s[..|s|-1];
      var last := s[|s|-1];
      InsertSortedSorted(p, x);
      var q := InsertSorted(p, x);
      InsertSortedMultiset(p, x);
      forall j | 0 <= j < |q|
        ensures q[j].0 <= last.0
      {
        assert q[j] in multiset(q);
        assert q[j] in multiset(p) + multiset{x};
        if q[j] != x {
          assert q[j] in p;
        }
      }
    }
  }

  /** Insertion sort yields a sorted permutation of its input. */
  lemma {:induction false} InsSortSortedPermutation<T>(s: seq<(real, T)>)
    ensures Sorted(InsSort(s))
    ensures multiset(InsSort(s)) == multiset(s)
    ensures |InsSort(s)| == |s|
  {
    if |s| > 0 {
      var p := s[..|s|-1];
      InsSortSortedPermutation(p);
      InsertSortedSorted(InsSort(p), s[|s|-1]);
      InsertSortedMultiset(InsSort(p), s[|s|-1]);
      assert s == p + [s[|s|-1]];
    }
  }

  /** Inserting a key no smaller than every key present appends it (equal keys stay in order). */
  lemma InsertSortedAppends<T>(s: seq<(real, T)>, x: (real, T))
    requires |s| > 0 ==> s[|s|-1].0 <= x.0
    ensures InsertSorted(s, x) == s + [x]
  {}

  /** Insertion sort leaves an already sorted list as it is: sorting is idempotent. */
  lemma {:induction false} InsSortOfSorted<T>(s: seq<(real, T)>)
    requires Sorted(s)
    ensures InsSort(s) == s
  {
    if |s| > 0 {
      var p := s[..|s|-1];
      assert Sorted(p);
      InsSortOfSorted(p);
      InsertSortedAppends(p, s[|s|-1]);
      assert s == p + [s[|s|-1]];
    }
  }

  lemma InsSortIdempotent<T>(s: seq<(real, T)>)
    ensures InsSort(InsSort(s)) == InsSort(s)
  {
    InsSortSortedPermutation(s);
    InsSortOfSorted(InsSort(s));
  }
}
