/**
 * Sequence vocabulary shared by the list-shaped state of the model: distinctness,
 * deleting an element (List.Remove / RemoveAt of a unique element), deleting a set of
 * elements, and pushing onto a stack that silently drops pushes beyond its capacity.
 */
module Seqs {

  ghost predicate Distinct<T>(s: seq<T>) {
    forall i, j :: 0 <= i < j < |s| ==> s[i] != s[j]
  }

  ghost predicate Disjoint<T>(a: seq<T>, b: seq<T>) {
    forall i, j :: 0 <= i < |a| && 0 <= j < |b| ==> a[i] != b[j]
  }

  /** The elements of `s`, as a set. */
  ghost function Elems<T>(s: seq<T>): set<T> {
    set x | x in s
  }

  /** `s` with every occurrence of `x` deleted, the rest in order. */
  function Without<T(==)>(s: seq<T>, x: T): seq<T>
  {
    if |s| == 0 then []
    else Without(s[..|s|-1], x) + (if s[|s|-1] == x then [] else [s[|s|-1]])
  }

  /** `s` with every element of `d` deleted, the rest in order. */
  function FilterOut<T(==)>(s: seq<T>, d: set<T>): seq<T>
  {
    if |s| == 0 then []
    else FilterOut(s[..|s|-1], d) + (if s[|s|-1] in d then [] else [s[|s|-1]])
  }

  /** The elements of `s` that belong to `d`, in order. */
  function Select<T(==)>(s: seq<T>, d: set<T>): seq<T>
  {
    if |s| == 0 then []
    else Select(s[..|s|-1], d) + (if s[|s|-1] in d then [s[|s|-1]] else [])
  }

  /** One push onto a stack that accepts it only while it holds fewer than `cap` entries. */
  function Push<T>(pool: seq<T>, x: T, cap: nat): seq<T>
  {
    if |pool| < cap then pool + [x] else pool
  }

  /** The pushes of `xs`, in order, onto a capacity-bounded stack. */
  function PushAll<T>(pool: seq<T>, xs: seq<T>, cap: nat): (r: seq<T>)
  {
    if |xs| == 0 then pool else Push(PushAll(pool, xs[..|xs|-1], cap), xs[|xs|-1], cap)
  }

  /** Deleting the element at its unique position is deleting it everywhere. */
  lemma {:induction false} WithoutAt<T>(s: seq<T>, i: nat)
    requires i < |s| && Distinct(s)
    ensures Without(s, s[i]) == s[..i] + s[i+1..]
  {
    if i == |s| - 1 {
      WithoutAbsent(s[..i], s[i]);
      assert s[..|s|-1] == s[..i];
    } else {
      var p := s[..|s|-1];
      assert p[i] == s[i];
      WithoutAt(p, i);
      assert p[..i] == s[..i];
      assert s[i+1..] == p[i+1..] + [s[|s|-1]];
    }
  }

  lemma {:induction false} WithoutAbsent<T>(s: seq<T>, x: T)
    requires x !in s
    ensures Without(s, x) == s
  {
    if |s| > 0 {
      WithoutAbsent(s[..|s|-1], x);
      assert s == s[..|s|-1] + [s[|s|-1]];
    }
  }

  lemma {:induction false} WithoutFilterOut<T>(s: seq<T>, d: set<T>, x: T)
    ensures Without(FilterOut(s, d), x) == FilterOut(s, d + {x})
  {
    if |s| > 0 {
      var p := s[..|s|-1];
      WithoutFilterOut(p, d, x);
      WithoutAppend(FilterOut(p, d), if s[|s|-1] in d then [] else [s[|s|-1]], x);
    }
  }

  lemma {:induction false} WithoutAppend<T>(a: seq<T>, b: seq<T>, x: T)
    requires |b| <= 1
    ensures Without(a + b, x) == Without(a, x) + Without(b, x)
  {
    if |b| == 1 {
      assert (a + b)[..|a + b|-1] == a;
      assert Without(b, x) == (if b[0] == x then [] else [b[0]]) by {
        assert b[..0] == [];
      }
    } else {
      assert a + b == a;
    }
  }

  lemma {:induction false} FilterOutMembers<T>(s: seq<T>, d: set<T>)
    ensures forall y :: y in FilterOut(s, d) ==> y in s && y !in d
    ensures forall y :: y in s && y !in d ==> y in FilterOut(s, d)
  {
    if |s| > 0 {
      FilterOutMembers(s[..|s|-1], d);
      assert s == s[..|s|-1] + [s[|s|-1]];
    }
  }

  lemma {:induction false} WithoutMembers<T>(s: seq<T>, x: T)
    ensures forall y :: y in Without(s, x) ==> y in s && y != x
    ensures forall y :: y in s && y != x ==> y in Without(s, x)
  {
    if |s| > 0 {
      WithoutMembers(s[..|s|-1], x);
      assert s == s[..|s|-1] + [s[|s|-1]];
    }
  }

  lemma {:induction false} WithoutDistinct<T>(s: seq<T>, x: T)
    requires Distinct(s)
    ensures Distinct(Without(s, x))
  {
    if |s| > 0 {
      var p := s[..|s|-1];
      WithoutDistinct(p, x);
      WithoutMembers(p, x);
      var last := s[|s|-1];
      assert last !in p by {
        forall k | 0 <= k < |p| ensures p[k] != last {
          assert p[k] == s[k];
        }
      }
      var w := Without(p, x);
      assert last !in w;
      if last != x {
        assert Without(s, x) == w + [last];
        forall i, j | 0 <= i < j < |w + [last]| ensures (w + [last])[i] != (w + [last])[j] {
          if j == |w| {
            assert (w + [last])[i] == w[i];
          }
        }
      }
    }
  }

  /** Every element of the result was in the stack or was pushed; the rest were dropped. */
  lemma {:induction false} PushAllMembers<T>(pool: seq<T>, xs: seq<T>, cap: nat)
    ensures forall y :: y in PushAll(pool, xs, cap) ==> y in pool || y in xs
    ensures |pool| <= cap ==> |PushAll(pool, xs, cap)| <= cap
    ensures |PushAll(pool, xs, cap)| >= |pool|
    ensures PushAll(pool, xs, cap)[..|pool|] == pool
  {
    if |xs| > 0 {
      PushAllMembers(pool, xs[..|xs|-1], cap);
    }
  }

  /** Pushing distinct new elements onto a stack of distinct elements keeps it distinct. */
  lemma {:induction false} PushAllDistinct<T>(pool: seq<T>, xs: seq<T>, cap: nat)
    requires Distinct(pool) && Distinct(xs) && Disjoint(pool, xs)
    ensures Distinct(PushAll(pool, xs, cap))
  {
    if |xs| > 0 {
      var p := xs[..|xs|-1];
      PushAllDistinct(pool, p, cap);
      PushAllMembers(pool, p, cap);
      var r := PushAll(pool, p, cap);
      var last := xs[|xs|-1];
      assert last !in pool;
      assert last !in p by {
        forall k | 0 <= k < |p| ensures p[k] != last {
          assert p[k] == xs[k];
        }
      }
      assert last !in r;
      if |r| < cap {
        forall i, j | 0 <= i < j < |r + [last]| ensures (r + [last])[i] != (r + [last])[j] {
          if j == |r| {
            assert (r + [last])[i] == r[i];
          }
        }
      }
    }
  }

  lemma {:induction false} SelectMembers<T>(s: seq<T>, d: set<T>)
    ensures forall y :: y in Select(s, d) ==> y in s && y in d
    ensures forall y :: y in s && y in d ==> y in Select(s, d)
  {
    if |s| > 0 {
      SelectMembers(s[..|s|-1], d);
      assert s == s[..|s|-1] + [s[|s|-1]];
    }
  }

  lemma DistinctAppend<T>(s: seq<T>, x: T)
    requires Distinct(s) && x !in s
    ensures Distinct(s + [x])
  {
    forall i, j | 0 <= i < j < |s + [x]| ensures (s + [x])[i] != (s + [x])[j] {
      if j == |s| {
        assert (s + [x])[i] == s[i];
      }
    }
  }

  lemma {:induction false} FilterOutDistinct<T>(s: seq<T>, d: set<T>)
    requires Distinct(s)
    ensures Distinct(FilterOut(s, d)) && Distinct(Select(s, d))
  {
    if |s| > 0 {
      var p := s[..|s|-1];
      var last := s[|s|-1];
      FilterOutDistinct(p, d);
      FilterOutMembers(p, d);
      SelectMembers(p, d);
      assert last !in p by {
        forall k | 0 <= k < |p| ensures p[k] != last {
          assert p[k] == s[k];
        }
      }
      if last in d {
        DistinctAppend(Select(p, d), last);
      } else {
        DistinctAppend(FilterOut(p, d), last);
      }
    }
  }

  /** One more element of `s` is either filtered out (and selected) or kept. */
  lemma FilterOutSelectStep<T>(s: seq<T>, k: nat, d: set<T>)
    requires k < |s|
    ensures FilterOut(s[..k+1], d) == FilterOut(s[..k], d) + (if s[k] in d then [] else [s[k]])
    ensures Select(s[..k+1], d) == Select(s[..k], d) + (if s[k] in d then [s[k]] else [])
  {
    assert s[..k+1][..k] == s[..k];
  }

  lemma PushAllStep<T>(pool: seq<T>, xs: seq<T>, x: T, cap: nat)
    ensures PushAll(pool, xs + [x], cap) == Push(PushAll(pool, xs, cap), x, cap)
  {
    assert (xs + [x])[..|xs|] == xs;
  }

  /**
   * One more step along a distinct sequence: the element was not among those already
   * walked, the walked elements grow by it, and the pool receives it.
   */
  lemma PrefixStep<T>(pool: seq<T>, xs: seq<T>, j: nat, cap: nat)
    requires Distinct(xs) && j < |xs|
    ensures xs[j] !in Elems(xs[..j])
    ensures Elems(xs[..j+1]) == Elems(xs[..j]) + {xs[j]}
    ensures PushAll(pool, xs[..j+1], cap) == Push(PushAll(pool, xs[..j], cap), xs[j], cap)
  {
    assert xs[..j+1] == xs[..j] + [xs[j]];
    PushAllStep(pool, xs[..j], xs[j], cap);
    forall m | 0 <= m < j ensures xs[..j][m] != xs[j] {}
  }

  /**
   * Sweeping the elements `hit` out of one store onto a bounded pool keeps every store
   * distinct and the three of them pairwise disjoint.
   */
  lemma SweepKeepsStore<T>(s: seq<T>, other: seq<T>, pool: seq<T>, hit: set<T>, cap: nat)
    requires Distinct(s) && Distinct(other) && Distinct(pool) && |pool| <= cap
    requires Disjoint(s, other) && Disjoint(s, pool) && Disjoint(other, pool)
    ensures var kept, pool' := FilterOut(s, hit), PushAll(pool, Select(s, hit), cap);
      Distinct(kept) && Distinct(pool') && |pool'| <= cap &&
      Disjoint(kept, other) && Disjoint(kept, pool') && Disjoint(other, pool')
  {
    var kept, gone := FilterOut(s, hit), Select(s, hit);
    var pool' := PushAll(pool, gone, cap);
    FilterOutDistinct(s, hit);
    FilterOutMembers(s, hit);
    SelectMembers(s, hit);
    PushAllMembers(pool, gone, cap);
    forall i, j | 0 <= i < |pool| && 0 <= j < |gone| ensures pool[i] != gone[j] {
      assert gone[j] in gone;
      var k :| 0 <= k < |s| && s[k] == gone[j];
    }
    PushAllDistinct(pool, gone, cap);
    forall i, j | 0 <= i < |kept| && 0 <= j < |other| ensures kept[i] != other[j] {
      assert kept[i] in kept;
    }
    forall i, j | 0 <= i < |kept| && 0 <= j < |pool'| ensures kept[i] != pool'[j] {
      assert kept[i] in kept && pool'[j] in pool';
      if pool'[j] in pool {
        var k :| 0 <= k < |s| && s[k] == kept[i];
        var m :| 0 <= m < |pool| && pool[m] == pool'[j];
      } else {
        assert pool'[j] in gone;
      }
    }
    forall i, j | 0 <= i < |other| && 0 <= j < |pool'| ensures other[i] != pool'[j] {
      assert pool'[j] in pool';
      if pool'[j] in pool {
        var m :| 0 <= m < |pool| && pool[m] == pool'[j];
      } else {
        var k :| 0 <= k < |s| && s[k] == pool'[j];
      }
    }
  }

  /** Nothing is selected exactly when no element of `s` is in `d`. */
  lemma {:induction false} SelectEmpty<T>(s: seq<T>, d: set<T>)
    ensures Select(s, d) == [] <==> forall y :: y in s ==> y !in d
  {
    SelectMembers(s, d);
    if Select(s, d) != [] {
      assert Select(s, d)[0] in Select(s, d);
    }
  }

  /** Filtering out a set that meets no element of `s` leaves `s` as it is. */
  lemma {:induction false} FilterOutNone<T>(s: seq<T>, d: set<T>)
    requires forall y :: y in s ==> y !in d
    ensures FilterOut(s, d) == s && Select(s, d) == []
  {
    if |s| > 0 {
      FilterOutNone(s[..|s|-1], d);
      assert s[|s|-1] in s;
      assert s == s[..|s|-1] + [s[|s|-1]];
    }
  }

  /**
   * A sweep position in `c == kept + rest`: the next element sits right after the kept
   * prefix, and either deleting it or stepping past it leaves the same shape.
   */
  lemma SweepSplit<T>(c: seq<T>, kept: seq<T>, rest: seq<T>)
    requires c == kept + rest && |rest| > 0
    ensures c[|kept|] == rest[0]
    ensures c[..|kept|] + c[|kept|+1..] == kept + rest[1..]
    ensures c == (kept + [rest[0]]) + rest[1..]
  {
    assert c[..|kept|] == kept;
    assert c[|kept|+1..] == rest[1..];
  }

  /**
   * One step of an in-place sweep of `s0` that deletes the elements of `d` onto a pool:
   * with the first `k` elements swept, the cursor `i` sits on s0[k]; deleting and pushing
   * it when it belongs to `d`, or stepping over it otherwise, sweeps k + 1 elements.
   */
  lemma SweepStep<T>(s0: seq<T>, k: nat, d: set<T>, c: seq<T>, i: nat, pool: seq<T>, cap: nat)
    requires k < |s0| && i == |FilterOut(s0[..k], d)| && c == FilterOut(s0[..k], d) + s0[k..]
    ensures i < |c| && c[i] == s0[k]
    ensures s0[k] in d ==>
              c[..i] + c[i+1..] == FilterOut(s0[..k+1], d) + s0[k+1..] &&
              i == |FilterOut(s0[..k+1], d)| && Select(s0[..k+1], d) != [] &&
              PushAll(pool, Select(s0[..k+1], d), cap) == Push(PushAll(pool, Select(s0[..k], d), cap), s0[k], cap)
    ensures s0[k] !in d ==>
              c == FilterOut(s0[..k+1], d) + s0[k+1..] &&
              i + 1 == |FilterOut(s0[..k+1], d)| && Select(s0[..k+1], d) == Select(s0[..k], d)
  {
    FilterOutSelectStep(s0, k, d);
    SweepSplit(c, FilterOut(s0[..k], d), s0[k..]);
    assert s0[k..][0] == s0[k] && s0[k..][1..] == s0[k+1..];
    if s0[k] in d {
      PushAllStep(pool, Select(s0[..k], d), s0[k], cap);
    }
  }

  /** The same step for an in-place sweep that deletes every occurrence of `x`. */
  lemma WithoutStep<T>(s0: seq<T>, k: nat, x: T, c: seq<T>, i: nat)
    requires k < |s0| && i == |Without(s0[..k], x)| && c == Without(s0[..k], x) + s0[k..]
    ensures i < |c| && c[i] == s0[k]
    ensures s0[k] == x ==> c[..i] + c[i+1..] == Without(s0[..k+1], x) + s0[k+1..] && i == |Without(s0[..k+1], x)|
    ensures s0[k] != x ==> c == Without(s0[..k+1], x) + s0[k+1..] && i + 1 == |Without(s0[..k+1], x)|
  {
    assert s0[..k+1][..k] == s0[..k];
    SweepSplit(c, Without(s0[..k], x), s0[k..]);
    assert s0[k..][0] == s0[k] && s0[k..][1..] == s0[k+1..];
  }

  /** An element neither in the stack nor pushed is not in the result. */
  lemma {:induction false} PushAllAbsent<T>(pool: seq<T>, xs: seq<T>, x: T, cap: nat)
    requires x !in pool && x !in xs
    ensures x !in PushAll(pool, xs, cap)
  {
    if |xs| > 0 {
      var p := xs[..|xs|-1];
      assert x !in p by {
        forall m | 0 <= m < |p| ensures p[m] != x {
          assert p[m] == xs[m];
        }
      }
      PushAllAbsent(pool, p, x, cap);
    }
  }

  /** A distinct sequence has as many elements as its set of elements. */
  lemma {:induction false} DistinctCardinality<T>(s: seq<T>)
    requires Distinct(s)
    ensures |Elems(s)| == |s|
  {
    if |s| > 0 {
      var p := s[..|s|-1];
      var last := s[|s|-1];
      assert Distinct(p);
      DistinctCardinality(p);
      assert last !in Elems(p) by {
        forall k | 0 <= k < |p| ensures p[k] != last {
          assert p[k] == s[k];
        }
      }
      assert s == p + [last];
      assert Elems(s) == Elems(p) + {last};
    }
  }

  /**
   * The elements of s at the positions keep marks, in order: what List.RemoveAll leaves
   * of a list (keep marks the survivors), or what a filtering loop collects.
   */
  function Kept<T>(s: seq<T>, keep: seq<bool>): (r: seq<T>)
    requires |keep| == |s|
    ensures |r| <= |s|
  {
    if |s| == 0 then []
    else Kept(s[..|s|-1], keep[..|s|-1]) + (if keep[|s|-1] then [s[|s|-1]] else [])
  }

  /** An element survives exactly when it sits at some marked position. */
  lemma {:induction false} KeptMembers<T>(s: seq<T>, keep: seq<bool>)
    requires |keep| == |s|
    ensures forall y :: y in Kept(s, keep) ==> exists k :: 0 <= k < |s| && keep[k] && s[k] == y
    ensures forall k :: 0 <= k < |s| && keep[k] ==> s[k] in Kept(s, keep)
  {
    if |s| > 0 {
      var n := |s| - 1;
      KeptMembers(s[..n], keep[..n]);
      forall y | y in Kept(s, keep)
        ensures exists k :: 0 <= k < |s| && keep[k] && s[k] == y
      {
        if y in Kept(s[..n], keep[..n]) {
          var k :| 0 <= k < |s[..n]| && keep[..n][k] && s[..n][k] == y;
          assert keep[k] && s[k] == y;
        } else {
          assert keep[n] && s[n] == y;
        }
      }
      forall k | 0 <= k < |s| && keep[k]
        ensures s[k] in Kept(s, keep)
      {
        if k < n {
          assert keep[..n][k] && s[..n][k] == s[k];
        }
      }
    }
  }

  /** Filtering works piecewise: the survivors of a + b are those of a followed by those of b. */
  lemma {:induction false} KeptAppend<T>(a: seq<T>, ka: seq<bool>, b: seq<T>, kb: seq<bool>)
    requires |ka| == |a| && |kb| == |b|
    ensures Kept(a + b, ka + kb) == Kept(a, ka) + Kept(b, kb)
  {
    if |b| > 0 {
      var n := |b| - 1;
      KeptAppend(a, ka, b[..n], kb[..n]);
      assert (a + b)[..|a + b| - 1] == a + b[..n];
      assert (ka + kb)[..|a + b| - 1] == ka + kb[..n];
    } else {
      assert a + b == a && ka + kb == ka;
    }
  }

  /** One round of a filtering loop: entry k is appended when it is marked. */
  lemma KeptStep<T>(s: seq<T>, keep: seq<bool>, k: nat)
    requires |keep| == |s| && k < |s|
    ensures Kept(s[..k+1], keep[..k+1]) == Kept(s[..k], keep[..k]) + (if keep[k] then [s[k]] else [])
  {
    assert s[..k+1][..k] == s[..k] && keep[..k+1][..k] == keep[..k];
  }

  /** Removing entries keeps a list free of duplicates. */
  lemma {:induction false} KeptDistinct<T>(s: seq<T>, keep: seq<bool>)
    requires |keep| == |s| && Distinct(s)
    ensures Distinct(Kept(s, keep))
  {
    if |s| > 0 {
      var n := |s| - 1;
      var p := s[..n];
      assert Distinct(p);
      KeptDistinct(p, keep[..n]);
      KeptMembers(p, keep[..n]);
      var w := Kept(p, keep[..n]);
      assert s[n] !in w;
      if keep[n] {
        forall i, j | 0 <= i < j < |w + [s[n]]| ensures (w + [s[n]])[i] != (w + [s[n]])[j] {
          if j == |w| {
            assert (w + [s[n]])[i] == w[i];
          }
        }
      }
    }
  }

  /** With every position marked nothing is removed. */
  lemma {:induction false} KeptAll<T>(s: seq<T>, keep: seq<bool>)
    requires |keep| == |s| && forall k :: 0 <= k < |s| ==> keep[k]
    ensures Kept(s, keep) == s
  {
    if |s| > 0 {
      var n := |s| - 1;
      KeptAll(s[..n], keep[..n]);
      assert s == s[..n] + [s[n]];
    }
  }

  /** s with every repeat dropped: each element once, in order of first appearance. */
  function FirstSeen<T(==)>(s: seq<T>): seq<T>
  {
    if |s| == 0 then []
    else
      var p := FirstSeen(s[..|s|-1]);
      if s[|s|-1] in p then p else p + [s[|s|-1]]
  }

  /** Dropping repeats loses no element and adds none. */
  lemma {:induction false} FirstSeenMembers<T>(s: seq<T>)
    ensures forall y :: y in FirstSeen(s) <==> y in s
  {
    if |s| > 0 {
      FirstSeenMembers(s[..|s|-1]);
      assert s == s[..|s|-1] + [s[|s|-1]];
    }
  }

  /** Dropping repeats leaves no duplicates. */
  lemma {:induction false} FirstSeenDistinct<T>(s: seq<T>)
    ensures Distinct(FirstSeen(s))
  {
    if |s| > 0 {
      var p := FirstSeen(s[..|s|-1]);
      FirstSeenDistinct(s[..|s|-1]);
      var x := s[|s|-1];
      if x !in p {
        forall i, j | 0 <= i < j < |p + [x]| ensures (p + [x])[i] != (p + [x])[j] {
          if j == |p| {
            assert (p + [x])[i] == p[i];
          }
        }
      }
    }
  }

  /** A list without duplicates is its own first-appearance list. */
  lemma {:induction false} FirstSeenOfDistinct<T>(s: seq<T>)
    requires Distinct(s)
    ensures FirstSeen(s) == s
  {
    if |s| > 0 {
      var n := |s| - 1;
      assert Distinct(s[..n]);
      FirstSeenOfDistinct(s[..n]);
      assert s[n] !in s[..n];
      assert s == s[..n] + [s[n]];
    }
  }

  /** One round of a de-duplicating loop: a new element is appended, a repeat is skipped. */
  lemma FirstSeenStep<T>(q: seq<T>, x: T)
    ensures FirstSeen(q + [x]) == if x in FirstSeen(q) then FirstSeen(q) else FirstSeen(q) + [x]
  {
    assert (q + [x])[..|q + [x]| - 1] == q;
  }
}
