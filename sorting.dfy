/**
 * Ascending order on code points: `list.sort()` on a list of ints, done in
 * place on an array, and the sorted sequence it must produce.
 */
module Sorting {

  predicate Nondecreasing(s: seq<nat>)
  {
    forall i, j :: 0 <= i < j < |s| ==> s[i] <= s[j]
  }

  predicate StrictlyIncreasing(s: seq<nat>)
  {
    forall i, j :: 0 <= i < j < |s| ==> s[i] < s[j]
  }

  predicate Distinct(s: seq<nat>)
  {
    forall i, j :: 0 <= i < j < |s| ==> s[i] != s[j]
  }

  /** Sorting distinct points leaves them strictly ascending. */
  lemma SortedDistinct(s: seq<nat>)
    requires Distinct(s)
    ensures StrictlyIncreasing(SortedSeq(s))
  {
    var r := SortedSeq(s);
    forall i, j | 0 <= i < j < |r|
      ensures r[i] < r[j]
    {
      if r[i] == r[j] {
        RepeatCounts(r, i, j);
        DistinctCounts(s, r[i]);
        assert false;
      }
    }
  }

  lemma {:induction false} DistinctCounts(s: seq<nat>, v: nat)
    requires Distinct(s)
    ensures multiset(s)[v] <= 1
  {
    if s != [] {
      assert s == [s[0]] + s[1..];
      DistinctCounts(s[1..], v);
      if v == s[0] {
        assert v !in s[1..];
      }
    }
  }

  lemma RepeatCounts(s: seq<nat>, i: nat, j: nat)
    requires i < j < |s| && s[i] == s[j]
    ensures multiset(s)[s[i]] >= 2
  {
    assert s == s[..i] + [s[i]] + s[i + 1..j] + [s[j]] + s[j + 1..];
  }

  /** Insert `x` after every element not above it. */
  function Insert(x: nat, s: seq<nat>): (r: seq<nat>)
    requires Nondecreasing(s)
    ensures Nondecreasing(r) && multiset(r) == multiset(s) + multiset{x}
  {
    if s == [] then [x]
    else if x <= s[0] then [x] + s
    else
      var rest := Insert(x, s[1..]);
      assert s == [s[0]] + s[1..];
      LowerBound(s[0], x, s[1..], rest);
      ConsAscending(s[0], rest);
      [s[0]] + rest
  }

  lemma ConsAscending(low: nat, s: seq<nat>)
    requires Nondecreasing(s) && forall k :: 0 <= k < |s| ==> low <= s[k]
    ensures Nondecreasing([low] + s)
  {
    var r := [low] + s;
    forall i, j | 0 <= i < j < |r|
      ensures r[i] <= r[j]
    {
      assert r[j] == s[j - 1];
      if i > 0 {
        assert r[i] == s[i - 1];
      }
    }
  }

  lemma LowerBound(low: nat, x: nat, s: seq<nat>, r: seq<nat>)
    requires low <= x && forall k :: 0 <= k < |s| ==> low <= s[k]
    requires multiset(r) == multiset(s) + multiset{x}
    ensures forall k :: 0 <= k < |r| ==> low <= r[k]
  {
    forall k | 0 <= k < |r|
      ensures low <= r[k]
    {
      assert r[k] in multiset(r);
      if r[k] != x {
        assert r[k] in multiset(s);
      }
    }
  }

  /** The ascending arrangement of `s`: what `sorted(s)` returns. */
  function SortedSeq(s: seq<nat>): (r: seq<nat>)
    ensures Nondecreasing(r) && multiset(r) == multiset(s)
  {
    if s == [] then []
    else
      assert s == [s[0]] + s[1..];
      Insert(s[0], SortedSeq(s[1..]))
  }

  /** An ascending arrangement of a multiset is unique, so any sort that
      orders and permutes agrees with `SortedSeq`. */
  lemma {:induction false} SortedUnique(a: seq<nat>, b: seq<nat>)
    requires Nondecreasing(a) && Nondecreasing(b)
    requires multiset(a) == multiset(b)
    ensures a == b
    decreases |a|
  {
    if a == [] {
      assert |multiset(b)| == 0;
    } else {
      assert b != [] by {
        assert a[0] in multiset(b);
      }
      assert b[0] in multiset(a) && a[0] in multiset(b);
      LeastIsFirst(a, b[0]);
      LeastIsFirst(b, a[0]);
      assert a[0] == b[0];
      TailFacts(a);
      TailFacts(b);
      assert multiset(a[1..]) == multiset(b[1..]);
      SortedUnique(a[1..], b[1..]);
      SameHeadAndTail(a, b);
    }
  }

  lemma SameHeadAndTail(a: seq<nat>, b: seq<nat>)
    requires a != [] && b != [] && a[0] == b[0] && a[1..] == b[1..]
    ensures a == b
  {
    assert a == [a[0]] + a[1..] && b == [b[0]] + b[1..];
  }

  lemma TailFacts(s: seq<nat>)
    requires s != [] && Nondecreasing(s)
    ensures Nondecreasing(s[1..])
    ensures multiset(s[1..]) == multiset(s) - multiset{s[0]}
  {
    assert s == [s[0]] + s[1..];
  }

  /** Sorting what is already in order changes nothing. */
  lemma SortedFixed(s: seq<nat>)
    requires Nondecreasing(s)
    ensures SortedSeq(s) == s
  {
    SortedUnique(SortedSeq(s), s);
  }

  lemma LeastIsFirst(s: seq<nat>, x: nat)
    requires Nondecreasing(s) && x in multiset(s)
    ensures s[0] <= x
  {
    assert x in s;
    var j :| 0 <= j < |s| && s[j] == x;
    assert j == 0 || s[0] <= s[j];
  }

  /** Exchanging two neighbours keeps the same elements. */
  lemma SwapPermutes(s: seq<nat>, i: nat, r: seq<nat>)
    requires i + 1 < |s| && r == s[i := s[i + 1]][i + 1 := s[i]]
    ensures multiset(r) == multiset(s)
  {
    var m := s[i := s[i + 1]];
    assert multiset(m) == multiset(s) - multiset{s[i]} + multiset{s[i + 1]};
    assert m[i + 1] == s[i + 1];
    assert multiset(r) == multiset(m) - multiset{s[i + 1]} + multiset{s[i]};
  }

  /** `codes.sort()`: insertion sort in place. */
  method SortInPlace(a: array<nat>)
    modifies a
    ensures Nondecreasing(a[..])
    ensures multiset(a[..]) == multiset(old(a[..]))
    ensures a[..] == SortedSeq(old(a[..]))
  {
    var i := 0;
    while i < a.Length
      invariant 0 <= i <= a.Length
      invariant Nondecreasing(a[..i])
      invariant multiset(a[..]) == multiset(old(a[..]))
    {
      SiftDown(a, i);
      i := i + 1;
    }
    assert a[..i] == a[..];
    SortedUnique(a[..], SortedSeq(old(a[..])));
  }

  /** One pass of the insertion sort: `a[i]` moves left past every larger
      element, so the first `i + 1` elements end up in order. */
  method SiftDown(a: array<nat>, i: nat)
    requires i < a.Length && Nondecreasing(a[..i])
    modifies a
    ensures Nondecreasing(a[..i + 1])
    ensures multiset(a[..]) == multiset(old(a[..]))
  {
    var j := i;
    SiftStart(a[..], i);
    while j > 0 && a[j - 1] > a[j]
      invariant 0 <= j <= i
      invariant Sifting(a[..], j, i)
      invariant multiset(a[..]) == multiset(old(a[..]))
    {
      ghost var before := a[..];
      a[j - 1], a[j] := a[j], a[j - 1];
      SwapPermutes(before, j - 1, a[..]);
      SiftStep(before, j, i, a[..]);
      j := j - 1;
    }
    SiftDone(a[..], j, i);
  }

  /** While `s[j]` moves left: everything but `s[j]` among the first `i + 1`
      elements is in order, and `s[j]` is below everything to its right. */
  ghost predicate Sifting(s: seq<nat>, j: nat, i: nat)
    requires j <= i < |s|
  {
    && (forall p, q :: 0 <= p < q <= i && p != j && q != j ==> s[p] <= s[q])
    && (forall q :: j < q <= i ==> s[j] < s[q])
  }

  lemma SiftStart(s: seq<nat>, i: nat)
    requires i < |s| && Nondecreasing(s[..i])
    ensures Sifting(s, i, i)
  {
    forall p, q | 0 <= p < q <= i && p != i && q != i
      ensures s[p] <= s[q]
    {
      assert s[..i][p] <= s[..i][q];
    }
  }

  lemma SiftStep(s: seq<nat>, j: nat, i: nat, r: seq<nat>)
    requires 0 < j <= i < |s| && Sifting(s, j, i) && s[j - 1] > s[j]
    requires r == s[j - 1 := s[j]][j := s[j - 1]]
    ensures Sifting(r, j - 1, i)
  {
    forall p, q | 0 <= p < q <= i && p != j - 1 && q != j - 1
      ensures r[p] <= r[q]
    {
      if q == j {
        assert r[q] == s[j - 1];
        if p < j - 1 {
          assert s[p] <= s[j - 1];
        }
      } else if p == j {
        assert s[j - 1] <= s[q];
      }
    }
    forall q | j - 1 < q <= i
      ensures r[j - 1] < r[q]
    {
    }
  }

  lemma SiftDone(s: seq<nat>, j: nat, i: nat)
    requires j <= i < |s| && Sifting(s, j, i)
    requires j == 0 || s[j - 1] <= s[j]
    ensures Nondecreasing(s[..i + 1])
  {
    forall p, q | 0 <= p < q <= i
      ensures s[p] <= s[q]
    {
      if q == j && p < j - 1 {
        assert s[p] <= s[j - 1];
      }
    }
  }
}
