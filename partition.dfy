/** The grouping block of `main`: the ranked list is cut into
    `args.groups` contiguous slices at the boundaries
    `i * total_chars // args.groups`, keeping only the characters. */
module Partition {
  import opened Ranking

  /** `i * total // groupCount`; the operands are never negative here, so
      Python's floor division and Dafny's `/` agree. */
  function Boundary(i: nat, total: nat, groupCount: nat): nat
    requires groupCount > 0
  {
    i * total / groupCount
  }

  /** The boundary is the largest `b` with `b * groupCount <= i * total`. */
  lemma BoundaryFloor(i: nat, total: nat, groupCount: nat)
    requires groupCount > 0
    ensures Boundary(i, total, groupCount) * groupCount <= i * total
    ensures i * total < (Boundary(i, total, groupCount) + 1) * groupCount
  {
    var x, b := i * total, Boundary(i, total, groupCount);
    assert x == b * groupCount + x % groupCount;
    assert (b + 1) * groupCount == b * groupCount + groupCount;
  }

  /** `[char for char, freq in slice]` */
  function CharsOf(s: seq<CharFreq>): (r: seq<char>)
    ensures |r| == |s| && forall k :: 0 <= k < |s| ==> r[k] == s[k].ch
  {
    if s == [] then [] else CharsOf(s[..|s| - 1]) + [s[|s| - 1].ch]
  }

  /** The groups joined back together in order. */
  function Flatten(groups: seq<seq<char>>): seq<char>
  {
    if groups == [] then [] else Flatten(groups[..|groups| - 1]) + groups[|groups| - 1]
  }

  lemma MultipleCompare(k: int, g: int)
    requires g > 0
    ensures k >= 2 ==> k * g >= 2 * g
    ensures k >= 1 ==> k * g >= g
    ensures k <= -1 ==> k * g <= -g
  {
    assert k * g - 2 * g == (k - 2) * g;
    assert k * g - g == (k - 1) * g;
    assert k * g + g == (k + 1) * g;
  }

  /** Division by `g` is determined by any quotient and remainder. */
  lemma DivUnique(x: int, g: int, q: int, r: int)
    requires g > 0 && x == q * g + r && 0 <= r < g
    ensures x / g == q
  {
    var d := x / g - q;
    assert d * g == r - x % g by {
      assert x == (x / g) * g + x % g;
      assert d * g == (x / g) * g - q * g;
    }
    MultipleCompare(d, g);
  }

  /** Consecutive boundaries are `total / groupCount` apart, or one more
      when the division leaves a remainder. */
  lemma BoundaryStep(i: nat, total: nat, groupCount: nat)
    requires groupCount > 0
    ensures total / groupCount <= Boundary(i + 1, total, groupCount) - Boundary(i, total, groupCount)
    ensures Boundary(i + 1, total, groupCount) - Boundary(i, total, groupCount) <=
      total / groupCount + (if total % groupCount == 0 then 0 else 1)
  {
    var g := groupCount;
    var q1, r1 := i * total / g, i * total % g;
    var q2, r2 := (i + 1) * total / g, (i + 1) * total % g;
    var q, r := total / g, total % g;
    assert (i + 1) * total == i * total + total;
    assert (q2 - q1 - q) * g == r1 + r - r2 by {
      assert i * total == q1 * g + r1;
      assert (i + 1) * total == q2 * g + r2;
      assert total == q * g + r;
      assert (q2 - q1 - q) * g == q2 * g - q1 * g - q * g;
    }
    MultipleCompare(q2 - q1 - q, g);
  }

  lemma BoundaryEnds(total: nat, groupCount: nat)
    requires groupCount > 0
    ensures Boundary(0, total, groupCount) == 0
    ensures Boundary(groupCount, total, groupCount) == total
  {
    DivUnique(0 * total, groupCount, 0, 0);
    DivUnique(groupCount * total, groupCount, total, 0);
  }

  lemma BoundaryMonotone(a: nat, b: nat, total: nat, groupCount: nat)
    requires groupCount > 0 && a <= b
    ensures Boundary(a, total, groupCount) <= Boundary(b, total, groupCount)
  {
    var g := groupCount;
    var qa, qb := a * total / g, b * total / g;
    assert a * total <= b * total by {
      assert b * total - a * total == (b - a) * total;
    }
    assert qa * g <= a * total && b * total < qb * g + g;
    assert (qa - qb) * g < g by {
      assert (qa - qb) * g == qa * g - qb * g;
    }
    MultipleCompare(qa - qb, g);
  }

  lemma BoundaryAtMost(i: nat, total: nat, groupCount: nat)
    requires 0 < groupCount && i <= groupCount
    ensures Boundary(i, total, groupCount) <= total
  {
    BoundaryMonotone(i, groupCount, total, groupCount);
    BoundaryEnds(total, groupCount);
  }

  /** Group `i` of `groupCount`: the characters of the ranked entries
      between two consecutive boundaries. It holds the total divided by
      the group count, rounded down or up. */
  function GroupAt(ranked: seq<CharFreq>, i: nat, groupCount: nat): (group: seq<char>)
    requires i < groupCount
    ensures |ranked| / groupCount <= |group|
    ensures |group| <= |ranked| / groupCount + (if |ranked| % groupCount == 0 then 0 else 1)
  {
    SliceBounds(i, |ranked|, groupCount);
    CharsOf(ranked[Boundary(i, |ranked|, groupCount)..Boundary(i + 1, |ranked|, groupCount)])
  }

  lemma SliceBounds(i: nat, total: nat, groupCount: nat)
    requires i < groupCount
    ensures Boundary(i, total, groupCount) <= Boundary(i + 1, total, groupCount) <= total
    ensures total / groupCount <= Boundary(i + 1, total, groupCount) - Boundary(i, total, groupCount)
    ensures Boundary(i + 1, total, groupCount) - Boundary(i, total, groupCount) <=
      total / groupCount + (if total % groupCount == 0 then 0 else 1)
  {
    BoundaryStep(i, total, groupCount);
    BoundaryAtMost(i + 1, total, groupCount);
  }

  lemma FlattenSnoc(groups: seq<seq<char>>, g: seq<char>)
    ensures Flatten(groups + [g]) == Flatten(groups) + g
  {
    assert (groups + [g])[..|groups|] == groups;
  }

  lemma CharsOfSplit(s: seq<CharFreq>, lo: nat, hi: nat)
    requires lo <= hi <= |s|
    ensures CharsOf(s[..hi]) == CharsOf(s[..lo]) + CharsOf(s[lo..hi])
  {
  }

  /** `group` is the slice of `whole` between boundaries `i` and `i + 1`. */
  predicate SliceAt(group: seq<char>, whole: seq<char>, i: nat, groupCount: nat)
    requires groupCount > 0
  {
    && Boundary(i, |whole|, groupCount) <= Boundary(i + 1, |whole|, groupCount) <= |whole|
    && group == whole[Boundary(i, |whole|, groupCount)..Boundary(i + 1, |whole|, groupCount)]
  }

  /** `groups` are the slices of `whole` between consecutive boundaries. */
  predicate SlicedAtBoundaries(groups: seq<seq<char>>, whole: seq<char>, groupCount: nat)
  {
    && groupCount > 0
    && |groups| == groupCount
    && forall i :: 0 <= i < |groups| ==> SliceAt(groups[i], whole, i, groupCount)
  }

  /** All the groups of `ranked`, each a slice of its characters. */
  lemma PartitionedSliced(ranked: seq<CharFreq>, groups: seq<seq<char>>, groupCount: nat)
    requires groupCount > 0 && groups == Partitioned(ranked, groupCount, groupCount)
    ensures SlicedAtBoundaries(groups, CharsOf(ranked), groupCount)
  {
    var total := |ranked|;
    forall k | 0 <= k < groupCount
      ensures SliceAt(groups[k], CharsOf(ranked), k, groupCount)
    {
      SliceBounds(k, total, groupCount);
      CharsOfSlice(ranked, Boundary(k, total, groupCount), Boundary(k + 1, total, groupCount));
    }
  }

  /** Taking the characters commutes with slicing. */
  lemma CharsOfSlice(s: seq<CharFreq>, lo: nat, hi: nat)
    requires lo <= hi <= |s|
    ensures CharsOf(s[lo..hi]) == CharsOf(s)[lo..hi]
  {
    assert forall k :: 0 <= k < hi - lo ==> CharsOf(s[lo..hi])[k] == s[lo + k].ch == CharsOf(s)[lo..hi][k];
  }

  /** The first `n` groups, in order. */
  function Partitioned(ranked: seq<CharFreq>, n: nat, groupCount: nat): (groups: seq<seq<char>>)
    requires n <= groupCount
    ensures |groups| == n && forall k :: 0 <= k < n ==> groups[k] == GroupAt(ranked, k, groupCount)
  {
    seq(n, k requires 0 <= k < n => GroupAt(ranked, k, groupCount))
  }

  lemma PartitionedSnoc(ranked: seq<CharFreq>, n: nat, next: nat, groupCount: nat)
    requires next == n + 1 && next <= groupCount
    ensures Partitioned(ranked, next, groupCount) == Partitioned(ranked, n, groupCount) + [GroupAt(ranked, n, groupCount)]
  {
  }

  /** Joined in order, the first `n` groups give back the ranked characters
      up to boundary `n`. */
  lemma {:induction false} PartitionedFlatten(ranked: seq<CharFreq>, n: nat, groupCount: nat)
    requires 0 < groupCount && n <= groupCount
    ensures Boundary(n, |ranked|, groupCount) <= |ranked|
    ensures Flatten(Partitioned(ranked, n, groupCount)) == CharsOf(ranked[..Boundary(n, |ranked|, groupCount)])
  {
    if n == 0 {
      BoundaryEnds(|ranked|, groupCount);
    } else {
      PartitionedFlatten(ranked, n - 1, groupCount);
      BoundaryMonotone(n - 1, n, |ranked|, groupCount);
      BoundaryAtMost(n, |ranked|, groupCount);
      PartitionedSnoc(ranked, n - 1, n, groupCount);
      PartitionStep(ranked, Partitioned(ranked, n - 1, groupCount), n - 1, n, groupCount);
    }
  }

  /** The `for i in range(args.groups)` loop of `main`. A count of zero or
      less gives an empty range and no groups at all; otherwise the groups
      joined in order give back the ranked characters exactly. */
  method PartitionGroups(ranked: seq<CharFreq>, groupCount: int) returns (groups: seq<seq<char>>)
    ensures |groups| == if groupCount > 0 then groupCount else 0
    ensures forall i :: 0 <= i < |groups| ==> groups[i] == GroupAt(ranked, i, groupCount)
    ensures groupCount > 0 ==> Flatten(groups) == CharsOf(ranked)
    ensures groupCount > 0 ==> SlicedAtBoundaries(groups, CharsOf(ranked), groupCount)
  {
    groups := [];
    if groupCount <= 0 {
      return;
    }
    var total := |ranked|;
    var i := 0;
    while i < groupCount
      invariant 0 <= i <= groupCount
      invariant groups == Partitioned(ranked, i, groupCount)
    {
      SliceBounds(i, total, groupCount);
      var start := Boundary(i, total, groupCount);
      var end := Boundary(i + 1, total, groupCount);
      PartitionedSnoc(ranked, i, i + 1, groupCount);
      groups := groups + [CharsOf(ranked[start..end])];
      i := i + 1;
    }
    PartitionedFlatten(ranked, groupCount, groupCount);
    BoundaryEnds(total, groupCount);
    assert ranked[..total] == ranked;
    PartitionedSliced(ranked, groups, groupCount);
  }

  /** Appending group `i` extends the flattened groups to the next boundary. */
  lemma PartitionStep(ranked: seq<CharFreq>, groups: seq<seq<char>>, i: nat, next: nat, groupCount: nat)
    requires next == i + 1 && i < groupCount
    requires Boundary(i, |ranked|, groupCount) <= Boundary(next, |ranked|, groupCount) <= |ranked|
    requires Flatten(groups) == CharsOf(ranked[..Boundary(i, |ranked|, groupCount)])
    ensures Flatten(groups + [GroupAt(ranked, i, groupCount)]) ==
      CharsOf(ranked[..Boundary(next, |ranked|, groupCount)])
  {
    var start, end := Boundary(i, |ranked|, groupCount), Boundary(next, |ranked|, groupCount);
    FlattenSnoc(groups, GroupAt(ranked, i, groupCount));
    CharsOfSplit(ranked, start, end);
  }

  /** Groups follow the ranking: in a list sorted by descending frequency,
      every entry of an earlier group has at least the frequency of every
      entry of a later one. */
  lemma EarlierGroupsRankHigher(ranked: seq<CharFreq>, groupCount: nat, i: nat, j: nat, p: nat, q: nat)
    requires Descending(ranked)
    requires i < j < groupCount
    requires Boundary(i, |ranked|, groupCount) <= p < Boundary(i + 1, |ranked|, groupCount)
    requires Boundary(j, |ranked|, groupCount) <= q < Boundary(j + 1, |ranked|, groupCount)
    ensures p < q < |ranked| && ranked[p].freq >= ranked[q].freq
  {
    BoundaryMonotone(i + 1, j, |ranked|, groupCount);
    BoundaryAtMost(j + 1, |ranked|, groupCount);
  }

  /** Ten ranked characters in two groups split five and five. */
  lemma TenInTwo(ranked: seq<CharFreq>)
    requires |ranked| == 10
    ensures GroupAt(ranked, 0, 2) == CharsOf(ranked[..5])
    ensures GroupAt(ranked, 1, 2) == CharsOf(ranked[5..])
  {
    assert Boundary(0, 10, 2) == 0 && Boundary(1, 10, 2) == 5 && Boundary(2, 10, 2) == 10;
    assert ranked[0..5] == ranked[..5] && ranked[5..10] == ranked[5..];
  }
}
