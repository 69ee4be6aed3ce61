/**
 * `create_unicode_range`: the code points of one group written as the value
 * of a CSS `unicode-range` descriptor. The points are sorted, consecutive
 * points are merged into runs, and each run is written `U+XXXX` or
 * `U+XXXX-YYYY`; runs are separated by `", "`.
 */
module UnicodeRange {
  import opened Wrappers
  import opened Text
  import opened Numerals
  import opened Sorting

  /** An inclusive run of code points. */
  datatype Run = Run(first: nat, last: nat)

  /** The run structure the merge loop builds: a point one past the end of
      the current run extends it; any other point (including a repeat of
      the end) opens a new run. */
  function Extend(runs: seq<Run>, code: nat): seq<Run>
  {
    if runs != [] && code == runs[|runs| - 1].last + 1 then
      runs[..|runs| - 1] + [Run(runs[|runs| - 1].first, code)]
    else
      runs + [Run(code, code)]
  }

  /** The runs of `codes` in input order: never more runs than points,
      none only for no points, and each run a non-empty interval. */
  function Runs(codes: seq<nat>): (runs: seq<Run>)
    ensures |runs| <= |codes|
    ensures codes == [] <==> runs == []
    ensures WellFormed(runs)
  {
    if codes == [] then [] else Extend(Runs(codes[..|codes| - 1]), codes[|codes| - 1])
  }

  /** One run as the descriptor writes it: `U+` and at least four hex
      digits, with a `-` exactly when the run holds more than one point,
      and never a comma or a space, so the joined list splits back into
      its items. */
  function RenderRun(r: Run): (s: string)
    ensures |s| >= 6 && s[..2] == "U+"
    ensures '-' in s <==> r.first != r.last
    ensures ',' !in s && ' ' !in s
  {
    var a := Hex4(r.first);
    HexHasNoPunctuation(a);
    if r.first == r.last then
      PrefixedText(a, []);
      "U+" + a
    else
      var b := Hex4(r.last);
      HexHasNoPunctuation(b);
      PrefixedText(a, "-" + b);
      "U+" + a + "-" + b
  }

  lemma PrefixedText(a: string, rest: string)
    ensures "U+" + a + rest == "U+" + (a + rest)
    ensures ("U+" + (a + rest))[..2] == "U+"
    ensures forall c :: c in "U+" + (a + rest) <==> c == 'U' || c == '+' || c in a || c in rest
  {
  }

  lemma HexHasNoPunctuation(h: string)
    requires AllDigits(h, 16)
    ensures '-' !in h && ',' !in h && ' ' !in h && 'U' !in h && '+' !in h
  {
    forall k | 0 <= k < |h|
      ensures IsHexDigit(h[k])
    {
    }
  }

  function RenderAll(runs: seq<Run>): (parts: seq<string>)
    ensures |parts| == |runs|
    ensures forall k :: 0 <= k < |runs| ==> parts[k] == RenderRun(runs[k])
  {
    if runs == [] then [] else [RenderRun(runs[0])] + RenderAll(runs[1..])
  }

  /** The descriptor text for a run list: empty exactly when there are
      no runs. */
  function RenderRuns(runs: seq<Run>): (text: string)
    ensures text == [] <==> runs == []
  {
    if runs != [] then
      JoinWithStartsWith(RenderAll(runs), ", ");
      JoinWith(RenderAll(runs), ", ")
    else JoinWith(RenderAll(runs), ", ")
  }

  /** The descriptor text for already sorted code points. */
  function RangeText(sorted: seq<nat>): string
  {
    RenderRuns(Runs(sorted))
  }

  /** What `create_unicode_range(codes)` returns: the empty string
      exactly when there are no code points. */
  function UnicodeRangeOf(codes: seq<nat>): (value: string)
    ensures value == "" <==> codes == []
  {
    var sorted := SortedSeq(codes);
    assert |sorted| == |codes| by {
      assert |multiset(sorted)| == |multiset(codes)|;
    }
    RangeText(sorted)
  }

  /** `create_unicode_range(codes)`; like the original it sorts the
      caller's list in place. */
  method CreateUnicodeRange(codes: array<nat>) returns (value: string)
    modifies codes
    ensures codes[..] == SortedSeq(old(codes[..]))
    ensures value == RangeText(codes[..])
    ensures value == UnicodeRangeOf(old(codes[..]))
  {
    if codes.Length == 0 {
      assert codes[..] == old(codes[..]) == [];
      assert SortedSeq(old(codes[..])) == [];
      return "";
    }
    SortInPlace(codes);
    ghost var sorted := codes[..];
    var ranges: seq<string> := [];
    ghost var closed: seq<Run> := [];
    var start := codes[0];
    var end := start;
    assert sorted[..1] == [sorted[0]];
    var k := 1;
    while k < codes.Length
      invariant 1 <= k <= codes.Length
      invariant codes[..] == sorted
      invariant Runs(sorted[..k]) == closed + [Run(start, end)]
      invariant ranges == RenderAll(closed)
    {
      var code := codes[k];
      assert code == sorted[k];
      RunsStep(sorted, k);
      ExtendStep(closed, start, end, code);
      if code == end + 1 {
        end := code;
      } else {
        if start == end {
          ranges := ranges + ["U+" + Hex4(start)];
        } else {
          ranges := ranges + ["U+" + Hex4(start) + "-" + Hex4(end)];
        }
        RenderAllSnoc(closed, Run(start, end));
        closed := closed + [Run(start, end)];
        start := code;
        end := code;
      }
      k := k + 1;
    }
    if start == end {
      ranges := ranges + ["U+" + Hex4(start)];
    } else {
      ranges := ranges + ["U+" + Hex4(start) + "-" + Hex4(end)];
    }
    RenderAllSnoc(closed, Run(start, end));
    assert sorted[..k] == sorted;
    value := JoinWith(ranges, ", ");
  }

  lemma RunsStep(codes: seq<nat>, k: nat)
    requires k < |codes|
    ensures Runs(codes[..k + 1]) == Extend(Runs(codes[..k]), codes[k])
  {
    assert codes[..k + 1][..k] == codes[..k];
  }

  lemma RunsSnoc(codes: seq<nat>, code: nat)
    ensures Runs(codes + [code]) == Extend(Runs(codes), code)
  {
    assert (codes + [code])[..|codes|] == codes;
  }

  lemma ExtendStep(closed: seq<Run>, start: nat, end: nat, code: nat)
    ensures Extend(closed + [Run(start, end)], code) ==
      if code == end + 1 then closed + [Run(start, code)]
      else closed + [Run(start, end)] + [Run(code, code)]
  {
    var runs := closed + [Run(start, end)];
    assert runs[..|runs| - 1] == closed;
  }

  lemma {:induction false} RenderAllSnoc(runs: seq<Run>, r: Run)
    ensures RenderAll(runs + [r]) == RenderAll(runs) + [RenderRun(r)]
  {
  }

  predicate WellFormed(runs: seq<Run>)
  {
    forall k :: 0 <= k < |runs| ==> runs[k].first <= runs[k].last
  }

  /** Some run contains `x`. */
  predicate Covers(runs: seq<Run>, x: nat)
  {
    exists k :: 0 <= k < |runs| && runs[k].first <= x <= runs[k].last
  }

  /** Runs in ascending order with at least one uncovered point between
      neighbours, so no two of them could be written as one. */
  predicate Separated(runs: seq<Run>)
  {
    forall i, j :: 0 <= i < j < |runs| ==> runs[i].last + 1 < runs[j].first
  }

  /** The first run starts at the first point and the last run ends at the
      last point. */
  lemma {:induction false} RunsShape(codes: seq<nat>)
    ensures codes != [] ==> Runs(codes)[0].first == codes[0]
    ensures codes != [] ==> Runs(codes)[|Runs(codes)| - 1].last == codes[|codes| - 1]
    decreases |codes|
  {
    if codes != [] {
      var prefix := codes[..|codes| - 1];
      RunsShape(prefix);
      if prefix != [] {
        assert prefix[0] == codes[0];
      }
    }
  }

  /** Coverage: the runs cover exactly the input points, whatever their order. */
  lemma {:induction false} RunsCover(codes: seq<nat>, x: nat)
    ensures x in codes <==> Covers(Runs(codes), x)
    decreases |codes|
  {
    if codes != [] {
      var n := |codes|;
      var prefix := codes[..n - 1];
      var c := codes[n - 1];
      assert codes == prefix + [c];
      assert x in codes <==> x in prefix || x == c;
      assert Runs(codes) == Extend(Runs(prefix), c);
      RunsCover(prefix, x);
      RunsShape(prefix);
      CoversExtend(Runs(prefix), c, x);
    }
  }

  lemma CoversExtend(runs: seq<Run>, c: nat, x: nat)
    requires WellFormed(runs)
    ensures Covers(Extend(runs, c), x) <==> Covers(runs, x) || x == c
  {
    var extended := Extend(runs, c);
    if runs != [] && c == runs[|runs| - 1].last + 1 {
      var m := |runs| - 1;
      assert extended[..m] == runs[..m];
      assert extended[m] == Run(runs[m].first, c);
      if Covers(runs, x) {
        var k :| 0 <= k < |runs| && runs[k].first <= x <= runs[k].last;
        assert extended[k].first <= x <= extended[k].last;
      }
      if Covers(extended, x) && x != c {
        var k :| 0 <= k < |extended| && extended[k].first <= x <= extended[k].last;
        assert runs[k].first <= x <= runs[k].last;
      }
    } else {
      assert extended == runs + [Run(c, c)];
      if Covers(runs, x) {
        var k :| 0 <= k < |runs| && runs[k].first <= x <= runs[k].last;
        assert extended[k] == runs[k];
      }
      if Covers(extended, x) && x != c {
        var k :| 0 <= k < |extended| && extended[k].first <= x <= extended[k].last;
        assert extended[k] == runs[k];
      }
      assert extended[|runs|] == Run(c, c);
    }
  }

  /** Distinct ascending points give maximal runs: ascending, and never
      adjacent or overlapping. */
  lemma {:induction false} RunsSeparated(codes: seq<nat>)
    requires StrictlyIncreasing(codes)
    ensures Separated(Runs(codes))
    decreases |codes|
  {
    if codes != [] {
      var n := |codes|;
      var prefix := codes[..n - 1];
      RunsSeparated(prefix);
      RunsShape(prefix);
      if prefix != [] {
        assert prefix[n - 2] < codes[n - 1];
      }
      ExtendSeparated(Runs(prefix), codes[n - 1]);
    }
  }

  lemma ExtendSeparated(runs: seq<Run>, c: nat)
    requires WellFormed(runs) && Separated(runs)
    requires runs != [] ==> runs[|runs| - 1].last < c
    ensures Separated(Extend(runs, c))
  {
    if runs != [] {
      var m := |runs| - 1;
      forall i | 0 <= i < m
        ensures runs[i].last + 1 < runs[m].first
      {
      }
    }
  }

  /** Sorted points that repeat still give ascending runs, but a repeated
      point opens a run of its own rather than being merged. */
  lemma {:induction false} RunsAscending(codes: seq<nat>)
    requires Nondecreasing(codes)
    ensures Ascending(Runs(codes))
    decreases |codes|
  {
    if codes != [] {
      var n := |codes|;
      var prefix := codes[..n - 1];
      RunsAscending(prefix);
      RunsShape(prefix);
      if prefix != [] {
        assert prefix[n - 2] <= codes[n - 1];
      }
      ExtendAscending(Runs(prefix), codes[n - 1]);
    }
  }

  predicate Ascending(runs: seq<Run>)
  {
    forall i, j :: 0 <= i < j < |runs| ==> runs[i].last <= runs[j].first
  }

  lemma ExtendAscending(runs: seq<Run>, c: nat)
    requires WellFormed(runs) && Ascending(runs)
    requires runs != [] ==> runs[|runs| - 1].last <= c
    ensures Ascending(Extend(runs, c))
  {
    if runs != [] {
      var m := |runs| - 1;
      forall i | 0 <= i < m
        ensures runs[i].last <= runs[m].first
      {
      }
    }
  }
}
