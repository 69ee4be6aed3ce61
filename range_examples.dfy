/** Worked values of the unicode-range descriptor, each computed through
    the general definitions rather than asserted outright. */
module RangeExamples {
  import opened Numerals
  import opened Sorting
  import opened Text
  import opened UnicodeRange

  lemma Hex0041() ensures Hex4(65) == "0041" {}
  lemma Hex0043() ensures Hex4(67) == "0043" {}
  lemma Hex005A() ensures Hex4(90) == "005A" {}
  lemma Hex0005() ensures Hex4(5) == "0005" {}

  /** Three consecutive code points merge into one run, the isolated
      fourth stays on its own. */
  lemma MergedAndSingle()
    ensures UnicodeRangeOf([65, 66, 67, 90]) == "U+0041-0043, U+005A"
  {
    AlreadyAscending();
    RunsOfSample();
    RenderSample();
  }

  lemma AlreadyAscending()
    ensures SortedSeq([65, 66, 67, 90]) == [65, 66, 67, 90]
  {
    var s: seq<nat> := [65, 66, 67, 90];
    assert Nondecreasing(s);
    SortedFixed(s);
  }

  lemma RunsOfSample()
    ensures Runs([65, 66, 67, 90]) == [Run(65, 67), Run(90, 90)]
  {
    ThreeThenApart(65, 90);
  }

  /** Three consecutive code points followed by one that is not next. */
  lemma ThreeThenApart(a: nat, b: nat)
    requires b != a + 3
    ensures Runs([a, a + 1, a + 2, b]) == [Run(a, a + 2), Run(b, b)]
  {
    RunsTriple(a);
    RunsSnoc([a, a + 1, a + 2], b);
    assert [a, a + 1, a + 2] + [b] == [a, a + 1, a + 2, b];
  }

  lemma RunsSingle(a: nat)
    ensures Runs([a]) == [Run(a, a)]
  {
    RunsSnoc([], a);
    assert [] + [a] == [a];
  }

  lemma RunsPair(a: nat)
    ensures Runs([a, a + 1]) == [Run(a, a + 1)]
  {
    RunsSingle(a);
    RunsSnoc([a], a + 1);
    assert [a] + [a + 1] == [a, a + 1];
  }

  lemma RunsTriple(a: nat)
    ensures Runs([a, a + 1, a + 2]) == [Run(a, a + 2)]
  {
    RunsPair(a);
    RunsSnoc([a, a + 1], a + 2);
    assert [a, a + 1] + [a + 2] == [a, a + 1, a + 2];
  }

  lemma RenderSample()
    ensures RenderRuns([Run(65, 67), Run(90, 90)]) == "U+0041-0043, U+005A"
  {
    RenderPair(Run(65, 67), Run(90, 90));
    RenderMerged();
    RenderLone();
    assert "U+0041-0043" + ", " + "U+005A" == "U+0041-0043, U+005A";
  }

  /** Two runs render as their texts joined by a comma and a space. */
  lemma RenderPair(r1: Run, r2: Run)
    ensures RenderRuns([r1, r2]) == RenderRun(r1) + ", " + RenderRun(r2)
  {
    RenderAllPair(r1, r2);
    JoinPair(RenderRun(r1), RenderRun(r2), ", ");
  }

  lemma RenderAllPair(r1: Run, r2: Run)
    ensures RenderAll([r1, r2]) == [RenderRun(r1), RenderRun(r2)]
  {
    var parts := RenderAll([r1, r2]);
    assert parts[0] == RenderRun(r1) && parts[1] == RenderRun(r2);
  }

  lemma JoinPair(a: string, b: string, sep: string)
    ensures JoinWith([a, b], sep) == a + sep + b
  {
    assert [a, b][1..] == [b];
  }

  lemma RenderMerged()
    ensures RenderRun(Run(65, 67)) == "U+0041-0043"
  {
    Hex0041();
    Hex0043();
  }

  lemma RenderLone()
    ensures RenderRun(Run(90, 90)) == "U+005A"
  {
    Hex005A();
  }

  /** A lone code point below 0x1000 is zero-padded to four digits. */
  lemma SinglePadded()
    ensures UnicodeRangeOf([5]) == "U+0005"
  {
    var s: seq<nat> := [5];
    SortedFixed(s);
    assert Runs(s) == [Run(5, 5)];
    Hex0005();
  }

  /** A repeated code point is not `end + 1`, so it opens a second run. */
  lemma DuplicateNotCollapsed()
    ensures UnicodeRangeOf([65, 65]) == "U+0041, U+0041"
  {
    var s: seq<nat> := [65, 65];
    assert SortedSeq(s) == s by {
      assert Nondecreasing(s);
      SortedFixed(s);
    }
    assert Runs(s) == [Run(65, 65), Run(65, 65)] by {
      Repeated(65);
    }
    DuplicateRender();
  }

  lemma Repeated(a: nat)
    ensures Runs([a, a]) == [Run(a, a), Run(a, a)]
  {
    RunsSingle(a);
    RunsSnoc([a], a);
    assert [a] + [a] == [a, a];
  }

  lemma DuplicateRender()
    ensures RenderRuns([Run(65, 65), Run(65, 65)]) == "U+0041, U+0041"
  {
    RenderPair(Run(65, 65), Run(65, 65));
    Hex0041();
    assert RenderRun(Run(65, 65)) == "U+0041";
    assert "U+0041" + ", " + "U+0041" == "U+0041, U+0041";
  }

  /** The one-character group "A". */
  lemma SingleA()
    ensures UnicodeRangeOf([65]) == "U+0041"
  {
    var s: seq<nat> := [65];
    SortedFixed(s);
    assert Runs(s) == [Run(65, 65)];
    Hex0041();
  }
}
