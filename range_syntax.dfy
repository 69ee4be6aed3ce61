/**
 * Reading a `unicode-range` value back: the grammar of the descriptor's
 * comma-separated list (`U+` hex digits, optionally `-` and more hex
 * digits), used to show that the text `create_unicode_range` writes denotes
 * exactly the runs it computed and hence exactly the group's code points.
 */
module RangeSyntax {
  import opened Wrappers
  import opened Text
  import opened Numerals
  import opened Sorting
  import opened UnicodeRange

  /** The length of the longest prefix of hex digits. */
  function ScanHex(s: string): (n: nat)
    ensures n <= |s| && AllDigits(s[..n], 16)
    ensures n < |s| ==> !IsHexDigit(s[n])
  {
    if s != [] && IsHexDigit(s[0]) then
      var n := 1 + ScanHex(s[1..]);
      assert s[..n] == [s[0]] + s[1..][..n - 1];
      n
    else 0
  }

  /** One code point: at least one hex digit. */
  function ParseCodePoint(s: string): Option<(nat, string)>
  {
    var n := ScanHex(s);
    if n == 0 then None else Some((Value(s[..n], 16), s[n..]))
  }

  /** One item: `U+hex` or `U+hex-hex`. */
  function ParseRun(s: string): (r: Option<(Run, string)>)
    ensures r.Some? ==> |r.value.1| < |s|
  {
    if |s| >= 2 && s[0] == 'U' && s[1] == '+' then ParseRunBody(s[2..]) else None
  }

  function ParseRunBody(s: string): (r: Option<(Run, string)>)
    ensures r.Some? ==> |r.value.1| < |s|
  {
    match ParseCodePoint(s)
    case None => None
    case Some((first, rest)) =>
      if rest != [] && rest[0] == '-' then
        match ParseCodePoint(rest[1..])
        case None => None
        case Some((last, rest')) => Some((Run(first, last), rest'))
      else Some((Run(first, first), rest))
  }

  /** A whole value: items separated by `", "`; the empty text is no items. */
  function ParseRanges(s: string): Option<seq<Run>>
  {
    if s == [] then Some([]) else ParseItems(s)
  }

  function ParseItems(s: string): Option<seq<Run>>
    decreases |s|
  {
    match ParseRun(s)
    case None => None
    case Some((r, rest)) =>
      if rest == [] then Some([r])
      else if |rest| >= 2 && rest[0] == ',' && rest[1] == ' ' then
        match ParseItems(rest[2..])
        case None => None
        case Some(more) => Some([r] + more)
      else None
  }

  lemma ScanHexOf(h: string, tail: string)
    requires h != [] && AllDigits(h, 16)
    requires tail == [] || !IsHexDigit(tail[0])
    ensures ScanHex(h + tail) == |h|
    decreases |h|
  {
    if |h| > 1 {
      assert (h + tail)[1..] == h[1..] + tail;
      ScanHexOf(h[1..], tail);
    } else {
      assert (h + tail)[1..] == tail;
    }
  }

  lemma ParseCodePointOf(n: nat, tail: string)
    requires tail == [] || !IsHexDigit(tail[0])
    ensures ParseCodePoint(Hex4(n) + tail) == Some((n, tail))
  {
    var h := Hex4(n);
    ScanHexOf(h, tail);
    assert (h + tail)[..|h|] == h;
    assert (h + tail)[|h|..] == tail;
  }

  /** An item followed by a separator or by nothing reads back as its run. */
  lemma ParseRenderedRun(r: Run, tail: string)
    requires tail == [] || tail[0] == ','
    ensures ParseRun(RenderRun(r) + tail) == Some((r, tail))
  {
    var h := Hex4(r.first);
    if r.first == r.last {
      assert RenderRun(r) + tail == "U+" + (h + tail);
      ParseRunPrefix(h + tail);
      ParseSinglePoint(r.first, tail);
    } else {
      var h' := Hex4(r.last);
      assert RenderRun(r) + tail == "U+" + (h + "-" + h' + tail);
      ParseRunPrefix(h + "-" + h' + tail);
      ParsePointRange(r.first, r.last, tail);
    }
  }

  lemma ParseRunPrefix(body: string)
    ensures ParseRun("U+" + body) == ParseRunBody(body)
  {
    assert ("U+" + body)[2..] == body;
  }

  lemma ParseSinglePoint(n: nat, tail: string)
    requires tail == [] || tail[0] == ','
    ensures ParseRunBody(Hex4(n) + tail) == Some((Run(n, n), tail))
  {
    ParseCodePointOf(n, tail);
  }

  lemma ParsePointRange(first: nat, last: nat, tail: string)
    requires tail == [] || tail[0] == ','
    ensures ParseRunBody(Hex4(first) + "-" + Hex4(last) + tail) == Some((Run(first, last), tail))
  {
    var a, b := Hex4(first), Hex4(last);
    var rest := ['-'] + (b + tail);
    assert a + "-" + b + tail == a + rest;
    ParseCodePointOf(first, rest);
    assert rest[1..] == b + tail;
    ParseCodePointOf(last, tail);
    RunBodyRange(a + rest, first, rest, last, tail);
  }

  lemma RunBodyRange(body: string, first: nat, rest: string, last: nat, tail: string)
    requires ParseCodePoint(body) == Some((first, rest))
    requires rest != [] && rest[0] == '-'
    requires ParseCodePoint(rest[1..]) == Some((last, tail))
    ensures ParseRunBody(body) == Some((Run(first, last), tail))
  {
  }

  /** The written value reads back as exactly the runs it was written from. */
  lemma {:induction false} ParseRenderedRuns(runs: seq<Run>)
    ensures ParseRanges(RenderRuns(runs)) == Some(runs)
    decreases |runs|
  {
    if runs != [] {
      ParseRenderedItems(runs);
    }
  }

  lemma {:induction false} ParseRenderedItems(runs: seq<Run>)
    requires runs != []
    ensures ParseItems(RenderRuns(runs)) == Some(runs)
    decreases |runs|
  {
    if |runs| == 1 {
      ParseLastItem(runs[0]);
      assert runs == [runs[0]];
    } else {
      ParseRenderedItems(runs[1..]);
      ParseNextItem(runs[0], runs[1..]);
      assert runs == [runs[0]] + runs[1..];
    }
  }

  lemma ParseLastItem(r: Run)
    ensures ParseItems(RenderRuns([r])) == Some([r])
  {
    assert RenderRuns([r]) == RenderRun(r) + [];
    ParseRenderedRun(r, []);
  }

  lemma ParseNextItem(r: Run, more: seq<Run>)
    requires more != []
    ensures ParseItems(RenderRuns([r] + more)) ==
      match ParseItems(RenderRuns(more))
      case None => None
      case Some(rs) => Some([r] + rs)
  {
    var tail := ", " + RenderRuns(more);
    assert RenderAll([r] + more) == [RenderRun(r)] + RenderAll(more);
    assert RenderRuns([r] + more) == RenderRun(r) + tail;
    ParseRenderedRun(r, tail);
    assert tail[0] == ',' && tail[1] == ' ' && tail[2..] == RenderRuns(more);
  }

  /** The value written for a group denotes exactly the group: it reads back
      as runs that cover precisely the group's code points, and for
      distinct points those runs are ascending and maximal. */
  lemma DescriptorDenotesGroup(codes: seq<nat>)
    ensures var runs := Runs(SortedSeq(codes));
      && ParseRanges(UnicodeRangeOf(codes)) == Some(runs)
      && WellFormed(runs)
      && (forall x :: x in codes <==> Covers(runs, x))
      && (Distinct(codes) ==> Separated(runs))
  {
    var sorted := SortedSeq(codes);
    var runs := Runs(sorted);
    ParseRenderedRuns(runs);
    RunsShape(sorted);
    forall x
      ensures x in codes <==> Covers(runs, x)
    {
      RunsCover(sorted, x);
      assert x in codes <==> x in multiset(codes);
      assert x in sorted <==> x in multiset(sorted);
    }
    if Distinct(codes) {
      SortedDistinct(codes);
      RunsSeparated(sorted);
    }
  }
}
