/** The ranking block of `main`: every font character is paired with its
    table frequency (0 when absent), then the list is sorted in place by
    frequency, descending, with Python's stable `list.sort`. */
module Ranking {
  import opened FontInspector

  datatype CharFreq = CharFreq(ch: char, freq: int)

  /** `freq_data.get(char, 0)`: the table is keyed by strings, a font
      character is looked up as the one-character string. */
  function FrequencyOf(table: map<string, int>, c: char): (f: int)
    ensures [c] in table ==> f == table[[c]]
    ensures f != 0 ==> [c] in table
  {
    if [c] in table then table[[c]] else 0
  }

  /** The list `(char, freq)` built before sorting. */
  function Pairs(chars: seq<char>, table: map<string, int>): (list: seq<CharFreq>)
    ensures |list| == |chars|
    ensures forall i :: 0 <= i < |chars| ==> list[i].ch == chars[i] && list[i].freq == FrequencyOf(table, chars[i])
  {
    if chars == [] then []
    else Pairs(chars[..|chars| - 1], table) + [CharFreq(chars[|chars| - 1], FrequencyOf(table, chars[|chars| - 1]))]
  }

  /** The loop appending `(char, freq_data.get(char, 0))`. */
  method PairWithFrequency(chars: seq<char>, table: map<string, int>) returns (list: seq<CharFreq>)
    ensures list == Pairs(chars, table)
  {
    list := [];
    var k := 0;
    while k < |chars|
      invariant 0 <= k <= |chars|
      invariant list == Pairs(chars[..k], table)
    {
      assert chars[..k + 1][..k] == chars[..k];
      list := list + [CharFreq(chars[k], FrequencyOf(table, chars[k]))];
      k := k + 1;
    }
    assert chars[..k] == chars;
  }

  /** Non-increasing frequency from front to back. */
  predicate Descending(s: seq<CharFreq>)
  {
    forall i, j :: 0 <= i < j < |s| ==> s[i].freq >= s[j].freq
  }

  /** The entries of frequency `f`, in list order. Stability means this
      subsequence is the same before and after sorting. */
  function WithFreq(s: seq<CharFreq>, f: int): seq<CharFreq>
  {
    if s == [] then []
    else WithFreq(s[..|s| - 1], f) + (if s[|s| - 1].freq == f then [s[|s| - 1]] else [])
  }

  /** One insertion step of a stable descending sort: `x` moves left past
      the entries of strictly smaller frequency and stops behind its ties. */
  function InsertAfterTies(s: seq<CharFreq>, x: CharFreq): seq<CharFreq>
  {
    if s == [] || s[|s| - 1].freq >= x.freq then s + [x]
    else InsertAfterTies(s[..|s| - 1], x) + [s[|s| - 1]]
  }

  /** The order `char_freq_list.sort(key=lambda x: x[1], reverse=True)`
      leaves the list in: frequencies descending, as many entries as
      before (`SortedPermutes` shows they are the same entries). */
  function SortByFrequency(s: seq<CharFreq>): (r: seq<CharFreq>)
    ensures Descending(r)
    ensures |r| == |s|
  {
    if s == [] then []
    else
      var init, last := s[..|s| - 1], s[|s| - 1];
      var sortedInit := SortByFrequency(init);
      InsertAfterTiesDescending(sortedInit, last);
      InsertAfterTiesPermutes(sortedInit, last);
      assert |multiset(InsertAfterTies(sortedInit, last))| == |multiset(sortedInit)| + 1;
      InsertAfterTies(sortedInit, last)
  }

  /** The ranked list of `main`. */
  function RankedList(chars: seq<char>, table: map<string, int>): seq<CharFreq>
  {
    SortByFrequency(Pairs(chars, table))
  }

  predicate AscendingChars(s: seq<CharFreq>)
  {
    forall i, j :: 0 <= i < j < |s| ==> s[i].ch < s[j].ch
  }

  lemma WithFreqSnoc(s: seq<CharFreq>, x: CharFreq, f: int)
    ensures WithFreq(s + [x], f) == WithFreq(s, f) + (if x.freq == f then [x] else [])
  {
    assert (s + [x])[..|s|] == s;
  }

  lemma {:induction false} WithFreqMembers(s: seq<CharFreq>, f: int, x: CharFreq)
    ensures x in WithFreq(s, f) <==> x in s && x.freq == f
  {
    if s != [] {
      var init := s[..|s| - 1];
      WithFreqMembers(init, f, x);
      assert s == init + [s[|s| - 1]];
    }
  }

  lemma {:induction false} InsertAfterTiesPermutes(s: seq<CharFreq>, x: CharFreq)
    ensures multiset(InsertAfterTies(s, x)) == multiset(s) + multiset{x}
    decreases |s|
  {
    if s != [] && s[|s| - 1].freq < x.freq {
      var init, last := s[..|s| - 1], s[|s| - 1];
      assert s == init + [last];
      InsertAfterTiesPermutes(init, x);
    }
  }

  lemma {:induction false} InsertAfterTiesStable(s: seq<CharFreq>, x: CharFreq, f: int)
    ensures WithFreq(InsertAfterTies(s, x), f) == WithFreq(s, f) + (if x.freq == f then [x] else [])
    decreases |s|
  {
    if s == [] || s[|s| - 1].freq >= x.freq {
      WithFreqSnoc(s, x, f);
    } else {
      var init, last := s[..|s| - 1], s[|s| - 1];
      assert s == init + [last];
      InsertAfterTiesStable(init, x, f);
      WithFreqSnoc(InsertAfterTies(init, x), last, f);
      WithFreqSnoc(init, last, f);
    }
  }

  lemma {:induction false} InsertAfterTiesDescending(s: seq<CharFreq>, x: CharFreq)
    requires Descending(s)
    ensures Descending(InsertAfterTies(s, x))
    decreases |s|
  {
    if s != [] && s[|s| - 1].freq < x.freq {
      var init, last := s[..|s| - 1], s[|s| - 1];
      assert s == init + [last];
      InsertAfterTiesDescending(init, x);
      var r := InsertAfterTies(init, x);
      InsertAfterTiesPermutes(init, x);
      forall i | 0 <= i < |r|
        ensures r[i].freq >= last.freq
      {
        assert r[i] in multiset(r);
        if r[i] != x {
          assert r[i] in multiset(init);
          var k :| 0 <= k < |init| && init[k] == r[i];
          assert s[k] == r[i];
        }
      }
    }
  }

  /** The sort rearranges the list without losing or adding an entry ... */
  lemma {:induction false} SortedPermutes(s: seq<CharFreq>)
    ensures multiset(SortByFrequency(s)) == multiset(s)
  {
    if s != [] {
      var init, last := s[..|s| - 1], s[|s| - 1];
      SortedPermutes(init);
      InsertAfterTiesPermutes(SortByFrequency(init), last);
      assert SortByFrequency(s) == InsertAfterTies(SortByFrequency(init), last);
      assert s == init + [last];
      assert multiset(s) == multiset(init) + multiset{last};
    }
  }

  /** ... and is stable: the entries of each frequency keep their order. */
  lemma {:induction false} SortedStable(s: seq<CharFreq>, f: int)
    ensures WithFreq(SortByFrequency(s), f) == WithFreq(s, f)
  {
    if s != [] {
      var init := s[..|s| - 1];
      SortedStable(init, f);
      InsertAfterTiesStable(SortByFrequency(init), s[|s| - 1], f);
    }
  }

  /** A descending list is determined by its per-frequency subsequences,
      so every stable descending sort gives the same list: the ranking is
      deterministic. */
  lemma {:induction false} StableOrderUnique(a: seq<CharFreq>, b: seq<CharFreq>)
    requires Descending(a) && Descending(b)
    requires forall f :: WithFreq(a, f) == WithFreq(b, f)
    ensures a == b
    decreases |a|
  {
    assert a != [] ==> WithFreq(b, a[|a| - 1].freq) != [] by {
      if a != [] {
        WithFreqMembers(a, a[|a| - 1].freq, a[|a| - 1]);
      }
    }
    assert b != [] ==> WithFreq(a, b[|b| - 1].freq) != [] by {
      if b != [] {
        WithFreqMembers(b, b[|b| - 1].freq, b[|b| - 1]);
      }
    }
    if a != [] && b != [] {
      var fa, fb := a[|a| - 1].freq, b[|b| - 1].freq;
      LastIsLeast(a, fb);
      LastIsLeast(b, fa);
      assert fa == fb;
      var ia, ib := a[..|a| - 1], b[..|b| - 1];
      var la, lb := a[|a| - 1], b[|b| - 1];
      assert a == ia + [la] && b == ib + [lb];
      assert la == lb by {
        WithFreqSnoc(ia, la, fa);
        WithFreqSnoc(ib, lb, fa);
        var w := WithFreq(a, fa);
        assert w == WithFreq(b, fa);
        assert w[|w| - 1] == la && w[|w| - 1] == lb;
      }
      forall f
        ensures WithFreq(ia, f) == WithFreq(ib, f)
      {
        WithFreqSnoc(ia, la, f);
        WithFreqSnoc(ib, lb, f);
        assert WithFreq(a, f) == WithFreq(b, f);
        if f == fa {
          var w := WithFreq(a, f);
          assert w[..|w| - 1] == WithFreq(ia, f);
          assert w[..|w| - 1] == WithFreq(ib, f);
        } else {
          assert WithFreq(ia, f) + [] == WithFreq(ia, f);
          assert WithFreq(ib, f) + [] == WithFreq(ib, f);
        }
      }
      StableOrderUnique(ia, ib);
    }
  }

  lemma LastIsLeast(s: seq<CharFreq>, f: int)
    requires Descending(s) && s != [] && WithFreq(s, f) != []
    ensures s[|s| - 1].freq <= f
  {
    var x := WithFreq(s, f)[0];
    WithFreqMembers(s, f, x);
    var k :| 0 <= k < |s| && s[k] == x;
  }

  /** A subsequence of a list in ascending character order is itself in
      ascending character order. */
  lemma {:induction false} WithFreqAscending(s: seq<CharFreq>, f: int)
    requires AscendingChars(s)
    ensures AscendingChars(WithFreq(s, f))
  {
    if s != [] {
      var init, last := s[..|s| - 1], s[|s| - 1];
      WithFreqAscending(init, f);
      var w := WithFreq(init, f);
      forall i | 0 <= i < |w|
        ensures w[i].ch < last.ch
      {
        WithFreqMembers(init, f, w[i]);
        var k :| 0 <= k < |init| && init[k] == w[i];
        assert s[k] == w[i];
      }
    }
  }

  lemma {:induction false} PairsAscending(chars: seq<char>, table: map<string, int>)
    requires StrictlyAscending(chars)
    ensures AscendingChars(Pairs(chars, table))
  {
  }

  /** Entries of equal frequency appear in ascending character order. */
  predicate TiesAscending(s: seq<CharFreq>)
  {
    forall i, j :: 0 <= i < j < |s| && s[i].freq == s[j].freq ==> s[i].ch < s[j].ch
  }

  /** If every frequency's subsequence is in ascending character order,
      so are the ties of the whole list. */
  lemma {:induction false} TiesAscendingFromClasses(s: seq<CharFreq>)
    requires forall f :: AscendingChars(WithFreq(s, f))
    ensures TiesAscending(s)
  {
    if s != [] {
      var init, last := s[..|s| - 1], s[|s| - 1];
      assert s == init + [last];
      forall f
        ensures AscendingChars(WithFreq(init, f))
      {
        WithFreqSnoc(init, last, f);
        var w := WithFreq(s, f);
        assert forall k :: 0 <= k < |WithFreq(init, f)| ==> WithFreq(init, f)[k] == w[k];
      }
      TiesAscendingFromClasses(init);
      forall i | 0 <= i < |init| && init[i].freq == last.freq
        ensures init[i].ch < last.ch
      {
        var f := last.freq;
        WithFreqSnoc(init, last, f);
        var w := WithFreq(init, f);
        WithFreqMembers(init, f, init[i]);
        var k :| 0 <= k < |w| && w[k] == init[i];
        var whole := WithFreq(s, f);
        assert whole == w + [last];
        assert whole[k] == init[i] && whole[|w|] == last;
      }
      forall i, j | 0 <= i < j < |s| && s[i].freq == s[j].freq
        ensures s[i].ch < s[j].ch
      {
        if j < |s| - 1 {
          assert s[i] == init[i] && s[j] == init[j];
        } else {
          assert s[i] == init[i];
        }
      }
    }
  }

  /** What the source promises of the ranked list: one entry per font
      character carrying its table frequency (0 when absent), frequencies
      descending, and ties in ascending code-point order. */
  lemma RankedListFacts(chars: seq<char>, table: map<string, int>)
    requires StrictlyAscending(chars)
    ensures Descending(RankedList(chars, table))
    ensures multiset(RankedList(chars, table)) == multiset(Pairs(chars, table))
    ensures forall e :: e in RankedList(chars, table) <==> e.ch in chars && e.freq == FrequencyOf(table, e.ch)
    ensures forall f :: AscendingChars(WithFreq(RankedList(chars, table), f))
    ensures TiesAscending(RankedList(chars, table))
  {
    var pairs := Pairs(chars, table);
    SortedPermutes(pairs);
    PairsAscending(chars, table);
    forall f
      ensures AscendingChars(WithFreq(RankedList(chars, table), f))
    {
      SortedStable(pairs, f);
      WithFreqAscending(pairs, f);
    }
    TiesAscendingFromClasses(RankedList(chars, table));
    forall e
      ensures e in RankedList(chars, table) <==> e.ch in chars && e.freq == FrequencyOf(table, e.ch)
    {
      assert e in RankedList(chars, table) <==> e in multiset(pairs);
      if e.ch in chars {
        var k :| 0 <= k < |chars| && chars[k] == e.ch;
        if e.freq == FrequencyOf(table, e.ch) {
          assert pairs[k] == e;
        }
      }
    }
  }

  lemma InsertShift(s: seq<CharFreq>, j: nat, x: CharFreq)
    requires 0 < j <= |s| && s[j - 1].freq < x.freq
    ensures InsertAfterTies(s[..j], x) + s[j..] == InsertAfterTies(s[..j - 1], x) + s[j - 1..]
  {
    assert s[..j][..j - 1] == s[..j - 1];
    assert s[j - 1..] == [s[j - 1]] + s[j..];
  }

  lemma SortStep(s: seq<CharFreq>, i: nat)
    requires i < |s|
    ensures SortByFrequency(s[..i + 1]) == InsertAfterTies(SortByFrequency(s[..i]), s[i])
  {
    assert s[..i + 1][..i] == s[..i];
  }

  lemma SortPrefixStep(input: seq<CharFreq>, i: nat, before: seq<CharFreq>, after: seq<CharFreq>)
    requires i < |input|
    requires before == SortByFrequency(input[..i])
    requires after == InsertAfterTies(before, input[i])
    ensures after == SortByFrequency(input[..i + 1])
  {
    SortStep(input, i);
  }

  /** `char_freq_list.sort(key=lambda x: x[1], reverse=True)`: a stable
      insertion sort in place. */
  method SortByFrequencyInPlace(a: array<CharFreq>)
    modifies a
    ensures a[..] == SortByFrequency(old(a[..]))
  {
    ghost var input := a[..];
    var i := 0;
    while i < a.Length
      invariant 0 <= i <= a.Length
      invariant a[..i] == SortByFrequency(input[..i])
      invariant a[i..] == input[i..]
    {
      ghost var before := a[..i];
      ghost var rest := a[i + 1..];
      assert a[i] == input[i];
      InsertEntry(a, i);
      SortPrefixStep(input, i, before, a[..i + 1]);
      assert a[i + 1..] == rest == input[i + 1..];
      i := i + 1;
    }
    assert a[..i] == a[..] && input[..i] == input;
  }

  /** One pass of the insertion sort: `a[i]` moves left past the entries
      of strictly smaller frequency. */
  method InsertEntry(a: array<CharFreq>, i: nat)
    requires i < a.Length
    modifies a
    ensures a[..i + 1] == InsertAfterTies(old(a[..i]), old(a[i]))
    ensures a[i + 1..] == old(a[i + 1..])
  {
    ghost var sorted, x, tail := a[..i], a[i], a[i + 1..];
    var j := i;
    assert a[..] == sorted[..j] + [x] + sorted[j..] + tail;
    assert sorted[..j] == sorted;
    while j > 0 && a[j - 1].freq < a[j].freq
      invariant 0 <= j <= i
      invariant a[..] == sorted[..j] + [x] + sorted[j..] + tail
      invariant InsertAfterTies(sorted[..j], x) + sorted[j..] == InsertAfterTies(sorted, x)
    {
      ghost var before := a[..];
      Positions(sorted, j, x, tail, before);
      InsertShift(sorted, j, x);
      a[j - 1], a[j] := a[j], a[j - 1];
      ShiftLeft(sorted, j, x, tail, before, a[..]);
      j := j - 1;
    }
    assert InsertAfterTies(sorted[..j], x) == sorted[..j] + [x];
    Split3(sorted[..j] + [x] + sorted[j..], tail, a[..]);
  }

  lemma Positions(sorted: seq<CharFreq>, j: nat, x: CharFreq, tail: seq<CharFreq>, s: seq<CharFreq>)
    requires 0 < j <= |sorted| && s == sorted[..j] + [x] + sorted[j..] + tail
    ensures s[j - 1] == sorted[j - 1] && s[j] == x
  {
  }

  /** Exchanging `x` with its left neighbour moves it one place left. */
  lemma ShiftLeft(sorted: seq<CharFreq>, j: nat, x: CharFreq, tail: seq<CharFreq>, s: seq<CharFreq>, r: seq<CharFreq>)
    requires 0 < j <= |sorted| && s == sorted[..j] + [x] + sorted[j..] + tail
    requires r == s[j - 1 := s[j]][j := s[j - 1]]
    ensures r == sorted[..j - 1] + [x] + sorted[j - 1..] + tail
  {
    var t := sorted[..j - 1] + [x] + sorted[j - 1..] + tail;
    assert |r| == |t|;
    forall k | 0 <= k < |r|
      ensures r[k] == t[k]
    {
      if k < j - 1 {
        assert r[k] == s[k] == sorted[k];
      } else if k > j {
        assert r[k] == s[k];
      }
    }
  }

  lemma Split3(front: seq<CharFreq>, tail: seq<CharFreq>, s: seq<CharFreq>)
    requires s == front + tail
    ensures s[..|front|] == front && s[|front|..] == tail
  {
  }

  /** The ranking block of `main`: pair, copy into the list, sort it. */
  method RankCharacters(chars: seq<char>, table: map<string, int>) returns (ranked: seq<CharFreq>)
    ensures ranked == RankedList(chars, table)
  {
    var pairs := PairWithFrequency(chars, table);
    var list := new CharFreq[|pairs|](k requires 0 <= k < |pairs| => pairs[k]);
    assert list[..] == pairs;
    SortByFrequencyInPlace(list);
    ranked := list[..];
  }
}
