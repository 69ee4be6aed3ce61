/** The body of `main` after argument checking: load the table, read the
    font's characters, rank them, cut the ranking into groups and emit a
    rule per subset. Files are replaced by their contents: the frequency
    file by its lines, the font by its cmap subtables' keys. */
module FontSplitter {
  import opened FrequencyTable
  import opened FontInspector
  import opened Ranking
  import opened Partition
  import opened SubsetEmitter

  predicate NoRepeats(s: seq<char>)
  {
    forall i, j :: 0 <= i < j < |s| ==> s[i] != s[j]
  }

  /** The characters a font contributes to the subsets. */
  predicate Kept(tables: seq<seq<int>>, isControlLike: char -> bool, c: char)
  {
    InCmap(tables, c as int) && c != '\0' && !isControlLike(c)
  }

  /** `names` are listed in non-increasing frequency. */
  predicate ByFrequency(names: seq<char>, table: map<string, int>)
  {
    forall i, j :: 0 <= i < j < |names| ==> FrequencyOf(table, names[i]) >= FrequencyOf(table, names[j])
  }

  /** Among characters of equal frequency, `names` follow code-point order. */
  predicate TiesInCodeOrder(names: seq<char>, table: map<string, int>)
  {
    forall i, j :: 0 <= i < j < |names| && FrequencyOf(table, names[i]) == FrequencyOf(table, names[j]) ==>
      names[i] < names[j]
  }

  /** The whole of `main` after argument checking. With at least one group,
      the groups hold each kept font character exactly once, ranked by
      descending frequency with ties in code-point order, and group `i` is
      the slice of that ranking between boundaries `i` and `i + 1`; one rule
      is produced per group. */
  method SplitFont(lines: seq<string>, tables: seq<seq<int>>, isControlLike: char -> bool,
                   groupCount: int, outputDir: string, subsetSucceeds: nat -> bool)
    returns (groups: seq<seq<char>>, rules: seq<StyleRule>)
    ensures |groups| == if groupCount > 0 then groupCount else 0
    ensures groupCount > 0 ==> forall c :: c in Flatten(groups) <==> Kept(tables, isControlLike, c)
    ensures NoRepeats(Flatten(groups))
    ensures ByFrequency(Flatten(groups), TableOf(Outcomes(lines)))
    ensures TiesInCodeOrder(Flatten(groups), TableOf(Outcomes(lines)))
    ensures groupCount > 0 ==> SlicedAtBoundaries(groups, Flatten(groups), groupCount)
    ensures rules == Rules(groups, outputDir, subsetSucceeds, |groups|)
  {
    var table, warnings := LoadFrequencyData(lines);
    var chars := GetCharsFromFont(tables, isControlLike);
    var ranked := RankCharacters(chars, table);
    groups := PartitionGroups(ranked, groupCount);
    rules := EmitRules(groups, outputDir, subsetSucceeds);
    ghost var names := CharsOf(ranked);
    RankedChars(chars, table);
    assert forall c :: c in names <==> Kept(tables, isControlLike, c);
    if groupCount > 0 {
      assert Flatten(groups) == names;
    } else {
      assert Flatten(groups) == [];
    }
  }

  /** The ranked list, reduced to its characters, lists each font
      character once, in non-increasing frequency, characters of equal
      frequency in code-point order. */
  lemma RankedChars(chars: seq<char>, table: map<string, int>)
    requires StrictlyAscending(chars)
    ensures forall c :: c in CharsOf(RankedList(chars, table)) <==> c in chars
    ensures NoRepeats(CharsOf(RankedList(chars, table)))
    ensures ByFrequency(CharsOf(RankedList(chars, table)), table)
    ensures TiesInCodeOrder(CharsOf(RankedList(chars, table)), table)
  {
    RankedListFacts(chars, table);
    RankedMembers(chars, table);
    RankedDistinct(chars, table);
    RankedOrder(chars, table);
  }

  lemma RankedMembers(chars: seq<char>, table: map<string, int>)
    requires StrictlyAscending(chars)
    requires forall e :: e in RankedList(chars, table) <==> e.ch in chars && e.freq == FrequencyOf(table, e.ch)
    ensures forall c :: c in CharsOf(RankedList(chars, table)) <==> c in chars
  {
    var ranked := RankedList(chars, table);
    var names := CharsOf(ranked);
    forall c
      ensures c in names <==> c in chars
    {
      if c in names {
        var k :| 0 <= k < |names| && names[k] == c;
        assert ranked[k] in ranked;
      }
      if c in chars {
        assert CharFreq(c, FrequencyOf(table, c)) in ranked;
        var k :| 0 <= k < |ranked| && ranked[k] == CharFreq(c, FrequencyOf(table, c));
        assert names[k] == c;
      }
    }
  }

  lemma RankedDistinct(chars: seq<char>, table: map<string, int>)
    requires StrictlyAscending(chars)
    requires multiset(RankedList(chars, table)) == multiset(Pairs(chars, table))
    requires forall e :: e in RankedList(chars, table) <==> e.ch in chars && e.freq == FrequencyOf(table, e.ch)
    ensures NoRepeats(CharsOf(RankedList(chars, table)))
  {
    var pairs := Pairs(chars, table);
    var ranked := RankedList(chars, table);
    var names := CharsOf(ranked);
    DistinctPairs(chars, table);
    CountsAtMostOne(pairs);
    assert NoRepeatedEntries(ranked) by {
      RepeatedEntryCounts(ranked);
    }
    forall i, j | 0 <= i < j < |names|
      ensures names[i] != names[j]
    {
      assert ranked[i] in ranked && ranked[j] in ranked;
    }
  }

  lemma RankedOrder(chars: seq<char>, table: map<string, int>)
    requires Descending(RankedList(chars, table)) && TiesAscending(RankedList(chars, table))
    requires forall e :: e in RankedList(chars, table) <==> e.ch in chars && e.freq == FrequencyOf(table, e.ch)
    ensures ByFrequency(CharsOf(RankedList(chars, table)), table)
    ensures TiesInCodeOrder(CharsOf(RankedList(chars, table)), table)
  {
    var ranked := RankedList(chars, table);
    var names := CharsOf(ranked);
    forall i, j | 0 <= i < j < |names|
      ensures FrequencyOf(table, names[i]) >= FrequencyOf(table, names[j])
      ensures FrequencyOf(table, names[i]) == FrequencyOf(table, names[j]) ==> names[i] < names[j]
    {
      assert ranked[i] in ranked && ranked[j] in ranked;
    }
  }

  predicate NoRepeatedEntries(s: seq<CharFreq>)
  {
    forall i, j :: 0 <= i < j < |s| ==> s[i] != s[j]
  }

  lemma DistinctPairs(chars: seq<char>, table: map<string, int>)
    requires StrictlyAscending(chars)
    ensures NoRepeatedEntries(Pairs(chars, table))
  {
    var pairs := Pairs(chars, table);
    forall i, j | 0 <= i < j < |pairs|
      ensures pairs[i] != pairs[j]
    {
      assert pairs[i].ch == chars[i] && pairs[j].ch == chars[j];
    }
  }

  lemma {:induction false} CountsAtMostOne(s: seq<CharFreq>)
    requires NoRepeatedEntries(s)
    ensures forall x :: multiset(s)[x] <= 1
  {
    if s != [] {
      var init, last := s[..|s| - 1], s[|s| - 1];
      assert s == init + [last];
      CountsAtMostOne(init);
      assert forall k :: 0 <= k < |init| ==> init[k] == s[k] != last;
      assert last !in init;
    }
  }

  lemma RepeatedEntryCounts(s: seq<CharFreq>)
    requires forall x :: multiset(s)[x] <= 1
    ensures NoRepeatedEntries(s)
  {
    forall i, j | 0 <= i < j < |s|
      ensures s[i] != s[j]
    {
      assert s == s[..j] + [s[j]] + s[j + 1..];
      assert s[i] in s[..j];
      assert multiset(s)[s[j]] >= multiset(s[..j])[s[j]] + 1;
    }
  }
}
