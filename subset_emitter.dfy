/** The emit loop of `main`: each non-empty group is handed to the
    external subsetting tool and, when that succeeds, contributes one style
    rule naming the subset file and the group's unicode-range descriptor.
    The tool, the file size and the stylesheet text are not modelled.
    Whether the whole `try` block for group `i` completes (the tool call,
    the size lookup and the progress line, any of which can raise) is the
    parameter `subsetSucceeds(i)`. */
module SubsetEmitter {
  import opened Numerals
  import opened Sorting
  import opened UnicodeRange
  import opened RangeSyntax
  import opened Wrappers
  import RangeExamples

  const FilePrefix := "AlibabaPuHuiTi-subset-"
  const FileSuffix := ".woff2"

  /** The subset file of group `i`: the fixed prefix, then three or more
      decimal digits that read back as `i`, then the suffix. */
  function SubsetFileName(i: nat): (name: string)
    ensures |name| >= |FilePrefix| + 3 + |FileSuffix|
    ensures name[..|FilePrefix|] == FilePrefix
    ensures name[|name| - |FileSuffix|..] == FileSuffix
    ensures AllDigits(name[|FilePrefix|..|name| - |FileSuffix|], 10)
    ensures Value(name[|FilePrefix|..|name| - |FileSuffix|], 10) == i
  {
    var name := FilePrefix + Dec3(i) + FileSuffix;
    assert name[|FilePrefix|..|name| - |FileSuffix|] == Dec3(i);
    name
  }

  /** `os.path.join(directory, name)` for a relative name on POSIX: a
      separator is inserted unless the directory is empty or already ends
      with one. */
  function JoinPath(directory: string, name: string): (path: string)
    ensures |path| >= |name| && path[|path| - |name|..] == name
  {
    if directory == [] then name
    else if directory[|directory| - 1] == '/' then directory + name
    else directory + "/" + name
  }

  /** The parts of a `@font-face` rule that depend on the group. */
  datatype StyleRule = StyleRule(src: string, unicodeRange: string)

  /** `[ord(char) for char in group]` */
  function CodesOf(group: seq<char>): (codes: seq<nat>)
    ensures |codes| == |group| && forall k :: 0 <= k < |group| ==> codes[k] == group[k] as nat
  {
    seq(|group|, k requires 0 <= k < |group| => group[k] as nat)
  }

  /** Group `i` yields a rule: it is non-empty and its subset was made. */
  predicate Emits(groups: seq<seq<char>>, subsetSucceeds: nat -> bool, i: nat)
    requires i < |groups|
  {
    groups[i] != [] && subsetSucceeds(i)
  }

  /** The rule built for group `i`: its source path ends with the
      group's own subset file, and its range is empty only for an empty
      group. */
  function RuleFor(groups: seq<seq<char>>, outputDir: string, i: nat): (rule: StyleRule)
    requires i < |groups|
    ensures |rule.src| >= |SubsetFileName(i)|
    ensures rule.src[|rule.src| - |SubsetFileName(i)|..] == SubsetFileName(i)
    ensures rule.unicodeRange == "" <==> groups[i] == []
  {
    StyleRule(JoinPath(outputDir, SubsetFileName(i)), UnicodeRangeOf(CodesOf(groups[i])))
  }

  /** The rules collected from the first `n` groups. */
  function Rules(groups: seq<seq<char>>, outputDir: string, subsetSucceeds: nat -> bool, n: nat): seq<StyleRule>
    requires n <= |groups|
  {
    if n == 0 then []
    else
      Rules(groups, outputDir, subsetSucceeds, n - 1) +
        (if Emits(groups, subsetSucceeds, n - 1) then [RuleFor(groups, outputDir, n - 1)] else [])
  }

  /** The indices of the first `n` groups that yield a rule, in order. */
  function Emitted(groups: seq<seq<char>>, subsetSucceeds: nat -> bool, n: nat): seq<nat>
    requires n <= |groups|
  {
    if n == 0 then []
    else Emitted(groups, subsetSucceeds, n - 1) + (if Emits(groups, subsetSucceeds, n - 1) then [n - 1] else [])
  }

  /** `for i, group in enumerate(groups)`: empty groups and groups whose
      subsetting fails are skipped, every other group appends its rule. */
  method EmitRules(groups: seq<seq<char>>, outputDir: string, subsetSucceeds: nat -> bool)
    returns (rules: seq<StyleRule>)
    ensures rules == Rules(groups, outputDir, subsetSucceeds, |groups|)
  {
    rules := [];
    var i := 0;
    while i < |groups|
      invariant 0 <= i <= |groups|
      invariant rules == Rules(groups, outputDir, subsetSucceeds, i)
    {
      var group := groups[i];
      if group != [] {
        var fileName := SubsetFileName(i);
        if subsetSucceeds(i) {
          var codes := new nat[|group|](k requires 0 <= k < |group| => group[k] as nat);
          assert codes[..] == CodesOf(group);
          var unicodeRange := CreateUnicodeRange(codes);
          rules := rules + [StyleRule(JoinPath(outputDir, fileName), unicodeRange)];
        }
      }
      i := i + 1;
    }
  }

  /** The emitted indices are exactly the groups that yield a rule, in
      ascending group order. */
  lemma {:induction false} EmittedExactly(groups: seq<seq<char>>, subsetSucceeds: nat -> bool, n: nat)
    requires n <= |groups|
    ensures StrictlyIncreasing(Emitted(groups, subsetSucceeds, n))
    ensures forall k :: 0 <= k < |Emitted(groups, subsetSucceeds, n)| ==> Emitted(groups, subsetSucceeds, n)[k] < n
    ensures forall i :: 0 <= i < n ==> (i in Emitted(groups, subsetSucceeds, n) <==> Emits(groups, subsetSucceeds, i))
  {
    if n > 0 {
      EmittedExactly(groups, subsetSucceeds, n - 1);
    }
  }

  /** Rule `k` of the stylesheet belongs to the `k`-th emitting group: the
      rules keep group order and skip nothing else. */
  lemma {:induction false} RulesFollowGroups(groups: seq<seq<char>>, outputDir: string, subsetSucceeds: nat -> bool, n: nat)
    requires n <= |groups|
    ensures |Rules(groups, outputDir, subsetSucceeds, n)| == |Emitted(groups, subsetSucceeds, n)|
    ensures forall k :: 0 <= k < |Emitted(groups, subsetSucceeds, n)| ==>
      Emitted(groups, subsetSucceeds, n)[k] < |groups| &&
      Rules(groups, outputDir, subsetSucceeds, n)[k] == RuleFor(groups, outputDir, Emitted(groups, subsetSucceeds, n)[k])
  {
    if n > 0 {
      RulesFollowGroups(groups, outputDir, subsetSucceeds, n - 1);
      var before, emittedBefore := Rules(groups, outputDir, subsetSucceeds, n - 1), Emitted(groups, subsetSucceeds, n - 1);
      var after, emittedAfter := Rules(groups, outputDir, subsetSucceeds, n), Emitted(groups, subsetSucceeds, n);
      if Emits(groups, subsetSucceeds, n - 1) {
        assert after == before + [RuleFor(groups, outputDir, n - 1)];
        assert emittedAfter == emittedBefore + [n - 1];
        forall k | 0 <= k < |emittedAfter|
          ensures emittedAfter[k] < |groups| && after[k] == RuleFor(groups, outputDir, emittedAfter[k])
        {
          if k < |emittedBefore| {
            assert after[k] == before[k] && emittedAfter[k] == emittedBefore[k];
          }
        }
      } else {
        assert after == before && emittedAfter == emittedBefore;
      }
    }
  }

  /** Failure isolation: when every group is non-empty and exactly one
      subsetting call fails, all the other groups still yield their rule. */
  lemma {:induction false} OneFailureLosesOneRule(groups: seq<seq<char>>, outputDir: string, subsetSucceeds: nat -> bool, failed: nat, n: nat)
    requires n <= |groups| && failed < |groups|
    requires forall i :: 0 <= i < |groups| ==> groups[i] != []
    requires forall i :: 0 <= i < |groups| ==> (subsetSucceeds(i) <==> i != failed)
    ensures |Rules(groups, outputDir, subsetSucceeds, n)| == if failed < n then n - 1 else n
  {
    if n > 0 {
      OneFailureLosesOneRule(groups, outputDir, subsetSucceeds, failed, n - 1);
    }
  }

  /** Different groups write different files. */
  lemma SubsetFileNamesDistinct(i: nat, j: nat)
    requires i != j
    ensures SubsetFileName(i) != SubsetFileName(j)
  {
  }

  lemma CodesOfMembers(group: seq<char>, c: char)
    ensures c as nat in CodesOf(group) <==> c in group
  {
    if c as nat in CodesOf(group) {
      var k :| 0 <= k < |group| && CodesOf(group)[k] == c as nat;
      assert group[k] == c;
    }
    if c in group {
      var k :| 0 <= k < |group| && group[k] == c;
      assert CodesOf(group)[k] == c as nat;
    }
  }

  /** The rule's descriptor is non-empty and reads back as runs that cover
      exactly the group's characters, pairwise apart when the group has no
      repeated character. */
  lemma RuleDescribesGroup(groups: seq<seq<char>>, outputDir: string, i: nat)
    requires i < |groups| && groups[i] != []
    ensures var runs := Runs(SortedSeq(CodesOf(groups[i])));
      && RuleFor(groups, outputDir, i).unicodeRange != ""
      && ParseRanges(RuleFor(groups, outputDir, i).unicodeRange) == Some(runs)
      && WellFormed(runs)
      && (forall c: char :: c in groups[i] <==> Covers(runs, c as nat))
      && (Distinct(CodesOf(groups[i])) ==> Separated(runs))
  {
    var codes := CodesOf(groups[i]);
    DescriptorDenotesGroup(codes);
    forall c: char
      ensures c in groups[i] <==> Covers(Runs(SortedSeq(codes)), c as nat)
    {
      CodesOfMembers(groups[i], c);
    }
  }

  /** A run whose only group is the character 'A' writes one rule, for
      subset 000, whose unicode-range is exactly `U+0041`. */
  lemma SingleGroupRule(subsetSucceeds: nat -> bool)
    requires subsetSucceeds(0)
    ensures Rules([['A']], "subsets", subsetSucceeds, 1) ==
      [StyleRule("subsets/" + "AlibabaPuHuiTi-subset-000.woff2", "U+0041")]
  {
    var groups := [['A']];
    FirstSubsetPath();
    assert CodesOf(['A']) == [65];
    RangeExamples.SingleA();
    assert RuleFor(groups, "subsets", 0) == StyleRule("subsets/" + "AlibabaPuHuiTi-subset-000.woff2", "U+0041");
    assert Emits(groups, subsetSucceeds, 0);
  }

  lemma FirstSubsetPath()
    ensures JoinPath("subsets", SubsetFileName(0)) == "subsets/" + "AlibabaPuHuiTi-subset-000.woff2"
  {
    FirstSubsetName();
    var directory := "subsets";
    assert directory[|directory| - 1] == 's';
    JoinAddsSeparator(directory, "AlibabaPuHuiTi-subset-000.woff2");
    assert directory + "/" == "subsets/";
  }

  lemma JoinAddsSeparator(directory: string, name: string)
    requires directory != [] && directory[|directory| - 1] != '/'
    ensures JoinPath(directory, name) == directory + "/" + name
  {
  }

  lemma FirstSubsetName()
    ensures SubsetFileName(0) == "AlibabaPuHuiTi-subset-000.woff2"
  {
    ZeroPadded();
  }

  lemma ZeroPadded()
    ensures Dec3(0) == "000"
  {
  }
}
