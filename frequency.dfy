/**
 * The frequency loader (`load_frequency_data`): a text table of
 * `character<TAB>count` or `character,count` lines becomes a map from
 * character to count. The file is given as its sequence of lines.
 */
module FrequencyTable {
  import opened Wrappers
  import opened Text
  import opened Numerals

  /** What the loader makes of one line of the file. */
  datatype LineOutcome =
    | Ignored                          // blank after stripping, or a `#` comment
    | TooFewFields(line: string)       // no separator at all: warned about, skipped
    | InvalidFrequency(field: string)  // `int()` rejects the second field: warned about, skipped
    | Entry(key: string, freq: int)

  /** The two diagnostics the loader prints; neither stops loading. */
  datatype Warning =
    | MalformedLine(lineNumber: nat, line: string)
    | InvalidFrequencyValue(lineNumber: nat, field: string)

  /** The separator of a line: a tab when the line has one, a comma
      otherwise. */
  function Separator(line: string): char
  {
    if '\t' in line then '\t' else ','
  }

  /** `line.split(sep)` with the line's separator. */
  function Fields(line: string): seq<string>
  {
    Split(line, Separator(line))
  }

  /** One stripped line decides its outcome: blank and `#` lines are
      ignored; a line with neither a tab nor a comma has too few fields;
      otherwise the key is the text before the first separator, and the
      line is accepted exactly when `int()` takes the second field. */
  function ClassifyLine(raw: string): (r: LineOutcome)
    ensures var line := Strip(raw);
      && (r.Ignored? <==> line == [] || line[0] == '#')
      && (r.TooFewFields? <==> line != [] && line[0] != '#' && '\t' !in line && ',' !in line)
      && (r.TooFewFields? ==> r.line == line)
      && (r.Entry? || r.InvalidFrequency? ==>
            |Fields(line)| >= 2
            && Separator(line) !in Fields(line)[0]
            && |line| > |Fields(line)[0]|
            && line[..|Fields(line)[0]| + 1] == Fields(line)[0] + [Separator(line)])
      && (r.Entry? ==> r.key == Fields(line)[0] && ParseInt(Fields(line)[1]) == Some(r.freq))
      && (r.InvalidFrequency? ==> r.field == Fields(line)[1] && ParseInt(r.field) == None)
  {
    var line := Strip(raw);
    if line == [] || line[0] == '#' then Ignored
    else
      var parts := Fields(line);
      SplitJoin(line, Separator(line));
      if |parts| < 2 then TooFewFields(line)
      else
        FirstFieldPrefix(parts, Separator(line), line);
        match ParseInt(parts[1])
        case None => InvalidFrequency(parts[1])
        case Some(freq) => Entry(parts[0], freq)
  }

  /** With two or more fields, the line starts with the first field and
      the separator. */
  lemma FirstFieldPrefix(parts: seq<string>, sep: char, line: string)
    requires |parts| >= 2 && JoinWith(parts, [sep]) == line
    ensures |line| > |parts[0]| && line[..|parts[0]| + 1] == parts[0] + [sep]
  {
    assert line == parts[0] + [sep] + JoinWith(parts[1..], [sep]);
  }

  /** The warning printed for the line numbered `lineNumber` (counting from 1). */
  function WarningFor(lineNumber: nat, outcome: LineOutcome): Option<Warning>
  {
    match outcome
    case TooFewFields(line) => Some(MalformedLine(lineNumber, line))
    case InvalidFrequency(field) => Some(InvalidFrequencyValue(lineNumber, field))
    case _ => None
  }

  /** How each line of the file is read, in file order. */
  function Outcomes(lines: seq<string>): (outcomes: seq<LineOutcome>)
    ensures |outcomes| == |lines|
    ensures forall i :: 0 <= i < |lines| ==> outcomes[i] == ClassifyLine(lines[i])
  {
    seq(|lines|, i requires 0 <= i < |lines| => ClassifyLine(lines[i]))
  }

  predicate IsEntryFor(outcome: LineOutcome, key: string)
  {
    outcome.Entry? && outcome.key == key
  }

  /** The table after reading lines with these outcomes in order: each
      accepted line stores its count under its key, replacing whatever an
      earlier line stored. */
  function TableOf(outcomes: seq<LineOutcome>): map<string, int>
  {
    if outcomes == [] then map[]
    else Store(TableOf(outcomes[..|outcomes| - 1]), outcomes[|outcomes| - 1])
  }

  /** `char_freq[char] = freq` for an accepted line; nothing otherwise. */
  function Store(table: map<string, int>, outcome: LineOutcome): map<string, int>
  {
    match outcome
    case Entry(key, freq) => table[key := freq]
    case _ => table
  }

  /** The warnings printed while reading lines with these outcomes, in order. */
  function WarningsOf(outcomes: seq<LineOutcome>): seq<Warning>
  {
    if outcomes == [] then []
    else Report(WarningsOf(outcomes[..|outcomes| - 1]), |outcomes|, outcomes[|outcomes| - 1])
  }

  function Report(warnings: seq<Warning>, lineNumber: nat, outcome: LineOutcome): seq<Warning>
  {
    match WarningFor(lineNumber, outcome)
    case Some(w) => warnings + [w]
    case None => warnings
  }

  /** `load_frequency_data`, with the file replaced by its lines. */
  method LoadFrequencyData(lines: seq<string>) returns (table: map<string, int>, warnings: seq<Warning>)
    ensures table == TableOf(Outcomes(lines))
    ensures warnings == WarningsOf(Outcomes(lines))
  {
    table, warnings := map[], [];
    var lineNum := 0;
    while lineNum < |lines|
      invariant 0 <= lineNum <= |lines|
      invariant table == TableOf(Outcomes(lines[..lineNum]))
      invariant warnings == WarningsOf(Outcomes(lines[..lineNum]))
    {
      ghost var outcome := ClassifyLine(lines[lineNum]);
      ReadOneMore(lines, lineNum);
      var line := Strip(lines[lineNum]);
      lineNum := lineNum + 1;
      if line == [] || line[0] == '#' {
        assert outcome == Ignored;
        continue;
      }
      var parts := if '\t' in line then Split(line, '\t') else Split(line, ',');
      assert parts == Fields(line);
      if |parts| < 2 {
        assert outcome == TooFewFields(line);
        warnings := warnings + [MalformedLine(lineNum, line)];
        continue;
      }
      var key := parts[0];
      match ParseInt(parts[1]) {
        case None =>
          assert outcome == InvalidFrequency(parts[1]);
          warnings := warnings + [InvalidFrequencyValue(lineNum, parts[1])];
        case Some(freq) =>
          assert outcome == Entry(key, freq);
          table := table[key := freq];
      }
    }
    assert lines[..lineNum] == lines;
  }

  /** Reading one more line extends the outcomes by that line's outcome. */
  lemma ReadOneMore(lines: seq<string>, n: nat)
    requires n < |lines|
    ensures TableOf(Outcomes(lines[..n + 1])) == Store(TableOf(Outcomes(lines[..n])), ClassifyLine(lines[n]))
    ensures WarningsOf(Outcomes(lines[..n + 1])) == Report(WarningsOf(Outcomes(lines[..n])), n + 1, ClassifyLine(lines[n]))
  {
    var outs := Outcomes(lines[..n + 1]);
    assert outs[..n] == Outcomes(lines[..n]);
  }

  /** A key is in the table exactly when some line was accepted for it:
      rejected lines never reach the table. */
  lemma {:induction false} TableKeys(outcomes: seq<LineOutcome>, key: string)
    ensures key in TableOf(outcomes) <==> exists i :: 0 <= i < |outcomes| && IsEntryFor(outcomes[i], key)
    decreases |outcomes|
  {
    if outcomes != [] {
      var n := |outcomes|;
      var prefix := outcomes[..n - 1];
      TableKeys(prefix, key);
      assert forall i :: 0 <= i < n - 1 ==> prefix[i] == outcomes[i];
    }
  }

  /** Last write wins: the stored count is the one on the last accepted
      line for that key. */
  lemma {:induction false} TableLastWins(outcomes: seq<LineOutcome>, i: nat, key: string, freq: int)
    requires i < |outcomes| && outcomes[i] == Entry(key, freq)
    requires forall j :: i < j < |outcomes| ==> !IsEntryFor(outcomes[j], key)
    ensures key in TableOf(outcomes) && TableOf(outcomes)[key] == freq
    decreases |outcomes|
  {
    var n := |outcomes|;
    if i < n - 1 {
      var prefix := outcomes[..n - 1];
      assert prefix[i] == outcomes[i];
      TableLastWins(prefix, i, key, freq);
      assert !IsEntryFor(outcomes[n - 1], key);
    }
  }

  /** Exactly the rejected lines are reported, each with its own 1-based
      line number. */
  lemma {:induction false} WarningsExact(outcomes: seq<LineOutcome>, w: Warning)
    ensures w in WarningsOf(outcomes) <==>
      exists i :: 0 <= i < |outcomes| && WarningFor(i + 1, outcomes[i]) == Some(w)
    decreases |outcomes|
  {
    if outcomes != [] {
      var n := |outcomes|;
      var prefix := outcomes[..n - 1];
      WarningsExact(prefix, w);
      assert forall i :: 0 <= i < n - 1 ==> prefix[i] == outcomes[i];
    }
  }

  function LineNumber(w: Warning): nat
  {
    match w
    case MalformedLine(n, _) => n
    case InvalidFrequencyValue(n, _) => n
  }

  /** Warnings come out in file order, one per line at most. */
  lemma {:induction false} WarningsInFileOrder(outcomes: seq<LineOutcome>)
    ensures forall a :: 0 <= a < |WarningsOf(outcomes)| ==> 1 <= LineNumber(WarningsOf(outcomes)[a]) <= |outcomes|
    ensures forall a, b :: 0 <= a < b < |WarningsOf(outcomes)| ==>
      LineNumber(WarningsOf(outcomes)[a]) < LineNumber(WarningsOf(outcomes)[b])
    decreases |outcomes|
  {
    if outcomes != [] {
      WarningsInFileOrder(outcomes[..|outcomes| - 1]);
    }
  }

  /** A line that needs no stripping and is not a comment is read from its
      first two fields. */
  lemma FieldsDecide(line: string, key: string, field: string)
    requires line != [] && !IsSpace(line[0]) && !IsSpace(line[|line| - 1]) && line[0] != '#'
    requires |Fields(line)| >= 2 && Fields(line)[0] == key && Fields(line)[1] == field
    ensures ParseInt(field).None? ==> ClassifyLine(line) == InvalidFrequency(field)
    ensures ParseInt(field).Some? ==> ClassifyLine(line) == Entry(key, ParseInt(field).value)
  {
    NoBlankAtEnds(line, IsSpace);
  }

  /** With a tab in the line the fields are tab-separated, so commas stay
      inside the key, and whatever follows a second tab is ignored; a
      count of more than `MaxStrDigits` digits is refused by `int()`. */
  lemma TabEntryIgnoresExtraFields(key: string, count: string, extra: string)
    requires key != [] && !IsSpace(key[0]) && key[0] != '#' && '\t' !in key
    requires |count| >= 1 && AllDigits(count, 10)
    requires extra != [] && !IsSpace(extra[|extra| - 1])
    ensures ClassifyLine(key + "\t" + count + "\t" + extra) ==
      if |count| <= MaxStrDigits then Entry(key, Value(count, 10)) else InvalidFrequency(count)
  {
    var line := key + "\t" + count + "\t" + extra;
    TabFields(key, count, extra, line);
    ParseUnsigned(count);
    FieldsDecide(line, key, count);
  }

  /** The ends of a `key<TAB>count<TAB>extra` line and its first two fields. */
  lemma TabFields(key: string, count: string, extra: string, line: string)
    requires key != [] && '\t' !in key && |count| >= 1 && AllDigits(count, 10) && extra != []
    requires line == key + "\t" + count + "\t" + extra
    ensures line[0] == key[0] && line[|line| - 1] == extra[|extra| - 1]
    ensures |Fields(line)| >= 2 && Fields(line)[0] == key && Fields(line)[1] == count
  {
    var rest := count + ['\t'] + extra;
    assert line == key + ['\t'] + rest;
    assert line[|key|] == '\t';
    assert '\t' !in count by {
      DecimalDigitsWellFormed(count);
    }
    SplitFirst(key, '\t', rest);
    SplitFirst(count, '\t', extra);
  }

  /** Without a tab, the comma separates the key from the count (refused
      when it has more than `MaxStrDigits` digits). */
  lemma CommaEntry(key: string, count: string)
    requires key != [] && !IsSpace(key[0]) && key[0] != '#'
    requires '\t' !in key && ',' !in key
    requires |count| >= 1 && AllDigits(count, 10)
    ensures ClassifyLine(key + "," + count) ==
      if |count| <= MaxStrDigits then Entry(key, Value(count, 10)) else InvalidFrequency(count)
  {
    var line := key + "," + count;
    CommaFields(key, count, line);
    ParseUnsigned(count);
    FieldsDecide(line, key, count);
  }

  /** The ends of a `key,count` line and its two fields. */
  lemma CommaFields(key: string, count: string, line: string)
    requires key != [] && '\t' !in key && ',' !in key && |count| >= 1 && AllDigits(count, 10)
    requires line == key + "," + count
    ensures line[0] == key[0] && !IsSpace(line[|line| - 1])
    ensures Fields(line) == [key, count]
  {
    DecimalDigitsWellFormed(count);
    assert line == key + [','] + count;
    assert line[|line| - 1] == count[|count| - 1];
    assert '\t' !in line;
    SplitFirst(key, ',', count);
    SplitNone(count, ',');
  }

  /** A one-character line that is no separator is reported and skipped. */
  lemma NoSeparatorSkipped(c: char)
    requires !IsSpace(c) && c != '#' && c != '\t' && c != ','
    ensures ClassifyLine([c]) == TooFewFields([c])
  {
    NoBlankAtEnds([c], IsSpace);
    SplitNone([c], ',');
  }
}
