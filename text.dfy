/**
 * The string operations of Python's `str` that the frequency loader relies on:
 * `isspace`, `strip`, `split(sep)` and `sep.join(parts)`.
 */
module Text {

  /** Python's `str.isspace` for one character: the ASCII blanks and
      separators, plus every other Unicode white-space code point. */
  predicate IsSpace(c: char)
  {
    || c == '\t' || c == '\n' || c == '\U{B}' || c == '\U{C}' || c == '\r'
    || ('\U{1C}' <= c <= '\U{1F}')
    || c == ' ' || c == '\U{85}' || c == '\U{A0}' || c == '\U{1680}'
    || ('\U{2000}' <= c <= '\U{200A}')
    || c == '\U{2028}' || c == '\U{2029}' || c == '\U{202F}' || c == '\U{205F}'
    || c == '\U{3000}'
  }

  /** Every character of `s` is blank by the test `blank`. */
  predicate AllBlank(s: string, blank: char -> bool)
  {
    forall i :: 0 <= i < |s| ==> blank(s[i])
  }

  /** The suffix of `s` left after its leading blanks. */
  function TrimLeft(s: string, blank: char -> bool): (r: string)
    ensures |r| <= |s| && r == s[|s| - |r|..]
    ensures r == [] || !blank(r[0])
  {
    if s != [] && blank(s[0]) then TrimLeft(s[1..], blank) else s
  }

  /** What the left trim removes is blank only. */
  lemma {:induction false} TrimLeftRemovesBlanks(s: string, blank: char -> bool)
    ensures AllBlank(s[..|s| - |TrimLeft(s, blank)|], blank)
  {
    if s != [] && blank(s[0]) {
      TrimLeftRemovesBlanks(s[1..], blank);
      assert s[..|s| - |TrimLeft(s, blank)|] == [s[0]] + s[1..][..|s| - 1 - |TrimLeft(s, blank)|];
    }
  }

  /** The prefix of `s` left before its trailing blanks. */
  function TrimRight(s: string, blank: char -> bool): (r: string)
    ensures |r| <= |s| && r == s[..|r|]
    ensures r == [] || !blank(r[|r| - 1])
  {
    if s != [] && blank(s[|s| - 1]) then TrimRight(s[..|s| - 1], blank) else s
  }

  /** What the right trim removes is blank only. */
  lemma {:induction false} TrimRightRemovesBlanks(s: string, blank: char -> bool)
    ensures AllBlank(s[|TrimRight(s, blank)|..], blank)
  {
    if s != [] && blank(s[|s| - 1]) {
      TrimRightRemovesBlanks(s[..|s| - 1], blank);
      assert s[|TrimRight(s, blank)|..] == s[..|s| - 1][|TrimRight(s, blank)|..] + [s[|s| - 1]];
    }
  }

  /** Both ends trimmed of the characters `blank` accepts. */
  function StripBy(s: string, blank: char -> bool): (r: string)
    ensures r == [] || (!blank(r[0]) && !blank(r[|r| - 1]))
  {
    TrimRight(TrimLeft(s, blank), blank)
  }

  /** `s.strip()`: both ends trimmed of `str.isspace` characters. */
  function Strip(s: string): (r: string)
    ensures r == [] || (!IsSpace(r[0]) && !IsSpace(r[|r| - 1]))
  {
    StripBy(s, IsSpace)
  }

  /** Stripping removes exactly the blanks around a core that neither
      starts nor ends with a blank. */
  lemma {:induction false} StripAround(lead: string, core: string, trail: string, blank: char -> bool)
    requires AllBlank(lead, blank) && AllBlank(trail, blank)
    requires core == [] || (!blank(core[0]) && !blank(core[|core| - 1]))
    ensures StripBy(lead + core + trail, blank) == core
  {
    if core == [] {
      assert AllBlank(lead + core + trail, blank);
      AllBlankTrimmed(lead + core + trail, blank);
    } else {
      assert lead + core + trail == lead + (core + trail);
      TrimLeftBlanks(lead, core + trail, blank);
      TrimRightBlanks(core, trail, blank);
    }
  }

  lemma {:induction false} AllBlankTrimmed(s: string, blank: char -> bool)
    requires AllBlank(s, blank)
    ensures TrimLeft(s, blank) == []
  {
    if s != [] {
      AllBlankTrimmed(s[1..], blank);
    }
  }

  /** A text that starts and ends with a non-blank strips to itself. */
  lemma NoBlankAtEnds(s: string, blank: char -> bool)
    requires s != [] && !blank(s[0]) && !blank(s[|s| - 1])
    ensures StripBy(s, blank) == s
  {
    StripAround([], s, [], blank);
    assert [] + s + [] == s;
  }

  lemma {:induction false} TrimLeftBlanks(lead: string, rest: string, blank: char -> bool)
    requires AllBlank(lead, blank)
    requires rest == [] || !blank(rest[0])
    ensures TrimLeft(lead + rest, blank) == rest
    decreases |lead|
  {
    if lead != [] {
      assert (lead + rest)[1..] == lead[1..] + rest;
      TrimLeftBlanks(lead[1..], rest, blank);
    } else {
      assert lead + rest == rest;
    }
  }

  lemma {:induction false} TrimRightBlanks(rest: string, trail: string, blank: char -> bool)
    requires AllBlank(trail, blank)
    requires rest == [] || !blank(rest[|rest| - 1])
    ensures TrimRight(rest + trail, blank) == rest
    decreases |trail|
  {
    if trail != [] {
      assert (rest + trail)[..|rest + trail| - 1] == rest + trail[..|trail| - 1];
      TrimRightBlanks(rest, trail[..|trail| - 1], blank);
    } else {
      assert rest + trail == rest;
    }
  }

  /** `s.split(sep)` for a one-character separator: every occurrence of `sep`
      ends a field, so there is always a field and none holds `sep`. */
  function Split(s: string, sep: char): (parts: seq<string>)
    ensures |parts| >= 1
    ensures forall k :: 0 <= k < |parts| ==> sep !in parts[k]
  {
    if s == [] then [[]]
    else
      var rest := Split(s[1..], sep);
      if s[0] == sep then [[]] + rest
      else [[s[0]] + rest[0]] + rest[1..]
  }

  /** There is one field more than there are separators (a single field
      exactly when `sep` does not occur), no field holds `sep`, and joining
      the fields with `sep` gives back the text. */
  lemma {:induction false} SplitJoin(s: string, sep: char)
    ensures var parts := Split(s, sep);
      && (|parts| == 1 <==> sep !in s)
      && (forall k :: 0 <= k < |parts| ==> sep !in parts[k])
      && JoinWith(parts, [sep]) == s
  {
    if s != [] {
      SplitJoin(s[1..], sep);
      var rest := Split(s[1..], sep);
      assert s == [s[0]] + s[1..];
      if s[0] != sep {
        JoinHead(rest, [sep], s[0]);
        assert sep !in s <==> sep !in s[1..];
      }
    }
  }

  /** The first field is the text before the first separator, the other
      fields come from what follows it. */
  lemma {:induction false} SplitFirst(field: string, sep: char, rest: string)
    requires sep !in field
    ensures Split(field + [sep] + rest, sep) == [field] + Split(rest, sep)
    decreases |field|
  {
    var s := field + [sep] + rest;
    if field == [] {
      assert s == [sep] + rest;
      SplitUnfold(s, sep);
    } else {
      SplitFirst(field[1..], sep, rest);
      assert s[1..] == field[1..] + [sep] + rest;
      var tailParts := Split(s[1..], sep);
      assert tailParts[0] == field[1..] && tailParts[1..] == Split(rest, sep);
      SplitUnfold(s, sep);
      assert [field[0]] + field[1..] == field;
    }
  }

  /** One step of `Split`, by the first character. */
  lemma SplitUnfold(s: string, sep: char)
    requires s != []
    ensures s[0] == sep ==> Split(s, sep) == [[]] + Split(s[1..], sep)
    ensures s[0] != sep ==> Split(s, sep) == [[s[0]] + Split(s[1..], sep)[0]] + Split(s[1..], sep)[1..]
  {
  }

  /** Without a separator the whole text is the only field. */
  lemma {:induction false} SplitNone(s: string, sep: char)
    requires sep !in s
    ensures Split(s, sep) == [s]
  {
    if s != [] {
      SplitNone(s[1..], sep);
      assert [s[0]] + s[1..] == s;
    }
  }

  /** `sep.join(parts)` */
  function JoinWith(parts: seq<string>, sep: string): (r: string)
    ensures parts == [] ==> r == []
  {
    if parts == [] then []
    else if |parts| == 1 then parts[0]
    else parts[0] + sep + JoinWith(parts[1..], sep)
  }

  lemma JoinHead(parts: seq<string>, sep: string, c: char)
    requires parts != []
    ensures JoinWith([[c] + parts[0]] + parts[1..], sep) == [c] + JoinWith(parts, sep)
  {
    var ps := [[c] + parts[0]] + parts[1..];
    assert ps[1..] == parts[1..];
  }

  /** A join starts with its first part. */
  lemma JoinWithStartsWith(parts: seq<string>, sep: string)
    requires parts != []
    ensures |JoinWith(parts, sep)| >= |parts[0]| && JoinWith(parts, sep)[..|parts[0]|] == parts[0]
  {
  }
}
