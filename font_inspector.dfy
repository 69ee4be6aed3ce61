/** `get_chars_from_font`: the characters a font's cmap subtables map,
    minus the null character and every character whose Unicode general
    category starts with "C", deduplicated and in code-point order.
    Opening the font is not modelled: the cmap subtables arrive as the
    sequences of their integer keys, and the Unicode database lookup
    `unicodedata.category(c).startswith('C')` is the parameter
    `isControlLike`. */
module FontInspector {

  /** Code points `chr` turns into a character that can be kept. Python's
      `chr` also accepts the surrogates 0xD800..0xDFFF, but their category
      is always Cs, so they are dropped like anything `chr` rejects. */
  predicate IsScalar(cp: int)
  {
    0 <= cp < 0xD800 || 0xE000 <= cp <= 0x10FFFF
  }

  /** Whether the key `cp` contributes a character to the result: only a
      non-null Unicode scalar value can, and one does exactly when the
      character is not control-like. */
  predicate Keeps(cp: int, isControlLike: char -> bool): (b: bool)
    ensures b ==> 0 < cp <= 0x10FFFF && !(0xD800 <= cp < 0xE000)
    ensures 0 < cp < 0xD800 || 0xE000 <= cp <= 0x10FFFF ==> (b <==> !isControlLike(cp as char))
  {
    IsScalar(cp) && cp != 0 && !isControlLike(cp as char)
  }

  /** Some subtable has `cp` as a key. */
  predicate InCmap(tables: seq<seq<int>>, cp: int)
  {
    exists t :: 0 <= t < |tables| && cp in tables[t]
  }

  predicate StrictlyAscending(s: seq<char>)
  {
    forall i, j :: 0 <= i < j < |s| ==> s[i] < s[j]
  }

  /** The characters kept from one subtable's keys. */
  ghost function KeptFrom(keys: seq<int>, isControlLike: char -> bool): set<char>
  {
    if keys == [] then {}
    else
      var cp := keys[|keys| - 1];
      KeptFrom(keys[..|keys| - 1], isControlLike) +
        (if Keeps(cp, isControlLike) then {cp as char} else {})
  }

  /** The characters kept from all subtables. */
  ghost function KeptFromTables(tables: seq<seq<int>>, isControlLike: char -> bool): set<char>
  {
    if tables == [] then {}
    else KeptFromTables(tables[..|tables| - 1], isControlLike) + KeptFrom(tables[|tables| - 1], isControlLike)
  }

  lemma {:induction false} KeptFromIff(keys: seq<int>, isControlLike: char -> bool, c: char)
    ensures c in KeptFrom(keys, isControlLike) <==> c as int in keys && c != '\0' && !isControlLike(c)
  {
    if keys != [] {
      var init := keys[..|keys| - 1];
      KeptFromIff(init, isControlLike, c);
      assert keys == init + [keys[|keys| - 1]];
    }
  }

  lemma {:induction false} KeptFromTablesIff(tables: seq<seq<int>>, isControlLike: char -> bool, c: char)
    ensures c in KeptFromTables(tables, isControlLike) <==>
      InCmap(tables, c as int) && c != '\0' && !isControlLike(c)
  {
    if tables != [] {
      var n := |tables| - 1;
      var init := tables[..n];
      KeptFromTablesIff(init, isControlLike, c);
      KeptFromIff(tables[n], isControlLike, c);
      if InCmap(tables, c as int) {
        var t :| 0 <= t < |tables| && c as int in tables[t];
        if t < n {
          assert init[t] == tables[t];
        }
      }
      if InCmap(init, c as int) {
        var t :| 0 <= t < |init| && c as int in init[t];
        assert tables[t] == init[t];
      }
    }
  }

  lemma KeptFromStep(keys: seq<int>, k: nat, isControlLike: char -> bool)
    requires k < |keys|
    ensures KeptFrom(keys[..k + 1], isControlLike) ==
      KeptFrom(keys[..k], isControlLike) + (if Keeps(keys[k], isControlLike) then {keys[k] as char} else {})
  {
    assert keys[..k + 1][..k] == keys[..k];
  }

  lemma KeptFromTablesStep(tables: seq<seq<int>>, t: nat, isControlLike: char -> bool)
    requires t < |tables|
    ensures KeptFromTables(tables[..t + 1], isControlLike) ==
      KeptFromTables(tables[..t], isControlLike) + KeptFrom(tables[t], isControlLike)
  {
    assert tables[..t + 1][..t] == tables[..t];
  }

  /** `get_chars_from_font`: nested loops add the kept characters to a set,
      which is then listed in ascending order. */
  method GetCharsFromFont(tables: seq<seq<int>>, isControlLike: char -> bool) returns (chars: seq<char>)
    ensures StrictlyAscending(chars)
    ensures forall c :: c in chars <==> InCmap(tables, c as int) && c != '\0' && !isControlLike(c)
  {
    var found: set<char> := {};
    var t := 0;
    while t < |tables|
      invariant 0 <= t <= |tables|
      invariant found == KeptFromTables(tables[..t], isControlLike)
    {
      var table := tables[t];
      var k := 0;
      while k < |table|
        invariant 0 <= k <= |table|
        invariant found == KeptFromTables(tables[..t], isControlLike) + KeptFrom(table[..k], isControlLike)
      {
        var cp := table[k];
        KeptFromStep(table, k, isControlLike);
        if IsScalar(cp) {
          var ch := cp as char;
          if !(ch == '\0' || isControlLike(ch)) {
            found := found + {ch};
          }
        }
        k := k + 1;
      }
      assert table[..k] == table;
      KeptFromTablesStep(tables, t, isControlLike);
      t := t + 1;
    }
    assert tables[..t] == tables;
    chars := SortedChars(found);
    forall c
      ensures c in chars <==> InCmap(tables, c as int) && c != '\0' && !isControlLike(c)
    {
      KeptFromTablesIff(tables, isControlLike, c);
    }
  }

  lemma {:induction false} LeastExists(s: set<char>)
    requires s != {}
    ensures exists m :: m in s && forall y :: y in s ==> m <= y
  {
    var x :| x in s;
    var others := s - {x};
    if others == {} {
      forall y | y in s
        ensures x <= y
      {
        assert y !in others;
      }
      assert x in s;
    } else {
      LeastExists(others);
      var m :| m in others && forall y :: y in others ==> m <= y;
      var least := if x < m then x else m;
      forall y | y in s
        ensures least <= y
      {
        if y != x {
          assert y in others;
        }
      }
      assert least in s;
    }
  }

  /** `sorted(list(chars))`: repeatedly takes the least remaining character. */
  method SortedChars(s: set<char>) returns (chars: seq<char>)
    ensures StrictlyAscending(chars)
    ensures forall c :: c in chars <==> c in s
  {
    chars := [];
    var rest := s;
    while rest != {}
      invariant rest <= s
      invariant forall c :: c in chars <==> c in s && c !in rest
      invariant StrictlyAscending(chars)
      invariant forall i, y :: 0 <= i < |chars| && y in rest ==> chars[i] < y
      decreases |rest|
    {
      LeastExists(rest);
      var m :| m in rest && forall y :: y in rest ==> m <= y;
      chars := chars + [m];
      rest := rest - {m};
    }
  }

  /** An ascending listing of a set is unique: the result above is the
      only one the source's `sorted` could produce. */
  lemma {:induction false} AscendingUnique(a: seq<char>, b: seq<char>)
    requires StrictlyAscending(a) && StrictlyAscending(b)
    requires forall c :: c in a <==> c in b
    ensures a == b
    decreases |a|
  {
    assert a != [] ==> a[0] in b;
    assert b != [] ==> b[0] in a;
    if a != [] && b != [] {
      assert a[0] == b[0] by {
        LeastIsHead(a, b[0]);
        LeastIsHead(b, a[0]);
      }
      AscendingTail(a);
      AscendingTail(b);
      AscendingUnique(a[1..], b[1..]);
      assert a == [a[0]] + a[1..] && b == [b[0]] + b[1..];
    }
  }

  lemma LeastIsHead(s: seq<char>, c: char)
    requires StrictlyAscending(s) && c in s
    ensures s[0] <= c
  {
    var i :| 0 <= i < |s| && s[i] == c;
    if i > 0 {
      assert s[0] < s[i];
    }
  }

  /** Without its head, an ascending sequence holds exactly the members
      above the head, still in ascending order. */
  lemma AscendingTail(s: seq<char>)
    requires StrictlyAscending(s) && s != []
    ensures StrictlyAscending(s[1..])
    ensures forall c :: c in s[1..] <==> c in s && s[0] < c
  {
    forall c
      ensures c in s[1..] <==> c in s && s[0] < c
    {
      if c in s[1..] {
        var i :| 0 <= i < |s| - 1 && s[1..][i] == c;
        assert s[i + 1] == c;
      }
      if c in s && s[0] < c {
        var j :| 0 <= j < |s| && s[j] == c;
        assert j > 0;
        assert s[1..][j - 1] == c;
      }
    }
  }

}
