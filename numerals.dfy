/**
 * Positional numerals as Python's format mini-language writes them
 * (`{n:04X}`, `{i:03d}`) and as `int()` reads them back.
 */
module Numerals {
  import opened Wrappers
  import opened Text

  predicate IsHexDigit(c: char)
  {
    '0' <= c <= '9' || 'A' <= c <= 'F'
  }

  predicate IsDecDigit(c: char)
  {
    '0' <= c <= '9'
  }

  function DigitValue(c: char): (d: nat)
    requires IsHexDigit(c)
    ensures d < 16
    ensures IsDecDigit(c) <==> d < 10
  {
    if c <= '9' then c as int - '0' as int else c as int - 'A' as int + 10
  }

  /** The upper-case digit for `d`; `DigitValue` reads it back. */
  function DigitChar(d: nat): (c: char)
    requires d < 16
    ensures IsHexDigit(c) && DigitValue(c) == d
  {
    if d < 10 then ('0' as int + d) as char else ('A' as int + d - 10) as char
  }

  predicate AllDigits(s: string, base: nat)
  {
    forall i :: 0 <= i < |s| ==> IsHexDigit(s[i]) && DigitValue(s[i]) < base
  }

  /** The number a digit string denotes, most significant digit first. */
  function Value(s: string, base: nat): nat
    requires AllDigits(s, base)
  {
    if s == [] then 0 else Value(s[..|s| - 1], base) * base + DigitValue(s[|s| - 1])
  }

  /** The shortest digit string of `n`: it starts with `0` only when it is `0`. */
  function Digits(n: nat, base: nat): (s: string)
    requires 2 <= base <= 16
    ensures |s| >= 1 && AllDigits(s, base)
    ensures s[0] == '0' <==> n == 0
    ensures n == 0 ==> |s| == 1
    decreases n
  {
    if n < base then [DigitChar(n)]
    else
      DivMod(n, base);
      Digits(n / base, base) + [DigitChar(n % base)]
  }

  lemma DivMod(n: nat, base: nat)
    requires 2 <= base <= n
    ensures 1 <= n / base < n && n % base < base
    ensures (n / base) * base + n % base == n
  {
  }

  lemma {:induction false} ValueOfDigits(n: nat, base: nat)
    requires 2 <= base <= 16
    ensures Value(Digits(n, base), base) == n
    decreases n
  {
    if n >= base {
      var d := Digits(n, base);
      DivMod(n, base);
      assert d[..|d| - 1] == Digits(n / base, base);
      ValueOfDigits(n / base, base);
      calc {
        Value(d, base);
        Value(Digits(n / base, base), base) * base + DigitValue(DigitChar(n % base));
        (n / base) * base + n % base;
      }
    }
  }

  function Zeros(k: nat): (z: string)
    ensures |z| == k && forall i :: 0 <= i < k ==> z[i] == '0'
  {
    seq(k, _ => '0')
  }

  /** The zero fill of the format mini-language: `s` widened to `width`
      with leading `0`s, or `s` itself when it is already that wide. */
  function PadLeft(s: string, width: nat): (r: string)
    ensures |r| == if |s| >= width then |s| else width
  {
    if |s| >= width then s else Zeros(width - |s|) + s
  }

  lemma {:induction false} ValueZerosPrefix(k: nat, s: string, base: nat)
    requires 2 <= base <= 16 && AllDigits(s, base)
    ensures AllDigits(Zeros(k) + s, base)
    ensures Value(Zeros(k) + s, base) == Value(s, base)
    decreases |s|
  {
    var z := Zeros(k) + s;
    if s == [] {
      assert z == Zeros(k);
      ValueOfZeros(k, base);
    } else {
      assert z[..|z| - 1] == Zeros(k) + s[..|s| - 1];
      ValueZerosPrefix(k, s[..|s| - 1], base);
    }
  }

  lemma {:induction false} ValueOfZeros(k: nat, base: nat)
    requires 2 <= base <= 16
    ensures AllDigits(Zeros(k), base) && Value(Zeros(k), base) == 0
  {
    if k > 0 {
      assert Zeros(k)[..k - 1] == Zeros(k - 1);
      ValueOfZeros(k - 1, base);
    }
  }

  /** `f"{n:0{width}X}"` (base 16) and `f"{n:0{width}d}"` (base 10): at
      least `width` digits, no leading zero beyond the fill, and it reads
      back as `n`. */
  function PaddedDigits(n: nat, base: nat, width: nat): (s: string)
    requires 2 <= base <= 16
    ensures |s| >= width && AllDigits(s, base) && Value(s, base) == n
    ensures |s| > width && |s| > 1 ==> s[0] != '0'
  {
    var d := Digits(n, base);
    ValueOfDigits(n, base);
    if |d| >= width then d
    else
      ValueZerosPrefix(width - |d|, d, base);
      Zeros(width - |d|) + d
  }

  /** `f"{n:04X}"` as used for code points in a `unicode-range` value. */
  function Hex4(n: nat): (s: string)
    ensures |s| >= 4 && AllDigits(s, 16) && Value(s, 16) == n
    ensures |s| > 4 ==> s[0] != '0'
  {
    PaddedDigits(n, 16, 4)
  }

  /** `f"{i:03d}"` as used for the subset file names. */
  function Dec3(n: nat): (s: string)
    ensures |s| >= 3 && AllDigits(s, 10) && Value(s, 10) == n
    ensures |s| > 3 ==> s[0] != '0'
  {
    PaddedDigits(n, 10, 3)
  }

  /** Two digit strings that denote different numbers differ. */
  lemma {:induction false} PaddedDigitsInjective(m: nat, n: nat, base: nat, width: nat)
    requires 2 <= base <= 16
    requires PaddedDigits(m, base, width) == PaddedDigits(n, base, width)
    ensures m == n
  {
  }

  /* ---- Python's int() on a str, base 10 ---- */

  /** The white space `int()` skips around the number. Beyond ASCII it
      is the same Unicode white space `str.strip()` removes (those code
      points are turned into a plain space first); within ASCII it is only
      tab, line feed, vertical tab, form feed, carriage return and space,
      so the separators U+001C..U+001F are not skipped. */
  predicate IsIntSpace(c: char)
  {
    IsSpace(c) && !('\U{1C}' <= c <= '\U{1F}')
  }

  /** The most digits `int()` converts from a string (the default of
      `sys.int_info.default_max_str_digits`); a longer number is refused
      with `ValueError`. Underscores do not count, leading zeros do. */
  const MaxStrDigits: nat := 4300

  /** The digit part accepted by `int()`: decimal digits, with single
      underscores allowed between two digits. */
  predicate WellFormedDigits(b: string)
  {
    && |b| >= 1
    && IsDecDigit(b[0])
    && IsDecDigit(b[|b| - 1])
    && (forall i :: 0 <= i < |b| ==> IsDecDigit(b[i]) || b[i] == '_')
    && (forall i :: 0 <= i < |b| - 1 ==> !DoubleUnderscoreAt(b, i))
  }

  predicate DoubleUnderscoreAt(b: string, i: nat)
    requires i + 1 < |b|
  {
    b[i] == '_' && b[i + 1] == '_'
  }

  function DropUnderscores(b: string): (d: string)
    ensures forall i :: 0 <= i < |d| ==> d[i] != '_'
    ensures (forall i :: 0 <= i < |b| ==> b[i] != '_') ==> d == b
  {
    if b == [] then []
    else if b[0] == '_' then DropUnderscores(b[1..])
    else [b[0]] + DropUnderscores(b[1..])
  }

  /** `int(s)`: the white space `IsIntSpace` accepts is skipped at both
      ends, then one optional sign and the digits, at most `MaxStrDigits`
      of them. Anything else is the `ValueError` the loader catches. An
      accepted text ends in a digit, holds nothing but digits, signs and
      underscores, and is negative only when it starts with `-`. */
  function ParseInt(s: string): (r: Option<int>)
    ensures r.Some? ==> var t := StripBy(s, IsIntSpace);
      && t != [] && IsDecDigit(t[|t| - 1])
      && (forall k :: 0 <= k < |t| ==> IsDecDigit(t[k]) || t[k] == '_' || (k == 0 && (t[k] == '-' || t[k] == '+')))
      && (r.value < 0 ==> t[0] == '-')
  {
    ParseStripped(StripBy(s, IsIntSpace))
  }

  function ParseStripped(t: string): (r: Option<int>)
    ensures r.Some? ==> t != [] && IsDecDigit(t[|t| - 1])
    ensures r.Some? ==> forall k :: 0 <= k < |t| ==> IsDecDigit(t[k]) || t[k] == '_' || (k == 0 && (t[k] == '-' || t[k] == '+'))
    ensures r.Some? && r.value < 0 ==> t[0] == '-'
  {
    if t == [] then None
    else
      var body := if t[0] == '-' || t[0] == '+' then t[1..] else t;
      if !WellFormedDigits(body) then None
      else if |DropUnderscores(body)| > MaxStrDigits then None
      else
        DigitsSurvive(body);
        assert forall k :: 0 < k < |t| && (t[0] == '-' || t[0] == '+') ==> t[k] == body[k - 1];
        Some(Signed(t[0] == '-', Value(DropUnderscores(body), 10)))
  }

  function Signed(negative: bool, magnitude: nat): int
  {
    if negative then -(magnitude as int) else magnitude
  }

  lemma DigitsSurvive(b: string)
    requires WellFormedDigits(b)
    ensures AllDigits(DropUnderscores(b), 10)
  {
    DigitsOrUnderscores(b);
  }

  lemma {:induction false} DigitsOrUnderscores(b: string)
    requires forall i :: 0 <= i < |b| ==> IsDecDigit(b[i]) || b[i] == '_'
    ensures AllDigits(DropUnderscores(b), 10)
  {
    if b != [] {
      DigitsOrUnderscores(b[1..]);
    }
  }

  /** `str(n)` for an int (below the digit limit, where `str` itself
      succeeds). */
  function IntToString(n: int): string
  {
    if n < 0 then "-" + Digits(-n, 10) else Digits(n, 10)
  }

  /** `int(str(n)) == n` whenever `n` has at most `MaxStrDigits` digits;
      a longer number is refused. */
  lemma IntRoundTrip(n: int)
    ensures var m: nat := if n < 0 then -n else n;
      ParseInt(IntToString(n)) == if |Digits(m, 10)| <= MaxStrDigits then Some(n) else None
  {
    var m: nat := if n < 0 then -n else n;
    var d := Digits(m, 10);
    ValueOfDigits(m, 10);
    if n < 0 {
      assert IntToString(n) == ['-'] + d;
      ParseSigned('-', d);
      assert Signed(true, Value(d, 10)) == n;
    } else {
      assert IntToString(n) == d;
      ParseUnsigned(d);
    }
  }

  /** Plain decimal digits read as their value, unless there are too many. */
  lemma ParseUnsigned(d: string)
    requires |d| >= 1 && AllDigits(d, 10)
    ensures ParseInt(d) == if |d| <= MaxStrDigits then Some(Value(d, 10)) else None
  {
    assert IsDecDigit(d[0]) && IsDecDigit(d[|d| - 1]);
    NoBlankAtEnds(d, IsIntSpace);
    ParseStrippedUnsigned(d);
  }

  lemma ParseStrippedUnsigned(d: string)
    requires |d| >= 1 && AllDigits(d, 10)
    ensures ParseStripped(d) == if |d| <= MaxStrDigits then Some(Value(d, 10)) else None
  {
    DecimalDigitsWellFormed(d);
    assert IsDecDigit(d[0]);
  }

  /** A sign followed by decimal digits reads as the signed value, unless
      there are too many digits. */
  lemma ParseSigned(sign: char, d: string)
    requires sign == '-' || sign == '+'
    requires |d| >= 1 && AllDigits(d, 10)
    ensures ParseInt([sign] + d) ==
      if |d| <= MaxStrDigits then Some(Signed(sign == '-', Value(d, 10))) else None
  {
    var s := [sign] + d;
    assert s[|s| - 1] == d[|d| - 1] && IsDecDigit(d[|d| - 1]);
    NoBlankAtEnds(s, IsIntSpace);
    ParseStrippedSigned(sign, d);
  }

  lemma ParseStrippedSigned(sign: char, d: string)
    requires sign == '-' || sign == '+'
    requires |d| >= 1 && AllDigits(d, 10)
    ensures ParseStripped([sign] + d) ==
      if |d| <= MaxStrDigits then Some(Signed(sign == '-', Value(d, 10))) else None
  {
    DecimalDigitsWellFormed(d);
    assert ([sign] + d)[1..] == d;
  }

  /** The separators U+001C..U+001F are removed by `strip()` but make
      `int()` fail: `int("\x1c5")` is refused although `"\x1c5".strip()`
      is `"5"`. */
  lemma InfoSeparatorRefused()
    ensures ParseInt("\U{1C}5") == None
    ensures Strip("\U{1C}5") == "5"
  {
    InfoSeparatorKept();
    NotDigitFirst("\U{1C}5");
    InfoSeparatorStripped();
  }

  lemma InfoSeparatorKept()
    ensures StripBy("\U{1C}5", IsIntSpace) == "\U{1C}5"
  {
    var s := ['\U{1C}', '5'];
    assert !IsIntSpace(s[0]) && !IsIntSpace(s[1]);
    NoBlankAtEnds(s, IsIntSpace);
    assert s == "\U{1C}5";
  }

  lemma NotDigitFirst(t: string)
    requires t != [] && !IsDecDigit(t[0]) && t[0] != '-' && t[0] != '+'
    ensures ParseStripped(t) == None
  {
    assert !WellFormedDigits(t);
  }

  lemma InfoSeparatorStripped()
    ensures Strip("\U{1C}5") == "5"
  {
    var lead, core, trail := ['\U{1C}'], ['5'], [];
    assert IsSpace(lead[0]) && !IsSpace(core[0]);
    StripAround(lead, core, trail, IsSpace);
    assert lead + core + trail == "\U{1C}5";
  }

  lemma DecimalDigitsWellFormed(d: string)
    requires |d| >= 1 && AllDigits(d, 10)
    ensures WellFormedDigits(d) && DropUnderscores(d) == d
  {
    forall i | 0 <= i < |d|
      ensures IsDecDigit(d[i])
    {
      assert DigitValue(d[i]) < 10;
    }
  }
}
