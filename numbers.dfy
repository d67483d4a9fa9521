/**
 * Numeric interpretation of cell values: the decimal literals Python's
 * `float(str)` accepts, and `convert_to_float`, which scales a value
 * carrying an SI suffix (`m`, `u`, `n`) and answers `None` instead of
 * raising when a value cannot be read.
 */
module Numbers {
  import opened Wrappers
  import opened Text
  import opened Table

  predicate IsDigit(c: char)
  {
    '0' <= c <= '9'
  }

  predicate AllDigits(s: string)
  {
    forall i :: 0 <= i < |s| ==> IsDigit(s[i])
  }

  function DigitValue(c: char): nat
    requires IsDigit(c)
  {
    (c as int) - ('0' as int)
  }

  /** The value of a string of decimal digits (0 for the empty string). */
  function DigitsValue(s: string): nat
    requires AllDigits(s)
  {
    if s == [] then 0 else 10 * DigitsValue(s[..|s| - 1]) + DigitValue(s[|s| - 1])
  }

  /** Length of the longest prefix of `s` made of digits. */
  function DigitSpan(s: string): (n: nat)
    ensures n <= |s| && AllDigits(s[..n])
    ensures n == |s| || !IsDigit(s[n])
  {
    if s != [] && IsDigit(s[0]) then
      var n := 1 + DigitSpan(s[1..]);
      assert s[..n] == [s[0]] + s[1..][..n - 1];
      n
    else 0
  }

  function Pow10(n: nat): (p: nat)
    ensures p >= 1
  {
    if n == 0 then 1 else 10 * Pow10(n - 1)
  }

  /** `x * 10^e` for a possibly negative exponent `e`. */
  function Scale10(x: real, e: int): real
  {
    if e >= 0 then x * Pow10(e) as real else x / Pow10(-e) as real
  }

  /** An optionally signed, non-empty run of digits (the exponent of a literal). */
  function ParseExponent(s: string): Option<int>
  {
    var body := if s != [] && (s[0] == '+' || s[0] == '-') then s[1..] else s;
    if body != [] && AllDigits(body) then
      Some(if s[0] == '-' then -(DigitsValue(body) as int) else DigitsValue(body))
    else None
  }

  /** The value of the digits `whole.frac`. */
  function Mantissa(whole: string, frac: string): real
    requires AllDigits(whole) && AllDigits(frac)
  {
    assert AllDigits(whole + frac) by {
      assert forall k :: 0 <= k < |whole| + |frac| ==>
        (whole + frac)[k] == if k < |whole| then whole[k] else frac[k - |whole|];
    }
    DigitsValue(whole + frac) as real / Pow10(|frac|) as real
  }

  /** A mantissa followed by nothing, or by `e`/`E` and an exponent. */
  function WithExponent(mantissa: real, rest: string): Option<real>
  {
    if rest == [] then Some(mantissa)
    else if rest[0] == 'e' || rest[0] == 'E' then
      match ParseExponent(rest[1..])
      case Some(e) => Some(Scale10(mantissa, e))
      case None => None
    else None
  }

  /** An unsigned literal: `digits[.digits]` or `.digits`, then an optional exponent. */
  function ParseUnsigned(s: string): Option<real>
  {
    var i := DigitSpan(s);
    var whole, afterWhole := s[..i], s[i..];
    if afterWhole != [] && afterWhole[0] == '.' then
      var tail := afterWhole[1..];
      var j := DigitSpan(tail);
      if whole == [] && j == 0 then None
      else WithExponent(Mantissa(whole, tail[..j]), tail[j..])
    else if whole == [] then None
    else WithExponent(Mantissa(whole, []), afterWhole)
  }

  /**
   * Python's `float(s)` on a string, restricted to decimal literals:
   * surrounding whitespace, an optional sign, a mantissa and an optional
   * exponent. `None` stands for the `ValueError` Python raises.
   */
  function ParseNum(s: string): Option<real>
  {
    var t := Strip(s);
    if t != [] && (t[0] == '+' || t[0] == '-') then
      match ParseUnsigned(t[1..])
      case Some(v) => Some(if t[0] == '-' then -v else v)
      case None => None
    else ParseUnsigned(t)
  }

  function DigitChar(d: nat): (c: char)
    requires d < 10
    ensures IsDigit(c) && DigitValue(c) == d
  {
    ('0' as int + d) as char
  }

  /** Decimal notation of a natural number, as Python's `str(n)` writes it. */
  function NatString(n: nat): (s: string)
    ensures s != [] && AllDigits(s) && !IsSpace(s[0]) && !IsSpace(s[|s| - 1])
    ensures DigitsValue(s) == n
  {
    if n < 10 then [DigitChar(n)]
    else
      var s := NatString(n / 10) + [DigitChar(n % 10)];
      assert s[..|s| - 1] == NatString(n / 10);
      s
  }

  /** Under the modelled `float()`, a string without any digit is never a number (`float("")`, `float("abc")` raise). */
  lemma NoDigitsNoNumber(s: string)
    requires forall i :: 0 <= i < |s| ==> !IsDigit(s[i])
    ensures ParseNum(s) == None
  {
    var t := Strip(s);
    StripInfix(s);
    assert forall i :: 0 <= i < |t| ==> t[i] == s[LeadingSpaces(s) + i];
    if t != [] && (t[0] == '+' || t[0] == '-') {
      NoDigitsUnsigned(t[1..]);
    } else {
      NoDigitsUnsigned(t);
    }
  }

  lemma NoDigitsUnsigned(s: string)
    requires forall i :: 0 <= i < |s| ==> !IsDigit(s[i])
    ensures ParseUnsigned(s) == None
  {
    assert DigitSpan(s) == 0;
    if s != [] && s[0] == '.' {
      assert DigitSpan(s[1..]) == 0 by { assert s[1..] == [] || s[1..][0] == s[1]; }
    }
  }

  /** Reading back the decimal notation of `n` gives `n`. */
  lemma ParseNatString(n: nat)
    ensures ParseNum(NatString(n)) == Some(n as real)
  {
    var s := NatString(n);
    StripUnpadded(s);
    ParseUnsignedDigits(s);
  }

  /** A non-empty run of digits reads as its decimal value. */
  lemma ParseUnsignedDigits(s: string)
    requires s != [] && AllDigits(s)
    ensures ParseUnsigned(s) == Some(DigitsValue(s) as real)
  {
    DigitSpanAll(s);
    assert s[..|s|] == s && s[|s|..] == [];
    MantissaWhole(s);
  }

  /** Digits without a fraction part read as their integer value. */
  lemma MantissaWhole(w: string)
    requires AllDigits(w)
    ensures Mantissa(w, []) == DigitsValue(w) as real
  {
    assert w + [] == w;
    assert Pow10(0) == 1;
    DivOne(DigitsValue(w) as real, Pow10(0) as real);
  }

  /** Solver helper: dividing by one. */
  lemma DivOne(x: real, y: real)
    requires y == 1.0
    ensures x / y == x
  {
  }

  /** Reading back `-` followed by the decimal notation of `n` gives `-n`. */
  lemma ParseNegNatString(n: nat)
    ensures ParseNum("-" + NatString(n)) == Some(-(n as real))
  {
    var s := "-" + NatString(n);
    StripUnpadded(s);
    assert s[1..] == NatString(n);
    ParseUnsignedDigits(NatString(n));
  }

  lemma {:induction false} DigitSpanAll(s: string)
    requires AllDigits(s)
    ensures DigitSpan(s) == |s|
  {
    if s != [] {
      DigitSpanAll(s[1..]);
    }
  }

  /** `x` times the multiplier of an SI suffix: milli, micro, nano. */
  function SuffixScale(x: real, c: char): real
    requires c in "mun"
  {
    if c == 'm' then x * 0.001 else if c == 'u' then x * 0.000001 else x * 0.000000001
  }

  function Scaled(v: Option<real>, c: char): Option<real>
    requires c in "mun"
  {
    match v
    case Some(x) => Some(SuffixScale(x, c))
    case None => None
  }

  /**
   * `convert_to_float`: a text ending in `m`, `u` or `n` (tested in that
   * order) loses every occurrence of that letter and is read and scaled;
   * other text is read as is; a number is returned unchanged; a value that
   * cannot be read gives `None`. A blank (NaN) cell, which Python turns into
   * NaN, also gives `None`: both compare false with anything.
   */
  function ConvertToFloat(v: Cell): Option<real>
  {
    match v
    case Blank => None
    case Number(x) => Some(x)
    case Text(s) =>
      if EndsWith(s, 'm') then Scaled(ParseNum(RemoveAll(s, "m")), 'm')
      else if EndsWith(s, 'u') then Scaled(ParseNum(RemoveAll(s, "u")), 'u')
      else if EndsWith(s, 'n') then Scaled(ParseNum(RemoveAll(s, "n")), 'n')
      else ParseNum(s)
  }

  /** A plain decimal string converts to its value. */
  lemma ConvertPlain(n: nat)
    ensures ConvertToFloat(Text(NatString(n))) == Some(n as real)
  {
    ParseNatString(n);
  }

  /** A text ending in none of the suffixes is read whole, unchanged. */
  lemma ConvertUnsuffixed(s: string)
    requires !EndsWith(s, 'm') && !EndsWith(s, 'u') && !EndsWith(s, 'n')
    ensures ConvertToFloat(Text(s)) == ParseNum(s)
  {
  }

  /** A value that is already a number is returned as it is; a blank (NaN) cell has no value. */
  lemma ConvertNonText(x: real)
    ensures ConvertToFloat(Number(x)) == Some(x)
    ensures ConvertToFloat(Blank) == None
  {
  }

  /** The suffix dispatch: a text ending in `c` is read with every `c` deleted, then scaled. */
  lemma ConvertSuffix(s: string, c: char)
    requires c in "mun" && EndsWith(s, c)
    ensures ConvertToFloat(Text(s)) == Scaled(ParseNum(DropChar(s, c)), c)
  {
    RemoveAllChar(s, c);
    assert "m" == ['m'] && "u" == ['u'] && "n" == ['n'];
  }

  /** A decimal string followed by one or more copies of a suffix converts to the scaled value. */
  lemma ConvertSuffixed(n: nat, c: char, copies: nat)
    requires c in "mun" && copies >= 1
    ensures ConvertToFloat(Text(NatString(n) + Repeat(c, copies))) == Some(SuffixScale(n as real, c))
  {
    var d := NatString(n);
    var s := d + Repeat(c, copies);
    assert EndsWith(s, c) by {
      assert s[|s| - 1] == Repeat(c, copies)[copies - 1];
    }
    ConvertSuffix(s, c);
    DropSuffixCopies(d, c, copies);
    assert DropChar(s, c) == d;
    ParseNatString(n);
    assert ParseNum(d) == Some(n as real);
  }

  lemma DropSuffixCopies(d: string, c: char, copies: nat)
    requires AllDigits(d) && c in "mun"
    ensures DropChar(d + Repeat(c, copies), c) == d
  {
    DropCharAppend(d, Repeat(c, copies), c);
    assert c !in d by {
      assert forall i :: 0 <= i < |d| ==> d[i] != c;
    }
    DropCharAbsent(d, c);
    DropRepeat(c, copies);
    assert d + [] == d;
  }

  function Repeat(c: char, k: nat): (s: string)
    ensures |s| == k && forall i :: 0 <= i < k ==> s[i] == c
  {
    if k == 0 then [] else [c] + Repeat(c, k - 1)
  }

  lemma {:induction false} DropRepeat(c: char, k: nat)
    ensures DropChar(Repeat(c, k), c) == []
  {
    if k > 0 {
      DropRepeat(c, k - 1);
    }
  }

  /** Under the modelled `float()`, text without a digit is not convertible, with or without a suffix ("", "abc", "m"). */
  lemma ConvertNoDigits(s: string)
    requires forall i :: 0 <= i < |s| ==> !IsDigit(s[i])
    ensures ConvertToFloat(Text(s)) == None
  {
    forall c | c in "mun"
      ensures ParseNum(RemoveAll(s, [c])) == None
    {
      RemoveAllChar(s, c);
      DropCharDigits(s, c);
      NoDigitsNoNumber(DropChar(s, c));
    }
    NoDigitsNoNumber(s);
    assert "m" == ['m'] && "u" == ['u'] && "n" == ['n'];
  }

  lemma {:induction false} DropCharDigits(s: string, c: char)
    requires forall i :: 0 <= i < |s| ==> !IsDigit(s[i])
    ensures forall i :: 0 <= i < |DropChar(s, c)| ==> !IsDigit(DropChar(s, c)[i])
  {
    if s != [] {
      DropCharDigits(s[1..], c);
    }
  }

  /** `float("0.01")` is 0.01. */
  lemma ParseHundredth()
    ensures ParseNum("0.01") == Some(0.01)
  {
    var s := "0.01";
    StripUnpadded(s);
    assert DigitSpan(s) == 1;
    assert s[..1] == "0" && s[1..] == ".01";
    var tail := s[1..][1..];
    assert tail == "01";
    DigitSpanAll(tail);
    assert tail[..2] == "01" && tail[2..] == [];
    HundredthMantissa();
    assert ParseUnsigned(s) == WithExponent(Mantissa("0", "01"), []);
  }

  lemma HundredthMantissa()
    ensures Mantissa("0", "01") == 0.01
  {
    assert "0" + "01" == ['0', '0', '1'];
    ThreeDigits('0', '0', '1');
    assert Pow10(2) == 100;
  }

  lemma ThreeDigits(a: char, b: char, c: char)
    requires IsDigit(a) && IsDigit(b) && IsDigit(c)
    ensures DigitsValue([a, b, c]) == 100 * DigitValue(a) + 10 * DigitValue(b) + DigitValue(c)
  {
    var d := [a, b, c];
    assert d[..2] == [a, b] && [a, b][..1] == [a] && [a][..0] == [];
    assert DigitsValue([a]) == DigitValue(a);
    assert DigitsValue([a, b]) == 10 * DigitValue(a) + DigitValue(b);
  }

  /** Example: "5m" is 0.005. */
  lemma ConvertMilliExample()
    ensures ConvertToFloat(Text("5m")) == Some(0.005)
  {
    assert NatString(5) + Repeat('m', 1) == "5m" by { assert Repeat('m', 1) == "m"; }
    ConvertSuffixed(5, 'm', 1);
  }

  /** Example: "3u" is 0.000003. */
  lemma ConvertMicroExample()
    ensures ConvertToFloat(Text("3u")) == Some(0.000003)
  {
    assert NatString(3) + Repeat('u', 1) == "3u" by { assert Repeat('u', 1) == "u"; }
    ConvertSuffixed(3, 'u', 1);
  }

  /** Example: "2n" is 0.000000002. */
  lemma ConvertNanoExample()
    ensures ConvertToFloat(Text("2n")) == Some(0.000000002)
  {
    assert NatString(2) + Repeat('n', 1) == "2n" by { assert Repeat('n', 1) == "n"; }
    ConvertSuffixed(2, 'n', 1);
  }

  /** Examples: "7" is 7.0 and "abc" is not convertible. */
  lemma ConvertPlainExamples()
    ensures ConvertToFloat(Text("7")) == Some(7.0)
    ensures ConvertToFloat(Text("abc")) == None
  {
    assert NatString(7) == "7";
    ConvertPlain(7);
    ConvertNoDigits("abc");
  }
}
