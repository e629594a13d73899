/**
 * Decimal formatting and JavaScript's `parseInt` (called without a radix),
 * the two halves of the `YYYY-Www` week-key round trip.
 */
module Numerals {
  import opened Wrappers

  predicate IsDigit(c: char) {
    '0' <= c <= '9'
  }

  function DigitChar(d: nat): (c: char)
    requires d < 10
    ensures IsDigit(c)
    ensures DigitValue(c, 10) == Some(d)
  {
    ('0' as int + d) as char
  }

  /** `String(n)` for a non-negative integer: its shortest decimal spelling. */
  function NatToString(n: nat): (s: string)
    ensures 1 <= |s|
    ensures forall i :: 0 <= i < |s| ==> IsDigit(s[i])
    ensures s[0] == '0' <==> n == 0
    ensures |s| == 1 <==> n < 10
    decreases n
  {
    if n < 10 then [DigitChar(n)] else NatToString(n / 10) + [DigitChar(n % 10)]
  }

  /** `String(n)` for any integer. */
  function IntToString(n: int): (s: string)
    ensures 1 <= |s|
    ensures s[0] == '-' || IsDigit(s[0])
    ensures forall i :: 1 <= i < |s| ==> IsDigit(s[i])
  {
    if n < 0 then "-" + NatToString(-n) else NatToString(n)
  }

  /** `s.padStart(2, '0')`. */
  function PadStart2(s: string): (r: string)
    ensures |r| == if |s| < 2 then 2 else |s|
    ensures r[|r| - |s|..] == s
    ensures forall i :: 0 <= i < |r| - |s| ==> r[i] == '0'
  {
    if |s| >= 2 then s else seq(2 - |s|, _ => '0') + s
  }

  /** The value of `c` as a digit of base `radix` (10 or 16 here), if it is one. */
  function DigitValue(c: char, radix: nat): Option<nat> {
    var v := if '0' <= c <= '9' then c as int - '0' as int
             else if 'a' <= c <= 'z' then c as int - 'a' as int + 10
             else if 'A' <= c <= 'Z' then c as int - 'A' as int + 10
             else 99;
    if v < radix then Some(v) else None
  }

  predicate AllDigits(s: string, radix: nat) {
    forall i :: 0 <= i < |s| ==> DigitValue(s[i], radix).Some?
  }

  /** The length of the longest prefix of `s` made of digits of base `radix`. */
  function DigitRun(s: string, radix: nat): (k: nat)
    ensures k <= |s|
    ensures AllDigits(s[..k], radix)
    ensures k < |s| ==> DigitValue(s[k], radix).None?
  {
    if s == [] || DigitValue(s[0], radix).None? then 0
    else
      var k := 1 + DigitRun(s[1..], radix);
      assert s[..k] == [s[0]] + s[1..][..k - 1];
      k
  }

  /** The number a string of digits spells, most significant digit first. */
  function ValueOf(s: string, radix: nat): nat
    requires AllDigits(s, radix)
  {
    if s == [] then 0
    else ValueOf(s[..|s| - 1], radix) * radix + DigitValue(s[|s| - 1], radix).value
  }

  /** The characters JavaScript's `StrWhiteSpaceChar` accepts (white space and line terminators). */
  predicate IsJsSpace(c: char) {
    var x := c as int;
    x == 0x09 || x == 0x0A || x == 0x0B || x == 0x0C || x == 0x0D || x == 0x20 || x == 0xA0
    || x == 0x1680 || 0x2000 <= x <= 0x200A || x == 0x2028 || x == 0x2029 || x == 0x202F
    || x == 0x205F || x == 0x3000 || x == 0xFEFF
  }

  function TrimStart(s: string): (r: string)
    ensures |r| <= |s| && r == s[|s| - |r|..]
    ensures r == [] || !IsJsSpace(r[0])
  {
    if s != [] && IsJsSpace(s[0]) then TrimStart(s[1..]) else s
  }

  /**
   * `parseInt(s)`: leading white space is skipped, then an optional sign, then
   * an optional `0x`/`0X` prefix selecting base 16; the longest run of digits
   * that follows is the number. `None` stands for `NaN` (no digits at all).
   */
  function ParseInt(s: string): (r: Option<int>)
    ensures r.None? <==> DigitRun(Digits(s), Radix(s)) == 0
  {
    var t := Unsigned(s);
    var digits := Digits(s);
    var radix := Radix(s);
    var k := DigitRun(digits, radix);
    if k == 0 then None
    else
      Some(Signed(Negative(s), ValueOf(digits[..k], radix)))
  }

  function Signed(negative: bool, m: nat): int {
    if negative then -(m as int) else m
  }

  predicate Negative(s: string) {
    var t := TrimStart(s);
    |t| > 0 && t[0] == '-'
  }

  /** The text after the white space and the sign. */
  function Unsigned(s: string): string {
    var t := TrimStart(s);
    if |t| > 0 && (t[0] == '-' || t[0] == '+') then t[1..] else t
  }

  predicate HexPrefixed(s: string) {
    var u := Unsigned(s);
    |u| >= 2 && u[0] == '0' && (u[1] == 'x' || u[1] == 'X')
  }

  function Radix(s: string): nat {
    if HexPrefixed(s) then 16 else 10
  }

  function Digits(s: string): string {
    var u := Unsigned(s);
    if HexPrefixed(s) then u[2..] else u
  }

  lemma DecimalDigitsAreDigits(s: string)
    requires forall i :: 0 <= i < |s| ==> IsDigit(s[i])
    ensures AllDigits(s, 10)
    ensures DigitRun(s, 10) == |s|
  {
    assert s[..|s|] == s;
  }

  /** Reading back the decimal spelling of `n` gives `n`. */
  lemma {:induction false} ValueOfNatToString(n: nat)
    ensures AllDigits(NatToString(n), 10)
    ensures ValueOf(NatToString(n), 10) == n
    decreases n
  {
    var s := NatToString(n);
    DecimalDigitsAreDigits(s);
    if n >= 10 {
      ValueOfNatToString(n / 10);
      assert s[..|s| - 1] == NatToString(n / 10);
    }
  }

  lemma NatToStringInjective(a: nat, b: nat)
    requires NatToString(a) == NatToString(b)
    ensures a == b
  {
    ValueOfNatToString(a);
    ValueOfNatToString(b);
  }

  /** Text that starts with a digit or a sign has no leading white space. */
  lemma TrimNoSpace(s: string)
    requires 1 <= |s| && (s[0] == '-' || IsDigit(s[0]))
    ensures TrimStart(s) == s
  {
    assert !IsJsSpace(s[0]);
  }

  /** How `parseInt` reads decimal digits without a sign. */
  lemma ScanPlain(u: string)
    requires 1 <= |u|
    requires forall i :: 0 <= i < |u| ==> IsDigit(u[i])
    ensures !Negative(u) && Digits(u) == u && Radix(u) == 10
  {
    assert IsDigit(u[0]);
    TrimNoSpace(u);
    assert !HexPrefixed(u) by {
      if |u| >= 2 { assert IsDigit(u[1]); }
    }
  }

  /** How `parseInt` reads a minus sign followed by decimal digits. */
  lemma ScanNegative(u: string)
    requires 1 <= |u|
    requires forall i :: 0 <= i < |u| ==> IsDigit(u[i])
    ensures Negative("-" + u) && Digits("-" + u) == u && Radix("-" + u) == 10
  {
    var s := "-" + u;
    TrimNoSpace(s);
    assert s[1..] == u;
    assert Unsigned(s) == u;
    assert IsDigit(u[0]);
    assert !HexPrefixed(s) by {
      if |u| >= 2 { assert IsDigit(u[1]); }
    }
  }

  /** How `parseInt` splits an optional minus sign followed by decimal digits. */
  lemma ScanDecimal(u: string, negative: bool)
    requires 1 <= |u|
    requires forall i :: 0 <= i < |u| ==> IsDigit(u[i])
    ensures Negative((if negative then "-" else "") + u) == negative
    ensures Digits((if negative then "-" else "") + u) == u
    ensures Radix((if negative then "-" else "") + u) == 10
  {
    if negative {
      ScanNegative(u);
    } else {
      assert "" + u == u;
      ScanPlain(u);
    }
  }

  /** `parseInt` of an optional minus sign followed by decimal digits. */
  lemma ParseIntOfDecimal(u: string, negative: bool)
    requires 1 <= |u|
    requires forall i :: 0 <= i < |u| ==> IsDigit(u[i])
    ensures AllDigits(u, 10)
    ensures ParseInt((if negative then "-" else "") + u) == Some(Signed(negative, ValueOf(u, 10)))
  {
    ScanDecimal(u, negative);
    DecimalDigitsAreDigits(u);
    assert u[..|u|] == u;
  }

  /** `parseInt(String(n)) == n` for every integer `n`. */
  lemma ParseIntOfIntToString(n: int)
    ensures ParseInt(IntToString(n)) == Some(n)
  {
    var m: nat := if n < 0 then -n else n;
    ValueOfNatToString(m);
    ParseIntOfDecimal(NatToString(m), n < 0);
    assert IntToString(n) == (if n < 0 then "-" else "") + NatToString(m);
  }

  lemma ValueOfOneDigit(c: char)
    requires IsDigit(c)
    ensures AllDigits([c], 10) && ValueOf([c], 10) == DigitValue(c, 10).value
  {
    assert [c][..0] == [];
  }

  lemma ValueOfZeroDigit(c: char)
    requires IsDigit(c)
    ensures AllDigits(['0', c], 10) && AllDigits([c], 10)
    ensures ValueOf(['0', c], 10) == ValueOf([c], 10)
  {
    ValueOfOneDigit(c);
    ValueOfOneDigit('0');
    assert ['0', c][..1] == ['0'];
  }

  lemma ParseIntOfZeroDigitRaw(c: char)
    requires IsDigit(c)
    ensures AllDigits(['0', c], 10)
    ensures ParseInt(['0', c]) == Some(ValueOf(['0', c], 10))
  {
    var s := ['0', c];
    ParseIntOfDecimal(s, false);
    assert "" + s == s;
  }

  /** `parseInt` of `0` followed by one decimal digit. */
  lemma ParseIntOfZeroDigit(c: char)
    requires IsDigit(c)
    ensures AllDigits([c], 10)
    ensures ParseInt(['0', c]) == Some(ValueOf([c], 10))
  {
    ParseIntOfZeroDigitRaw(c);
    ValueOfZeroDigit(c);
  }

  /** The one-digit case: `padStart` puts a `0` in front. */
  lemma ParseIntOfPaddedDigit(w: nat)
    requires w < 10
    ensures ParseInt(PadStart2(NatToString(w))) == Some(w)
  {
    var u := NatToString(w);
    ValueOfNatToString(w);
    assert u == [u[0]];
    assert PadStart2(u) == ['0', u[0]];
    ParseIntOfZeroDigit(u[0]);
  }

  /** The case of two digits or more: `padStart` changes nothing. */
  lemma ParseIntOfPaddedLong(w: nat)
    requires w >= 10
    ensures ParseInt(PadStart2(NatToString(w))) == Some(w)
  {
    var u := NatToString(w);
    ValueOfNatToString(w);
    assert PadStart2(u) == u;
    ParseIntOfDecimal(u, false);
    assert "" + u == u;
  }

  /** `parseInt(String(w).padStart(2, '0')) == w` for every non-negative `w`. */
  lemma ParseIntOfPadded(w: nat)
    ensures ParseInt(PadStart2(NatToString(w))) == Some(w)
  {
    if w < 10 {
      ParseIntOfPaddedDigit(w);
    } else {
      ParseIntOfPaddedLong(w);
    }
  }
}
