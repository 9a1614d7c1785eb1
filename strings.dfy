/**
 * The pieces of JavaScript's number-to-text conversion and string search that the
 * page relies on: `Number.prototype.toString` for integers, `padStart(2, '0')`,
 * truncating `%`, `String.prototype.includes`, an ASCII case-insensitive search
 * (what a `/…/i` regular expression of ASCII letters does), and a reader that
 * recovers the numbers a formatter wrote, so that formatters can be checked
 * against their inverse.
 */
module Strings {

  predicate IsDigit(c: char) {
    '0' <= c <= '9'
  }

  predicate AllDigits(s: string) {
    forall i :: 0 <= i < |s| ==> IsDigit(s[i])
  }

  predicate NoDigits(s: string) {
    forall i :: 0 <= i < |s| ==> !IsDigit(s[i])
  }

  function DigitChar(d: nat): (c: char)
    requires d < 10
    ensures IsDigit(c)
  {
    ('0' as int + d) as char
  }

  function DigitValue(c: char): (d: nat)
    requires IsDigit(c)
    ensures d < 10
  {
    c as int - '0' as int
  }

  /** The decimal text of a non-negative integer, without leading zeros. */
  function NatToString(n: nat): (s: string)
    ensures |s| >= 1 && AllDigits(s)
    ensures |s| == 1 <==> n < 10
    ensures n < 100 ==> |s| <= 2
    decreases n
  {
    if n < 10 then [DigitChar(n)] else NatToString(n / 10) + [DigitChar(n % 10)]
  }

  /** `Number.prototype.toString` of an integer: a minus sign, then the digits. */
  function IntToString(i: int): (s: string)
    ensures i >= 0 ==> s == NatToString(i)
    ensures i < 0 ==> s == "-" + NatToString(-i)
  {
    if i < 0 then "-" + NatToString(-i) else NatToString(i)
  }

  /** The value of a digit string read left to right; leading zeros are allowed. */
  function ValueOf(s: string): nat
    requires AllDigits(s)
    decreases |s|
  {
    if s == [] then 0 else ValueOf(s[..|s| - 1]) * 10 + DigitValue(s[|s| - 1])
  }

  /** Reading back the decimal text of `n` gives `n`. */
  lemma {:induction false} ValueOfNatToString(n: nat)
    ensures ValueOf(NatToString(n)) == n
    decreases n
  {
    if n >= 10 {
      ValueOfNatToString(n / 10);
      var s := NatToString(n);
      assert s[..|s| - 1] == NatToString(n / 10);
    }
  }

  /** A leading zero does not change the value of a digit string. */
  lemma {:induction false} ValueOfLeadingZero(s: string)
    requires AllDigits(s)
    ensures AllDigits("0" + s) && ValueOf("0" + s) == ValueOf(s)
    decreases |s|
  {
    var t := "0" + s;
    if s != [] {
      ValueOfLeadingZero(s[..|s| - 1]);
      assert t[..|t| - 1] == "0" + s[..|s| - 1];
    }
  }

  /** `padStart(2, '0')`. */
  function Pad2(s: string): (r: string)
    ensures |s| >= 2 ==> r == s
    ensures |s| < 2 ==> |r| == 2 && r[2 - |s|..] == s
    ensures forall i :: 0 <= i < 2 - |s| ==> r[i] == '0'
  {
    if |s| == 0 then "00" else if |s| == 1 then "0" + s else s
  }

  /** Padding the decimal text of a number below 100 yields two digits that still read as that number. */
  lemma Pad2NatToString(n: nat)
    requires n < 100
    ensures |Pad2(NatToString(n))| == 2 && AllDigits(Pad2(NatToString(n)))
    ensures ValueOf(Pad2(NatToString(n))) == n
  {
    ValueOfNatToString(n);
    if n < 10 {
      ValueOfLeadingZero(NatToString(n));
    }
  }

  /** JavaScript's `a % b` for a positive divisor: the remainder takes the sign of `a`. */
  function JsRem(a: int, b: int): (r: int)
    requires b > 0
    ensures a >= 0 ==> r == a % b
    ensures -b < r < b
    ensures a >= 0 ==> r >= 0
    ensures a < 0 ==> r <= 0
    ensures a < 0 ==> r == -((-a) % b)
    ensures (a - r) % b == 0
  {
    if a >= 0 then
      assert a - a % b == b * (a / b);
      MultipleRem(b, a / b);
      a % b
    else
      assert a + (-a) % b == b * -((-a) / b);
      MultipleRem(b, -((-a) / b));
      -((-a) % b)
  }

  /** A multiple of `b` leaves no remainder. */
  lemma MultipleRem(b: int, k: int)
    requires b > 0
    ensures (b * k) % b == 0
  {
    var x := b * k;
    var d := k - x / b;
    assert x % b == b * d;
    if d != 0 {
      assert false;
    }
  }

  /** `s.includes(sub)`. */
  predicate Contains(s: string, sub: string) {
    exists i :: 0 <= i <= |s| && sub <= s[i..]
  }

  /** ASCII lower-casing: only 'A' to 'Z' change. */
  function LowerChar(c: char): char {
    if 'A' <= c <= 'Z' then (c as int + 32) as char else c
  }

  function Lower(s: string): (r: string)
    ensures |r| == |s|
    ensures forall i :: 0 <= i < |s| ==> r[i] == LowerChar(s[i])
  {
    seq(|s|, i requires 0 <= i < |s| => LowerChar(s[i]))
  }

  /**
   * Case-insensitive search for an ASCII pattern, as `/pattern/i` does: JavaScript's
   * case-insensitive matching never maps a non-ASCII character onto an ASCII one, so
   * folding ASCII letters alone is exact for ASCII patterns.
   */
  predicate ContainsIgnoreCase(s: string, sub: string) {
    Contains(Lower(s), Lower(sub))
  }

  /** The length of the run of digits at the start of `t`. */
  function DigitRun(t: string): (k: nat)
    ensures k <= |t|
    ensures AllDigits(t[..k])
    ensures k < |t| ==> !IsDigit(t[k])
    ensures t != [] && IsDigit(t[0]) ==> k >= 1
    decreases |t|
  {
    if t == [] || !IsDigit(t[0]) then 0 else 1 + DigitRun(t[1..])
  }

  /**
   * The values of the maximal runs of digits in `t`, left to right: what a reader of
   * a formatted duration recovers from it, whatever separators stand between the numbers.
   */
  function Numbers(t: string): seq<nat>
    decreases |t|
  {
    if t == [] then []
    else if !IsDigit(t[0]) then Numbers(t[1..])
    else
      var k := DigitRun(t);
      [ValueOf(t[..k])] + Numbers(t[k..])
  }

  /** Digits followed by a non-digit (or nothing) form exactly one run. */
  lemma {:induction false} DigitRunOf(d: string, rest: string)
    requires AllDigits(d)
    requires rest == [] || !IsDigit(rest[0])
    ensures DigitRun(d + rest) == |d|
    decreases |d|
  {
    if d != [] {
      assert (d + rest)[1..] == d[1..] + rest;
      DigitRunOf(d[1..], rest);
    }
  }

  /** A run of digits contributes its value, then reading continues after it. */
  lemma NumbersDigits(d: string, rest: string)
    requires d != [] && AllDigits(d)
    requires rest == [] || !IsDigit(rest[0])
    ensures Numbers(d + rest) == [ValueOf(d)] + Numbers(rest)
  {
    DigitRunOf(d, rest);
    var t := d + rest;
    assert t[..|d|] == d;
    assert t[|d|..] == rest;
  }

  /** Separators contribute nothing. */
  lemma {:induction false} NumbersSeparator(u: string, rest: string)
    requires NoDigits(u)
    ensures Numbers(u + rest) == Numbers(rest)
    decreases |u|
  {
    if u != [] {
      var t := u + rest;
      assert t[0] == u[0] && !IsDigit(t[0]);
      assert t[1..] == u[1..] + rest;
      assert NoDigits(u[1..]);
      NumbersSeparator(u[1..], rest);
      assert Numbers(t) == Numbers(t[1..]);
    } else {
      assert u + rest == rest;
    }
  }

  /** Reading one number written in decimal gives back that number. */
  lemma NumbersOfNat(n: nat, rest: string)
    requires rest == [] || !IsDigit(rest[0])
    ensures Numbers(NatToString(n) + rest) == [n] + Numbers(rest)
  {
    NumbersDigits(NatToString(n), rest);
    ValueOfNatToString(n);
  }

  /** Reading one two-digit padded number below 100 gives back that number. */
  lemma NumbersOfPadded(n: nat, rest: string)
    requires n < 100
    requires rest == [] || !IsDigit(rest[0])
    ensures Numbers(Pad2(NatToString(n)) + rest) == [n] + Numbers(rest)
  {
    Pad2NatToString(n);
    NumbersDigits(Pad2(NatToString(n)), rest);
  }

  /** Mixed fields of base 60 (hours, minutes, seconds), most significant first. */
  function Base60(fields: seq<nat>): nat {
    if fields == [] then 0 else Base60(fields[..|fields| - 1]) * 60 + fields[|fields| - 1]
  }

  /** One, two and three fields, written out. */
  lemma Base60Fields(a: nat, b: nat, c: nat)
    ensures Base60([a]) == a
    ensures Base60([a, b]) == a * 60 + b
    ensures Base60([a, b, c]) == (a * 60 + b) * 60 + c
  {
    assert [a, b][..1] == [a];
    assert [a, b, c][..2] == [a, b];
  }

  /** Division by 60 with remainder is unique. */
  lemma DivMod60(x: int, q: int, r: int)
    requires 0 <= r < 60 && x == q * 60 + r
    ensures x / 60 == q && x % 60 == r
  {
  }

  /** Seconds split into hours, minutes and seconds, two ways. */
  lemma ClockArithmetic(s: nat)
    ensures s / 3600 == s / 60 / 60 && s % 3600 / 60 == s / 60 % 60
    ensures s == s / 60 * 60 + s % 60
    ensures s / 60 == s / 3600 * 60 + s % 3600 / 60
  {
    var q, r := s / 3600, s % 3600;
    var m, c := r / 60, r % 60;
    assert r == m * 60 + c;
    assert s == (q * 60 + m) * 60 + c;
    DivMod60(s, q * 60 + m, c);
    DivMod60(s / 60, q, m);
  }
}
