/** Decimal text: what printf's %d, %ld and %u write for a non-negative
    value, and what strtol(s, &end, 10) reads back. */
module Decimal {
  import opened CBytes

  function Digit(d: nat): (c: byte)
    requires d < 10
    ensures IsDigit(c)
  {
    (0x30 + d) as bv8
  }

  function DigitValue(c: byte): (d: nat)
    requires IsDigit(c)
    ensures d < 10 && Digit(d) == c
  {
    (c - 0x30) as int
  }

  lemma DigitRoundTrip(d: nat)
    requires d < 10
    ensures DigitValue(Digit(d)) == d
  {
  }

  predicate AllDigits(s: seq<byte>) { forall i | 0 <= i < |s| :: IsDigit(s[i]) }

  /** printf("%d", n) for n >= 0: most significant digit first, no leading zero. */
  function ToDecimal(n: nat): (r: seq<byte>)
    ensures 1 <= |r| && AllDigits(r)
    ensures |r| > 1 ==> r[0] != Digit(0)
  {
    if n < 10 then [Digit(n)] else ToDecimal(n / 10) + [Digit(n % 10)]
  }

  /** The value of a run of decimal digits. */
  function DigitsValue(s: seq<byte>): nat
    requires AllDigits(s)
  {
    if s == [] then 0 else 10 * DigitsValue(s[..|s| - 1]) + DigitValue(s[|s| - 1])
  }

  /** Reading back what printf wrote gives the value that was printed. */
  lemma {:induction false} DecimalRoundTrip(n: nat)
    ensures DigitsValue(ToDecimal(n)) == n
  {
    if n >= 10 {
      var q, d := n / 10, n % 10;
      assert n == 10 * q + d;
      DecimalRoundTrip(q);
      DigitRoundTrip(d);
      DigitsValueSnoc(ToDecimal(q), Digit(d));
      assert ToDecimal(n) == ToDecimal(q) + [Digit(d)];
    } else {
      DigitRoundTrip(n);
      DigitsValueSnoc([], Digit(n));
      assert [] + [Digit(n)] == ToDecimal(n);
      assert DigitsValue([]) == 0;
    }
  }

  /** One more digit at the end: ten times the value, plus the digit. */
  lemma DigitsValueSnoc(p: seq<byte>, c: byte)
    requires AllDigits(p) && IsDigit(c)
    ensures AllDigits(p + [c]) && DigitsValue(p + [c]) == 10 * DigitsValue(p) + DigitValue(c)
  {
    assert (p + [c])[..|p|] == p;
  }

  /** The longest prefix of decimal digits. */
  function LeadingDigits(s: seq<byte>): (r: seq<byte>)
    ensures HasPrefix(s, r) && AllDigits(r)
    ensures |r| == |s| || !IsDigit(s[|r|])
  {
    if s == [] || !IsDigit(s[0]) then []
    else
      var r := [s[0]] + LeadingDigits(s[1..]);
      assert s[..|r|] == [s[0]] + s[1..][..|r| - 1];
      r
  }

  /** The bytes left after skipping leading isspace characters. */
  function SkipSpace(s: seq<byte>): (r: seq<byte>)
    ensures |r| <= |s| && r == s[|s| - |r|..]
    ensures r == [] || !IsSpace(r[0])
    ensures forall i | 0 <= i < |s| - |r| :: IsSpace(s[i])
  {
    if s != [] && IsSpace(s[0]) then SkipSpace(s[1..]) else s
  }

  /** strtol(s, &end, 10): leading white space, an optional sign, then
      the longest run of digits; 0 when there are no digits. */
  function Strtol(s: seq<byte>): int
  {
    var t := SkipSpace(s);
    var signed := |t| > 0 && (t[0] == DASH || t[0] == PLUS);
    var u := if signed then t[1..] else t;
    var v: int := DigitsValue(LeadingDigits(u));
    if signed && t[0] == DASH then -v else v
  }

  /** A negative result needs a minus sign after the white space. */
  lemma StrtolNegative(s: seq<byte>)
    requires Strtol(s) < 0
    ensures |SkipSpace(s)| > 0 && SkipSpace(s)[0] == DASH
  {
  }

  lemma {:induction false} LeadingDigitsOfDigits(d: seq<byte>, rest: seq<byte>)
    requires AllDigits(d)
    requires rest == [] || !IsDigit(rest[0])
    ensures LeadingDigits(d + rest) == d
  {
    if d != [] {
      assert (d + rest)[1..] == d[1..] + rest;
      LeadingDigitsOfDigits(d[1..], rest);
    } else {
      assert d + rest == rest;
    }
  }

  /** strtol reads back the text of printf("%d", n), whatever non-digit text follows it. */
  lemma StrtolOfDecimal(n: nat, rest: seq<byte>)
    requires rest == [] || !IsDigit(rest[0])
    ensures Strtol(ToDecimal(n) + rest) == n
  {
    var s := ToDecimal(n) + rest;
    assert !IsSpace(s[0]) && s[0] != DASH && s[0] != PLUS;
    assert SkipSpace(s) == s;
    LeadingDigitsOfDigits(ToDecimal(n), rest);
    DecimalRoundTrip(n);
  }
}
