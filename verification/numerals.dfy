/** Decimal and hexadecimal numerals: what Python's `'%d' % n`, `'%x' % n`,
    `int(s, 10)` and `int(s, 16)` do on plain ASCII digit strings. */
module Numerals {
  import opened Radix

  predicate IsDecimalDigit(c: char) {
    '0' <= c <= '9'
  }

  /** A character of Python's `ipaddress` hex-digit set (either case). */
  predicate IsHexDigit(c: char) {
    IsDecimalDigit(c) || 'a' <= c <= 'f' || 'A' <= c <= 'F'
  }

  predicate AllDecimal(s: string) {
    forall i :: 0 <= i < |s| ==> IsDecimalDigit(s[i])
  }

  predicate AllHex(s: string) {
    forall i :: 0 <= i < |s| ==> IsHexDigit(s[i])
  }

  function HexDigitValue(c: char): (d: nat)
    requires IsHexDigit(c)
    ensures d < 16
    ensures IsDecimalDigit(c) ==> d < 10
    ensures c == '0' <==> d == 0
  {
    if IsDecimalDigit(c) then (c - '0') as nat
    else if 'a' <= c <= 'f' then (c - 'a') as nat + 10
    else (c - 'A') as nat + 10
  }

  function DigitValues(s: string): (ds: seq<nat>)
    requires AllHex(s)
    ensures |ds| == |s|
    ensures AllBelow(ds, 16)
  {
    seq(|s|, i requires 0 <= i < |s| => HexDigitValue(s[i]))
  }

  /** `int(s, 10)` for a string of ASCII decimal digits. */
  function DecimalValue(s: string): nat
    requires AllDecimal(s)
  {
    FromDigits(DigitValues(s), 10)
  }

  /** `int(s, 16)` for a string of hex digits. */
  function HexValue(s: string): nat
    requires AllHex(s)
  {
    FromDigits(DigitValues(s), 16)
  }

  const LowerDigits: string := "0123456789abcdef"

  function DigitChars(ds: seq<nat>): (s: string)
    requires AllBelow(ds, 16)
    ensures |s| == |ds|
    ensures AllHex(s)
    ensures AllBelow(ds, 10) ==> AllDecimal(s)
    ensures forall i :: 0 <= i < |s| ==> s[i] in LowerDigits
  {
    seq(|ds|, i requires 0 <= i < |ds| => LowerDigits[ds[i]])
  }

  /** `'%d' % n`. */
  function DecimalText(n: nat): (s: string)
    ensures AllDecimal(s)
  {
    DigitChars(MinimalDigits(n, 10))
  }

  /** `'%x' % n`: lower-case digits, no leading zeros. */
  function HexText(n: nat): (s: string)
    ensures AllHex(s)
    ensures forall i :: 0 <= i < |s| ==> s[i] in LowerDigits
  {
    DigitChars(MinimalDigits(n, 16))
  }

  lemma {:induction false} DigitValuesOfChars(ds: seq<nat>)
    requires AllBelow(ds, 16)
    ensures DigitValues(DigitChars(ds)) == ds
  {
    var s := DigitChars(ds);
    forall i | 0 <= i < |ds|
      ensures HexDigitValue(s[i]) == ds[i]
    {
      DigitRoundTrip(ds[i]);
    }
  }

  lemma DigitRoundTrip(d: nat)
    requires d < 16
    ensures IsHexDigit(LowerDigits[d]) && HexDigitValue(LowerDigits[d]) == d
  {
  }

  /** Reading a printed decimal numeral gives the number back. */
  lemma {:induction false} DecimalRoundTrip(n: nat)
    ensures DecimalValue(DecimalText(n)) == n
  {
    DigitValuesOfChars(MinimalDigits(n, 10));
    FromMinimalDigits(n, 10);
  }

  /** Reading a printed hexadecimal numeral gives the number back. */
  lemma {:induction false} HexRoundTrip(n: nat)
    ensures HexValue(HexText(n)) == n
  {
    DigitValuesOfChars(MinimalDigits(n, 16));
    FromMinimalDigits(n, 16);
  }

  /** The decimal text without a superfluous leading zero is the one that
      `'%d'` prints for its value. */
  lemma {:induction false} DecimalTextOfValue(s: string)
    requires s != [] && AllDecimal(s)
    requires s == "0" || s[0] != '0'
    ensures DecimalText(DecimalValue(s)) == s
  {
    CanonicalDigitValues(s);
    MinimalOfCanonical(DigitValues(s), 10);
    CharsOfDigitValues(s);
  }

  lemma CanonicalDigitValues(s: string)
    requires s != [] && AllDecimal(s)
    requires s == "0" || s[0] != '0'
    ensures AllBelow(DigitValues(s), 10) && Canonical(DigitValues(s))
  {
  }

  /** Printing the values of decimal digits gives the digits back. */
  lemma CharsOfDigitValues(s: string)
    requires AllDecimal(s)
    ensures DigitChars(DigitValues(s)) == s
  {
    var t := DigitChars(DigitValues(s));
    forall i | 0 <= i < |s|
      ensures t[i] == s[i]
    {
      CharRoundTrip(s[i]);
    }
  }

  lemma CharRoundTrip(c: char)
    requires IsDecimalDigit(c)
    ensures LowerDigits[HexDigitValue(c)] == c
  {
  }

  lemma {:induction false} HexTextLength(n: nat)
    requires n < 0x1_0000
    ensures 1 <= |HexText(n)| <= 4
  {
    assert Pow(16, 4) == 0x1_0000;
    MinimalDigitsLength(n, 16, 4);
  }

  lemma {:induction false} DecimalTextLength(n: nat)
    requires n < 1000
    ensures 1 <= |DecimalText(n)| <= 3
  {
    assert Pow(10, 3) == 1000;
    MinimalDigitsLength(n, 10, 3);
  }

  /** `'%d'` never prints a superfluous leading zero. */
  lemma {:induction false} DecimalTextCanonical(n: nat)
    ensures DecimalText(n) != []
    ensures DecimalText(n) == "0" || DecimalText(n)[0] != '0'
  {
    var ds := MinimalDigits(n, 10);
    DigitRoundTrip(ds[0]);
    if ds[0] == 0 {
      assert |ds| == 1;
      assert DecimalText(n) == [LowerDigits[0]];
    }
  }

  /** Only zero prints as the single digit "0". */
  lemma {:induction false} HexTextZero(n: nat)
    ensures HexText(n) == "0" <==> n == 0
  {
    var ds := MinimalDigits(n, 16);
    if HexText(n) == "0" {
      assert |ds| == 1;
      assert HexText(n)[0] == LowerDigits[ds[0]] == '0';
      DigitRoundTrip(ds[0]);
    }
  }
}
