/**
 * Bytes on the wire and the decimal text of a byte count.
 *
 * The server writes its response head as the UTF-8 bytes of a Rust `String`.
 * That head is always ASCII, so the encoding used here is the ASCII one:
 * one byte per character, equal to the character's code point.
 */
module Bytes {

  newtype byte = x: int | 0 <= x < 256

  predicate IsAscii(s: string) {
    forall i :: 0 <= i < |s| ==> s[i] as int < 128
  }

  /** The UTF-8 bytes of an ASCII string. */
  function AsciiBytes(s: string): (b: seq<byte>)
    requires IsAscii(s)
  {
    seq(|s|, i requires 0 <= i < |s| => s[i] as int as byte)
  }

  /** Reads bytes back as characters; the inverse of AsciiBytes. */
  function AsciiText(b: seq<byte>): (s: string)
  {
    seq(|b|, i requires 0 <= i < |b| => b[i] as int as char)
  }

  lemma AsciiRoundTrip(s: string)
    requires IsAscii(s)
    ensures |AsciiBytes(s)| == |s|
    ensures AsciiText(AsciiBytes(s)) == s
  {
  }

  lemma AsciiConcat(a: string, b: string)
    requires IsAscii(a) && IsAscii(b)
    ensures IsAscii(a + b)
    ensures AsciiBytes(a + b) == AsciiBytes(a) + AsciiBytes(b)
  {
  }

  predicate IsDigit(c: char) {
    '0' <= c <= '9'
  }

  predicate AllDigits(s: string) {
    forall i :: 0 <= i < |s| ==> IsDigit(s[i])
  }

  function DigitChar(d: nat): (c: char)
    requires d < 10
    ensures IsDigit(c)
  {
    ('0' as int + d) as char
  }

  /**
   * The text `format!("{}", n)` produces for an unsigned integer:
   * decimal digits, most significant first, no sign and no leading zero.
   */
  function Decimal(n: nat): (s: string)
    ensures |s| >= 1 && AllDigits(s)
    ensures s[0] == '0' ==> n == 0 && s == "0"
    ensures IsAscii(s) && '\r' !in s
    decreases n
  {
    if n < 10 then [DigitChar(n)] else Decimal(n / 10) + [DigitChar(n % 10)]
  }

  /** The number a string of decimal digits denotes. */
  function DecimalValue(s: string): nat
    requires AllDigits(s)
    decreases |s|
  {
    if s == [] then 0
    else DecimalValue(s[..|s| - 1]) * 10 + (s[|s| - 1] as int - '0' as int)
  }

  /** Reading a rendered length gives back the length. */
  lemma {:induction false} DecimalRoundTrip(n: nat)
    ensures DecimalValue(Decimal(n)) == n
    decreases n
  {
    var s := Decimal(n);
    if n >= 10 {
      DecimalRoundTrip(n / 10);
      assert s[..|s| - 1] == Decimal(n / 10);
    }
  }

  /** Two lengths render to the same text only if they are equal. */
  lemma DecimalInjective(m: nat, n: nat)
    requires Decimal(m) == Decimal(n)
    ensures m == n
  {
    DecimalRoundTrip(m);
    DecimalRoundTrip(n);
  }
}
