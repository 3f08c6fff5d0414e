/** The two textual encodings the downloader builds names from: lower-case
    hexadecimal (Go's `hex.EncodeToString`, used by `urlHash`) and decimal
    numerals (`fmt.Sprintf("%d", n)`, used for download IDs). Each comes with
    its decoder and the round trip between them. */
module Encoding {
  import opened Wrappers

  newtype byte = x: int | 0 <= x < 256

  predicate IsLowerHex(c: char) {
    '0' <= c <= '9' || 'a' <= c <= 'f'
  }

  predicate IsDigit(c: char) {
    '0' <= c <= '9'
  }

  predicate AllDigits(s: string) {
    forall i | 0 <= i < |s| :: IsDigit(s[i])
  }

  /** Value of a lower-case hexadecimal digit. */
  function HexValue(c: char): (n: int)
    requires IsLowerHex(c)
    ensures 0 <= n < 16
  {
    if c <= '9' then c as int - '0' as int else c as int - 'a' as int + 10
  }

  /** The digit of "0123456789abcdef" at position n. */
  function HexChar(n: int): (c: char)
    requires 0 <= n < 16
    ensures IsLowerHex(c)
    ensures HexValue(c) == n
  {
    if n < 10 then ('0' as int + n) as char else ('a' as int + n - 10) as char
  }

  lemma HexCharOfValue(c: char)
    requires IsLowerHex(c)
    ensures HexChar(HexValue(c)) == c
  {
  }

  /** Two lower-case hex digits per byte, high nibble first. */
  function HexEncode(bs: seq<byte>): (s: string)
    ensures |s| == 2 * |bs|
    ensures forall i | 0 <= i < |s| :: IsLowerHex(s[i])
  {
    if bs == [] then ""
    else [HexChar(bs[0] as int / 16), HexChar(bs[0] as int % 16)] + HexEncode(bs[1..])
  }

  /** Reads pairs of lower-case hex digits back into bytes; None on an odd
      length or a character that is not a lower-case hex digit. */
  function HexDecode(s: string): (r: Option<seq<byte>>)
    ensures r.Some? ==> 2 * |r.value| == |s|
  {
    if s == [] then Some([])
    else if |s| == 1 || !IsLowerHex(s[0]) || !IsLowerHex(s[1]) then None
    else
      match HexDecode(s[2..])
      case None => None
      case Some(rest) => Some([(HexValue(s[0]) * 16 + HexValue(s[1])) as byte] + rest)
  }

  lemma {:induction false} HexRoundTrip(bs: seq<byte>)
    ensures HexDecode(HexEncode(bs)) == Some(bs)
  {
    if bs != [] {
      var s := HexEncode(bs);
      assert s[2..] == HexEncode(bs[1..]);
      HexRoundTrip(bs[1..]);
      var b := bs[0] as int;
      assert HexValue(s[0]) * 16 + HexValue(s[1]) == b;
      assert [bs[0]] + bs[1..] == bs;
    }
  }

  lemma {:induction false} HexDecodeInverse(s: string, bs: seq<byte>)
    requires HexDecode(s) == Some(bs)
    ensures HexEncode(bs) == s
  {
    if s != [] {
      var rest := HexDecode(s[2..]).value;
      HexDecodeInverse(s[2..], rest);
      var v := HexValue(s[0]) * 16 + HexValue(s[1]);
      assert v / 16 == HexValue(s[0]) && v % 16 == HexValue(s[1]);
      HexCharOfValue(s[0]);
      HexCharOfValue(s[1]);
      assert bs[1..] == rest;
      assert s == [s[0], s[1]] + s[2..];
    }
  }

  /** Every even-length text of lower-case hex digits decodes, so the
      encoding maps onto exactly those texts. */
  lemma {:induction false} EvenHexDecodes(s: string)
    requires |s| % 2 == 0
    requires forall i | 0 <= i < |s| :: IsLowerHex(s[i])
    ensures HexDecode(s).Some?
    ensures HexEncode(HexDecode(s).value) == s
    decreases |s|
  {
    if s != [] {
      assert IsLowerHex(s[0]) && IsLowerHex(s[1]);
      assert forall i | 0 <= i < |s[2..]| :: s[2..][i] == s[i + 2];
      EvenHexDecodes(s[2..]);
      HexDecodeInverse(s, HexDecode(s).value);
    }
  }

  function DigitChar(n: int): (c: char)
    requires 0 <= n < 10
    ensures IsDigit(c)
  {
    ('0' as int + n) as char
  }

  /** The decimal numeral of n, as `%d` prints it. */
  function Decimal(n: nat): (s: string)
    ensures |s| >= 1
    ensures AllDigits(s)
    ensures s[0] == '0' ==> n == 0
    ensures n == 0 ==> s == "0"
  {
    if n < 10 then [DigitChar(n)] else Decimal(n / 10) + [DigitChar(n % 10)]
  }

  /** The value of a string of decimal digits (empty reads as 0). */
  function ParseDecimal(s: string): nat
    requires AllDigits(s)
  {
    if s == [] then 0 else ParseDecimal(s[..|s| - 1]) * 10 + (s[|s| - 1] as int - '0' as int)
  }

  lemma {:induction false} DecimalRoundTrip(n: nat)
    ensures ParseDecimal(Decimal(n)) == n
  {
    if n >= 10 {
      var s := Decimal(n);
      assert s[..|s| - 1] == Decimal(n / 10);
      DecimalRoundTrip(n / 10);
    }
  }

  lemma DecimalInjective(a: nat, b: nat)
    ensures Decimal(a) == Decimal(b) <==> a == b
  {
    DecimalRoundTrip(a);
    DecimalRoundTrip(b);
  }
}
