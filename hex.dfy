/** Bytes and their lowercase hexadecimal text (`hexdigest()`, `encode('hex')`)
    and the inverse `decode('hex')` of Python 2. */
module Hex {
  import opened Wrappers

  type Byte = b: int | 0 <= b < 256

  const HEX_DIGITS: string := "0123456789abcdef"

  predicate IsLowerHexDigit(c: char) {
    '0' <= c <= '9' || 'a' <= c <= 'f'
  }

  predicate IsHexDigit(c: char) {
    IsLowerHexDigit(c) || 'A' <= c <= 'F'
  }

  /** The value of one hexadecimal digit of either case, as `decode('hex')` reads it. */
  function DigitValue(c: char): (r: Option<int>)
    ensures r.Some? <==> IsHexDigit(c)
    ensures r.Some? ==> 0 <= r.value < 16
  {
    if '0' <= c <= '9' then Some(c as int - '0' as int)
    else if 'a' <= c <= 'f' then Some(c as int - 'a' as int + 10)
    else if 'A' <= c <= 'F' then Some(c as int - 'A' as int + 10)
    else None
  }

  /** Two lowercase digits per byte, high nibble first. */
  function ToHex(bs: seq<Byte>): (r: string)
    ensures |r| == 2 * |bs|
    ensures forall i :: 0 <= i < |r| ==> IsLowerHexDigit(r[i])
  {
    if bs == [] then []
    else [HEX_DIGITS[bs[0] / 16], HEX_DIGITS[bs[0] % 16]] + ToHex(bs[1..])
  }

  /** `s.decode('hex')`: fails on an odd length or on a character that is not a
      hexadecimal digit. */
  function HexDecode(s: string): (r: Option<seq<Byte>>)
    ensures r.Some? <==> |s| % 2 == 0 && forall i :: 0 <= i < |s| ==> IsHexDigit(s[i])
    ensures r.Some? ==> |s| == 2 * |r.value|
  {
    if s == [] then Some([])
    else if |s| == 1 then None
    else
      var hi, lo, rest := DigitValue(s[0]), DigitValue(s[1]), HexDecode(s[2..]);
      assert forall i :: 2 <= i < |s| ==> s[i] == s[2..][i - 2];
      if hi.Some? && lo.Some? && rest.Some? then Some([hi.value * 16 + lo.value] + rest.value)
      else None
  }

  lemma DigitValueOfHex(n: int)
    requires 0 <= n < 16
    ensures DigitValue(HEX_DIGITS[n]) == Some(n)
  {
  }

  /** `decode('hex')` undoes `encode('hex')`. */
  lemma {:induction false} HexRoundTrip(bs: seq<Byte>)
    ensures HexDecode(ToHex(bs)) == Some(bs)
  {
    if bs != [] {
      HexRoundTrip(bs[1..]);
      var hi, lo := bs[0] / 16, bs[0] % 16;
      DigitValueOfHex(hi);
      DigitValueOfHex(lo);
      var s := ToHex(bs);
      assert s[0] == HEX_DIGITS[hi] && s[1] == HEX_DIGITS[lo];
      assert s[2..] == ToHex(bs[1..]);
      assert hi * 16 + lo == bs[0];
      assert [bs[0]] + bs[1..] == bs;
    }
  }

  /** Hex text distributes over concatenation. */
  lemma {:induction false} HexAppend(a: seq<Byte>, b: seq<Byte>)
    ensures ToHex(a + b) == ToHex(a) + ToHex(b)
  {
    if a != [] {
      var d := [HEX_DIGITS[a[0] / 16], HEX_DIGITS[a[0] % 16]];
      assert (a + b)[0] == a[0] && (a + b)[1..] == a[1..] + b;
      HexAppend(a[1..], b);
      calc {
        ToHex(a + b);
        d + ToHex(a[1..] + b);
        d + (ToHex(a[1..]) + ToHex(b));
        (d + ToHex(a[1..])) + ToHex(b);
      }
    } else {
      assert a + b == b;
    }
  }
}
