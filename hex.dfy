/** `hex_to_bytes` (src/lib.rs): a string of hexadecimal digit pairs to bytes. */
module Hex {
  import opened Common

  predicate IsHexDigit(ch: char) {
    ('0' <= ch <= '9') || ('a' <= ch <= 'f') || ('A' <= ch <= 'F')
  }

  /** The value of a hexadecimal digit, either case. */
  function DigitValue(ch: char): (d: nat)
    requires IsHexDigit(ch)
    ensures d < 16
  {
    if '0' <= ch <= '9' then ch as int - '0' as int
    else if 'a' <= ch <= 'f' then ch as int - 'a' as int + 10
    else ch as int - 'A' as int + 10
  }

  /** `u8::from_str_radix` on the two-character string `[a, b]` in base 16.
      Besides two digits it accepts a leading `+` before a single digit;
      a leading `-` is a digit error for an unsigned type. */
  function ParseByte(a: char, b: char): (r: Option<byte>)
    ensures r.Some? <==> IsHexDigit(b) && (a == '+' || IsHexDigit(a))
    ensures r.Some? && a == '+' ==> r.value == DigitValue(b)
    ensures r.Some? && a != '+' ==> r.value == 16 * DigitValue(a) + DigitValue(b)
  {
    if a == '+' then
      (if IsHexDigit(b) then Some(DigitValue(b)) else None)
    else if IsHexDigit(a) && IsHexDigit(b) then
      Some(16 * DigitValue(a) + DigitValue(b))
    else
      None
  }

  /** The result of parsing the `k`-th pair of `s`. */
  function PairAt(s: string, k: nat): Option<byte>
    requires 2 * k + 1 < |s|
  {
    ParseByte(s[2 * k], s[2 * k + 1])
  }

  predicate IsAscii(s: string) {
    forall i :: 0 <= i < |s| ==> s[i] as int < 0x80
  }

  /** `hex_to_bytes`: parses `s` two characters at a time and stops at the
      first pair that is not a byte. The precondition asks for an even
      length and ASCII characters, so that every pair is two characters.
      On other strings the source either panics when it slices the string
      or, when an earlier pair already fails to parse or the slice happens
      to land on character boundaries, returns `Err`; those strings are not
      modelled. */
  function HexToBytes(s: string): (r: Result<seq<byte>>)
    requires |s| % 2 == 0 && IsAscii(s)
    ensures r.Ok? <==> forall k :: 0 <= k < |s| / 2 ==> PairAt(s, k).Some?
    ensures r.Ok? ==> |r.value| == |s| / 2 &&
                      forall k :: 0 <= k < |s| / 2 ==> PairAt(s, k) == Some(r.value[k])
  {
    if |s| == 0 then Ok([])
    else
      match ParseByte(s[0], s[1])
      case None => assert PairAt(s, 0).None?; Err
      case Some(b) =>
        var tail := HexToBytes(s[2..]);
        assert forall k :: 0 <= k < |s| / 2 - 1 ==> PairAt(s[2..], k) == PairAt(s, k + 1);
        assert forall k :: 1 <= k < |s| / 2 ==> PairAt(s, k) == PairAt(s[2..], k - 1);
        match tail
        case Err => Err
        case Ok(rest) => Ok([b] + rest)
  }

  /** A pair of two digits denotes the byte `16 * high + low`. */
  lemma PairOfDigits(a: char, b: char)
    requires IsHexDigit(a) && IsHexDigit(b)
    ensures ParseByte(a, b) == Some(16 * DigitValue(a) + DigitValue(b))
  {
  }

  /** The upper-case digit for a value below 16. */
  function HexDigit(d: nat): (ch: char)
    requires d < 16
    ensures IsHexDigit(ch) && DigitValue(ch) == d && ch as int < 0x80
  {
    if d < 10 then ('0' as int + d) as char else ('A' as int + d - 10) as char
  }

  /** The upper-case hexadecimal text of a byte string: the inverse of
      `HexToBytes`. */
  function ToHex(bytes: seq<byte>): (s: string)
    ensures |s| == 2 * |bytes| && IsAscii(s)
  {
    if bytes == [] then []
    else [HexDigit(bytes[0] / 16), HexDigit(bytes[0] % 16)] + ToHex(bytes[1..])
  }

  /** Parsing the hexadecimal text of any byte string gives the bytes back. */
  lemma {:induction false} HexRoundTrip(bytes: seq<byte>)
    ensures HexToBytes(ToHex(bytes)) == Ok(bytes)
  {
    if bytes != [] {
      var s := ToHex(bytes);
      assert s[2..] == ToHex(bytes[1..]);
      HexRoundTrip(bytes[1..]);
      PairOfDigits(s[0], s[1]);
      assert ParseByte(s[0], s[1]) == Some(bytes[0]);
      assert [bytes[0]] + bytes[1..] == bytes;
    }
  }
}
