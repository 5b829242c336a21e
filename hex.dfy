/**
 * Bytes, 16-byte MD5 digests, and Go's `%x` rendering of a byte slice:
 * two lower-case hexadecimal digits per byte, most significant nibble first.
 */
module Digests {

  newtype byte = x: int | 0 <= x < 0x100

  /** The output of MD5 (RFC 1321): always 16 bytes. */
  type Digest = d: seq<byte> | |d| == 16
    witness [0, 0, 0, 0, 0, 0, 0, 0, 0, 0, 0, 0, 0, 0, 0, 0]

  predicate IsLowerHexDigit(c: char)
  {
    '0' <= c <= '9' || 'a' <= c <= 'f'
  }

  /** The digit for a nibble, from the alphabet `0123456789abcdef`. */
  function DigitChar(n: nat): (c: char)
    requires n < 16
    ensures IsLowerHexDigit(c)
  {
    if n < 10 then ('0' as int + n) as char else ('a' as int + n - 10) as char
  }

  /** The value of a lower-case hexadecimal digit, or -1 for any other character. */
  function DigitValue(c: char): (v: int)
    ensures -1 <= v < 16
    ensures v == -1 <==> !IsLowerHexDigit(c)
  {
    if '0' <= c <= '9' then c as int - '0' as int
    else if 'a' <= c <= 'f' then c as int - 'a' as int + 10
    else -1
  }

  /** Two digits for one byte. */
  function HexByte(b: byte): (r: string)
    ensures |r| == 2
    ensures DigitValue(r[0]) == b as int / 16 && DigitValue(r[1]) == b as int % 16
  {
    [DigitChar(b as int / 16), DigitChar(b as int % 16)]
  }

  /** `fmt.Sprintf("%x", bs)`. */
  function Hex(bs: seq<byte>): (r: string)
    ensures |r| == 2 * |bs|
    ensures forall i :: 0 <= i < |r| ==> IsLowerHexDigit(r[i])
  {
    if bs == [] then "" else HexByte(bs[0]) + Hex(bs[1..])
  }

  /** Reads back a string of lower-case hexadecimal digit pairs. */
  function Unhex(s: string): (r: Option<seq<byte>>)
    ensures r.Some? ==> 2 * |r.value| == |s|
  {
    if |s| == 0 then
      Some([])
    else if |s| == 1 then
      None
    else
      var hi, lo := DigitValue(s[0]), DigitValue(s[1]);
      if hi < 0 || lo < 0 then
        None
      else
        match Unhex(s[2..])
        case None => None
        case Some(rest) => Some([(hi * 16 + lo) as byte] + rest)
  }

  datatype Option<T> = None | Some(value: T)

  /** `%x` loses nothing: the bytes can be read back from the digits. */
  lemma {:induction false} HexRoundTrip(bs: seq<byte>)
    ensures Unhex(Hex(bs)) == Some(bs)
  {
    if bs != [] {
      var h := Hex(bs);
      assert h[2..] == Hex(bs[1..]);
      HexRoundTrip(bs[1..]);
      assert bs == [bs[0]] + bs[1..];
    }
  }

  /** Distinct digests give distinct signatures. */
  lemma HexInjective(a: seq<byte>, b: seq<byte>)
    requires Hex(a) == Hex(b)
    ensures a == b
  {
    HexRoundTrip(a);
    HexRoundTrip(b);
  }
}
