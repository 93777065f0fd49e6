/**
 * Proof codes: `crypto.randomBytes(4).toString('hex')`. The random bytes
 * are an input; the hexadecimal rendering is modelled exactly and has a
 * decoder as its partner.
 */
module CodeGen {

  type byte = x: int | 0 <= x < 256

  const HexDigits: string := "0123456789abcdef"

  predicate IsLowerHex(c: char) {
    ('0' <= c <= '9') || ('a' <= c <= 'f')
  }

  /** A proof code: eight lower-case hexadecimal characters. */
  predicate IsCode(s: string) {
    |s| == 8 && forall c <- s :: IsLowerHex(c)
  }

  function HexDigit(d: int): (c: char)
    requires 0 <= d < 16
    ensures IsLowerHex(c)
  {
    HexDigits[d]
  }

  function HexValue(c: char): (d: int)
    requires IsLowerHex(c)
    ensures 0 <= d < 16
  {
    if c <= '9' then c as int - '0' as int else c as int - 'a' as int + 10
  }

  lemma HexValueOfDigit(d: int)
    requires 0 <= d < 16
    ensures HexValue(HexDigit(d)) == d
  {
  }

  /** `Buffer.toString('hex')`: two lower-case digits per byte, high nibble first. */
  function HexEncode(bytes: seq<byte>): (s: string)
    ensures |s| == 2 * |bytes|
    ensures forall c <- s :: IsLowerHex(c)
    decreases |bytes|
  {
    if bytes == [] then []
    else [HexDigit(bytes[0] / 16), HexDigit(bytes[0] % 16)] + HexEncode(bytes[1..])
  }

  function HexDecode(s: string): seq<byte>
    requires |s| % 2 == 0 && forall c <- s :: IsLowerHex(c)
    decreases |s|
  {
    if s == [] then []
    else
      assert s[0] in s && s[1] in s;
      [HexValue(s[0]) * 16 + HexValue(s[1])] + HexDecode(s[2..])
  }

  /** Decoding a rendered byte string gives the bytes back. */
  lemma {:induction false} HexRoundTrip(bytes: seq<byte>)
    ensures HexDecode(HexEncode(bytes)) == bytes
    decreases |bytes|
  {
    if bytes != [] {
      var s := HexEncode(bytes);
      HexValueOfDigit(bytes[0] / 16);
      HexValueOfDigit(bytes[0] % 16);
      assert s[2..] == HexEncode(bytes[1..]);
      HexRoundTrip(bytes[1..]);
    }
  }

  /** Different random bytes never render to the same code. */
  lemma HexEncodeInjective(a: seq<byte>, b: seq<byte>)
    requires HexEncode(a) == HexEncode(b)
    ensures a == b
  {
    HexRoundTrip(a);
    HexRoundTrip(b);
  }

  /** `generateUniqueCode()`: the code for the four random bytes drawn. */
  function GenerateUniqueCode(random: seq<byte>): (code: string)
    requires |random| == 4
    ensures IsCode(code)
  {
    HexEncode(random)
  }
}
