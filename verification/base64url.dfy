/** Node's `Buffer.toString("base64url")`: the URL-safe base64 alphabet of
    section 5 of RFC 4648, without padding. The short ids of uploaded files
    are this encoding of four random bytes. */
module Base64Url {

  /** A byte value. */
  type Byte = b: int | 0 <= b < 256

  /** The characters of the URL-safe alphabet: letters, digits, `-` and `_`. */
  predicate IsUrlSafe(c: char)
  {
    'A' <= c <= 'Z' || 'a' <= c <= 'z' || '0' <= c <= '9' || c == '-' || c == '_'
  }

  /** The digit of value `n`: `A`-`Z` for 0-25, `a`-`z` for 26-51,
      `0`-`9` for 52-61, then `-` and `_`. */
  function Digit(n: int): (c: char)
    requires 0 <= n < 64
    ensures IsUrlSafe(c)
  {
    if n < 26 then ('A' as int + n) as char
    else if n < 52 then ('a' as int + n - 26) as char
    else if n < 62 then ('0' as int + n - 52) as char
    else if n == 62 then '-'
    else '_'
  }

  /** Three bytes as four digits of six bits each, most significant first. */
  function Quad(b0: Byte, b1: Byte, b2: Byte): (r: string)
    ensures |r| == 4 && forall i :: 0 <= i < 4 ==> IsUrlSafe(r[i])
  {
    [Digit(b0 / 4), Digit(b0 % 4 * 16 + b1 / 16), Digit(b1 % 16 * 4 + b2 / 64), Digit(b2 % 64)]
  }

  /** Two trailing bytes as three digits, the last padded with zero bits. */
  function Triple(b0: Byte, b1: Byte): (r: string)
    ensures |r| == 3 && forall i :: 0 <= i < 3 ==> IsUrlSafe(r[i])
  {
    [Digit(b0 / 4), Digit(b0 % 4 * 16 + b1 / 16), Digit(b1 % 16 * 4)]
  }

  /** One trailing byte as two digits, the last padded with zero bits. */
  function Pair(b0: Byte): (r: string)
    ensures |r| == 2 && forall i :: 0 <= i < 2 ==> IsUrlSafe(r[i])
  {
    [Digit(b0 / 4), Digit(b0 % 4 * 16)]
  }

  /** The encoding: every three bytes become four digits; one or two
      trailing bytes become two or three. */
  function Encode(bytes: seq<Byte>): (r: string)
    ensures forall i :: 0 <= i < |r| ==> IsUrlSafe(r[i])
    decreases |bytes|
  {
    if |bytes| == 0 then ""
    else if |bytes| == 1 then Pair(bytes[0])
    else if |bytes| == 2 then Triple(bytes[0], bytes[1])
    else Quad(bytes[0], bytes[1], bytes[2]) + Encode(bytes[3..])
  }

  /** Four digits per three bytes, rounded up. */
  lemma {:induction false} EncodeLength(bytes: seq<Byte>)
    ensures |Encode(bytes)| == (4 * |bytes| + 2) / 3
    decreases |bytes|
  {
    if |bytes| >= 3 {
      EncodeLength(bytes[3..]);
    }
  }

  /** The value of a URL-safe digit; the inverse of `Digit`. */
  function DigitValue(c: char): (n: nat)
    ensures n < 64
  {
    if 'A' <= c <= 'Z' then c as int - 'A' as int
    else if 'a' <= c <= 'z' then c as int - 'a' as int + 26
    else if '0' <= c <= '9' then c as int - '0' as int + 52
    else if c == '-' then 62
    else 63
  }

  lemma DigitRoundTrip(n: int)
    requires 0 <= n < 64
    ensures DigitValue(Digit(n)) == n
  {
  }

  /** The byte whose high six bits are digit `a` and low two bits the high bits of digit `b`. */
  function HighByte(a: char, b: char): Byte
  {
    DigitValue(a) * 4 + DigitValue(b) / 16
  }

  /** The byte made of the low four bits of digit `a` and the high four of `b`. */
  function MiddleByte(a: char, b: char): Byte
  {
    DigitValue(a) % 16 * 16 + DigitValue(b) / 4
  }

  /** The byte made of the low two bits of digit `a` and all six of `b`. */
  function LowByte(a: char, b: char): Byte
  {
    DigitValue(a) % 4 * 64 + DigitValue(b)
  }

  /** Decodes unpadded URL-safe base64; inverts `Encode`. */
  function Decode(s: string): seq<Byte>
    decreases |s|
  {
    if |s| < 2 then []
    else if |s| == 2 then [HighByte(s[0], s[1])]
    else if |s| == 3 then [HighByte(s[0], s[1]), MiddleByte(s[1], s[2])]
    else [HighByte(s[0], s[1]), MiddleByte(s[1], s[2]), LowByte(s[2], s[3])] + Decode(s[4..])
  }

  /** The bits of a byte that straddle two digits are put back together. */
  lemma Regroup(b: int, c: int)
    requires 0 <= b < 256 && 0 <= c < 256
    ensures b / 4 * 4 + (b % 4 * 16 + c / 16) / 16 == b
    ensures (b % 4 * 16 + c / 16) % 16 * 16 + (c % 16 * 4 + b / 64) / 4 == c
    ensures (c % 16 * 4 + b / 64) % 4 * 64 + b % 64 == b
  {
  }

  lemma HighByteOf(b0: Byte, b1: Byte)
    ensures var x, y := b0, b1;
      HighByte(Digit(x / 4), Digit(x % 4 * 16 + y / 16)) == b0
  {
    var x, y := b0, b1;
    DigitRoundTrip(x / 4);
    DigitRoundTrip(x % 4 * 16 + y / 16);
    Regroup(x, y);
  }

  lemma MiddleByteOf(b0: Byte, b1: Byte, z: int)
    requires 0 <= z < 256
    ensures var x, y := b0, b1;
      MiddleByte(Digit(x % 4 * 16 + y / 16), Digit(y % 16 * 4 + z / 64)) == b1
  {
    var x, y := b0, b1;
    DigitRoundTrip(x % 4 * 16 + y / 16);
    DigitRoundTrip(y % 16 * 4 + z / 64);
    Regroup(x, y);
  }

  lemma LowByteOf(b1: Byte, b2: Byte)
    ensures var y, z := b1, b2;
      LowByte(Digit(y % 16 * 4 + z / 64), Digit(z % 64)) == b2
  {
    var y, z := b1, b2;
    DigitRoundTrip(y % 16 * 4 + z / 64);
    DigitRoundTrip(z % 64);
    Regroup(z, y);
  }

  lemma DecodeQuad(b0: Byte, b1: Byte, b2: Byte, rest: string)
    ensures Decode(Quad(b0, b1, b2) + rest) == [b0, b1, b2] + Decode(rest)
  {
    var q := Quad(b0, b1, b2);
    var s := q + rest;
    assert s[0] == q[0] && s[1] == q[1] && s[2] == q[2] && s[3] == q[3];
    assert s[4..] == rest;
    HighByteOf(b0, b1);
    MiddleByteOf(b0, b1, b2);
    LowByteOf(b1, b2);
  }

  lemma FirstThree(bytes: seq<Byte>)
    requires |bytes| >= 3
    ensures bytes == [bytes[0], bytes[1], bytes[2]] + bytes[3..]
  {
  }

  lemma DecodePair(b0: Byte)
    ensures Decode(Pair(b0)) == [b0]
  {
    HighByteOf(b0, 0);
  }

  lemma DecodeTriple(b0: Byte, b1: Byte)
    ensures Decode(Triple(b0, b1)) == [b0, b1]
  {
    HighByteOf(b0, b1);
    MiddleByteOf(b0, b1, 0);
  }

  /** Decoding an encoding gives back the bytes. */
  lemma {:induction false} DecodeEncode(bytes: seq<Byte>)
    ensures Decode(Encode(bytes)) == bytes
    decreases |bytes|
  {
    if |bytes| == 1 {
      DecodePair(bytes[0]);
    } else if |bytes| == 2 {
      DecodeTriple(bytes[0], bytes[1]);
    } else if |bytes| >= 3 {
      DecodeQuad(bytes[0], bytes[1], bytes[2], Encode(bytes[3..]));
      DecodeEncode(bytes[3..]);
      FirstThree(bytes);
    }
  }

  /** The four bytes `crypto.randomBytes(4)` draws for one short id. */
  type RandomBytes = b: seq<Byte> | |b| == 4 witness [0, 0, 0, 0]

  /** The public short id of a file: six URL-safe characters, so it holds
      neither the `.` that starts an extension nor the `;` or `/` of headers and paths. */
  function ShortId(random: RandomBytes): (id: string)
    ensures |id| == 6
    ensures forall i :: 0 <= i < |id| ==> IsUrlSafe(id[i])
    ensures '.' !in id && ';' !in id && '/' !in id
  {
    EncodeLength(random);
    Encode(random)
  }

  /** Different random bytes give different short ids: the id space has
      2^32 members, one per draw. */
  lemma ShortIdInjective(a: RandomBytes, b: RandomBytes)
    ensures ShortId(a) == ShortId(b) <==> a == b
  {
    DecodeEncode(a);
    DecodeEncode(b);
  }
}
