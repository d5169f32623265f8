/** The byte encodings the client relies on: UTF-8, as `Buffer.from(text, "utf8")` writes
    it, and Base58 over the Bitcoin alphabet, as `PublicKey.toBase58()` writes a key and
    `bs58.decode` reads one back. */
module Encoding {
  import opened Wrappers

  type byte = x: int | 0 <= x < 0x100

  // ---------------------------------------------------------------- UTF-8

  /** The UTF-8 form of one Unicode scalar value: one to four bytes. */
  function EncodeChar(c: char): (r: seq<byte>)
    ensures 1 <= |r| <= 4
  {
    var n := c as int;
    if n < 0x80 then [n]
    else if n < 0x800 then [0xC0 + n / 64, 0x80 + n % 64]
    else if n < 0x1_0000 then [0xE0 + n / 4096, 0x80 + n / 64 % 64, 0x80 + n % 64]
    else [0xF0 + n / 262144, 0x80 + n / 4096 % 64, 0x80 + n / 64 % 64, 0x80 + n % 64]
  }

  /** How many bytes the first byte of an encoded character announces. */
  function SequenceLength(lead: byte): nat
  {
    if lead < 0xC0 then 1 else if lead < 0xE0 then 2 else if lead < 0xF0 then 3 else 4
  }

  /** The code point spelt by the bytes of one encoded character. */
  function CodePoint(b: seq<byte>): int
    requires 1 <= |b| <= 4
  {
    if |b| == 1 then b[0] as int
    else if |b| == 2 then (b[0] as int - 0xC0) * 64 + (b[1] as int - 0x80)
    else if |b| == 3 then (b[0] as int - 0xE0) * 4096 + (b[1] as int - 0x80) * 64 + (b[2] as int - 0x80)
    else (b[0] as int - 0xF0) * 262144 + (b[1] as int - 0x80) * 4096 + (b[2] as int - 0x80) * 64 + (b[3] as int - 0x80)
  }

  /** The first byte of an encoded character tells its length, and its bytes give back the
      character. */
  lemma EncodeCharDecodes(c: char)
    ensures SequenceLength(EncodeChar(c)[0]) == |EncodeChar(c)|
    ensures CodePoint(EncodeChar(c)) == c as int
  {
    var n := c as int;
    if n >= 0x800 {
      assert n / 64 == n / 4096 * 64 + n / 64 % 64;
      if n >= 0x1_0000 {
        assert n / 4096 == n / 262144 * 64 + n / 4096 % 64;
      }
    }
  }

  /** `Buffer.from(s, "utf8")`. */
  function Utf8(s: string): (r: seq<byte>)
    ensures |s| <= |r| <= 4 * |s|
  {
    if s == [] then [] else EncodeChar(s[0]) + Utf8(s[1..])
  }

  /** Text of ASCII characters is its own UTF-8 form, one byte per character. */
  lemma {:induction false} Utf8OfAscii(s: string)
    requires forall i :: 0 <= i < |s| ==> s[i] as int < 0x80
    ensures |Utf8(s)| == |s|
    ensures forall i :: 0 <= i < |s| ==> Utf8(s)[i] == s[i] as int
  {
    if s != [] {
      Utf8OfAscii(s[1..]);
      assert Utf8(s) == [s[0] as int] + Utf8(s[1..]);
    }
  }

  /** A character beyond ASCII takes at least two bytes, so such a text is longer in UTF-8. */
  lemma {:induction false} Utf8LongerPastAscii(s: string, i: nat)
    requires i < |s| && s[i] as int >= 0x80
    ensures |Utf8(s)| > |s|
  {
    if i > 0 {
      Utf8LongerPastAscii(s[1..], i - 1);
    }
  }

  /** Different texts have different UTF-8 forms. */
  lemma {:induction false} Utf8Injective(a: string, b: string)
    requires Utf8(a) == Utf8(b)
    ensures a == b
  {
    if a != [] && b != [] {
      var ea, eb := EncodeChar(a[0]), EncodeChar(b[0]);
      EncodeCharDecodes(a[0]);
      EncodeCharDecodes(b[0]);
      assert ea[0] == Utf8(a)[0] && eb[0] == Utf8(b)[0];
      assert |ea| == |eb|;
      assert ea == Utf8(a)[..|ea|] && eb == Utf8(b)[..|eb|];
      assert a[0] == b[0] by {
        assert CodePoint(ea) == CodePoint(eb);
      }
      assert Utf8(a[1..]) == Utf8(a)[|ea|..] && Utf8(b[1..]) == Utf8(b)[|eb|..];
      Utf8Injective(a[1..], b[1..]);
      assert a == [a[0]] + a[1..] && b == [b[0]] + b[1..];
    }
  }

  // ---------------------------------------------------------------- Base58

  /** Digit `d` of the Bitcoin alphabet `1-9 A-H J-N P-Z a-k m-z`, which leaves out `0`, `I`,
      `O` and `l`. */
  function Base58Digit(d: nat): char
    requires d < 58
  {
    if d < 9 then ('1' as int + d) as char
    else if d < 17 then ('A' as int + d - 9) as char
    else if d < 22 then ('J' as int + d - 17) as char
    else if d < 33 then ('P' as int + d - 22) as char
    else if d < 44 then ('a' as int + d - 33) as char
    else ('m' as int + d - 44) as char
  }

  /** The value of an alphabet character, or -1 for any other character. */
  function Base58Value(c: char): int
  {
    if '1' <= c <= '9' then c as int - '1' as int
    else if 'A' <= c <= 'H' then c as int - 'A' as int + 9
    else if 'J' <= c <= 'N' then c as int - 'J' as int + 17
    else if 'P' <= c <= 'Z' then c as int - 'P' as int + 22
    else if 'a' <= c <= 'k' then c as int - 'a' as int + 33
    else if 'm' <= c <= 'z' then c as int - 'm' as int + 44
    else -1
  }

  lemma Base58DigitValue(d: nat)
    requires d < 58
    ensures Base58Value(Base58Digit(d)) == d
  {
  }

  /** The bytes read as one big-endian number. */
  function BigEndian(b: seq<byte>): nat
  {
    if b == [] then 0 else BigEndian(b[..|b| - 1]) * 256 + b[|b| - 1]
  }

  /** The big-endian bytes of `n` without leading zero bytes (none at all for 0). */
  function MinimalBytes(n: nat): seq<byte>
    decreases n
  {
    if n == 0 then [] else MinimalBytes(n / 256) + [n % 256]
  }

  /** The Base58 digits of `n` without leading zero digits (none at all for 0). */
  function Base58Numeral(n: nat): string
    decreases n
  {
    if n == 0 then "" else Base58Numeral(n / 58) + [Base58Digit(n % 58)]
  }

  /** The value of a Base58 numeral, or None when a character is not in the alphabet. */
  function NumeralValue(s: string): Option<nat>
  {
    if s == [] then Some(0)
    else
      var d := Base58Value(s[|s| - 1]);
      match NumeralValue(s[..|s| - 1])
      case None => None
      case Some(v) => if d < 0 then None else Some(v * 58 + d)
  }

  function LeadingZeros(b: seq<byte>): (z: nat)
    ensures z <= |b|
  {
    if b == [] || b[0] != 0 then 0 else 1 + LeadingZeros(b[1..])
  }

  function LeadingOnes(s: string): (z: nat)
    ensures z <= |s|
  {
    if s == [] || s[0] != '1' then 0 else 1 + LeadingOnes(s[1..])
  }

  /** Encoding: one `1` per leading zero byte, then the digits of the remaining number. */
  function Base58Encode(b: seq<byte>): string
  {
    var z := LeadingZeros(b);
    seq(z, _ => '1') + Base58Numeral(BigEndian(b[z..]))
  }

  /** Decoding: one zero byte per leading `1`, then the bytes of the remaining number; a
      character outside the alphabet fails. */
  function Base58Decode(s: string): Option<seq<byte>>
  {
    var z := LeadingOnes(s);
    match NumeralValue(s[z..])
    case None => None
    case Some(n) => Some(seq(z, _ => 0) + MinimalBytes(n))
  }

  /** Decoding an encoding gives back the bytes. */
  lemma Base58RoundTrip(b: seq<byte>)
    ensures Base58Decode(Base58Encode(b)) == Some(b)
  {
    var z := LeadingZeros(b);
    var rest := b[z..];
    var n := BigEndian(rest);
    var digits := Base58Numeral(n);
    LeadingZerosSplit(b);
    if n > 0 {
      NumeralStartsNonZero(n);
    }
    LeadingOnesOf(z, digits);
    assert (seq(z, _ => '1') + digits)[z..] == digits;
    NumeralValueOfNumeral(n);
    MinimalBytesOfBigEndian(rest);
    assert b == b[..z] + rest;
  }

  lemma {:induction false} LeadingZerosSplit(b: seq<byte>)
    ensures b[..LeadingZeros(b)] == seq(LeadingZeros(b), _ => 0)
    ensures LeadingZeros(b) < |b| ==> b[LeadingZeros(b)] != 0
  {
    if b != [] && b[0] == 0 {
      LeadingZerosSplit(b[1..]);
      assert b[..LeadingZeros(b)] == [0] + b[1..][..LeadingZeros(b[1..])];
    }
  }

  lemma {:induction false} LeadingOnesOf(z: nat, t: string)
    requires t == [] || t[0] != '1'
    ensures LeadingOnes(seq(z, _ => '1') + t) == z
  {
    if z > 0 {
      LeadingOnesOf(z - 1, t);
      assert (seq(z, _ => '1') + t)[1..] == seq(z - 1, _ => '1') + t;
    }
  }

  /** The numeral of a positive number does not start with the zero digit `1`. */
  lemma {:induction false} NumeralStartsNonZero(n: nat)
    requires n > 0
    ensures Base58Numeral(n)[0] != '1'
    decreases n
  {
    if n / 58 == 0 {
      Base58DigitValue(n % 58);
    } else {
      NumeralStartsNonZero(n / 58);
    }
  }

  lemma {:induction false} NumeralValueOfNumeral(n: nat)
    ensures NumeralValue(Base58Numeral(n)) == Some(n)
    decreases n
  {
    if n > 0 {
      var s := Base58Numeral(n);
      NumeralValueOfNumeral(n / 58);
      Base58DigitValue(n % 58);
      assert s[..|s| - 1] == Base58Numeral(n / 58);
      assert s[|s| - 1] == Base58Digit(n % 58);
    }
  }

  lemma {:induction false} BigEndianPositive(b: seq<byte>)
    requires b != [] && b[0] != 0
    ensures BigEndian(b) > 0
    decreases |b|
  {
    if |b| > 1 {
      BigEndianPositive(b[..|b| - 1]);
    }
  }

  lemma {:induction false} MinimalBytesOfBigEndian(b: seq<byte>)
    requires b == [] || b[0] != 0
    ensures MinimalBytes(BigEndian(b)) == b
    decreases |b|
  {
    if b != [] {
      var front, last := b[..|b| - 1], b[|b| - 1];
      BigEndianPositive(b);
      var n := BigEndian(b);
      assert n / 256 == BigEndian(front) && n % 256 == last;
      MinimalBytesOfBigEndian(front);
      assert b == front + [last];
    }
  }
}
