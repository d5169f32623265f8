/** The string helpers of `lib/utils.ts`. */
module Utils {
  import opened Wrappers
  import opened Encoding
  import opened JsStrings
  import opened Chain

  /** The ellipsis character U+2026 placed between the two halves by `short`. */
  const Ellipsis: char := 0x2026 as char

  /** `short(s, n)`: the first `n` characters, an ellipsis, then the last `n` characters, with
      the clamping of `String.prototype.slice`. */
  function Short(s: string, n: int := 6): (r: string)
    ensures 0 < n <= |s| ==>
              |r| == 2 * n + 1 && r[..n] == s[..n] && r[n] == Ellipsis && r[n + 1..] == s[|s| - n..]
    ensures n >= |s| ==> r == s + [Ellipsis] + s
    ensures n == 0 ==> r == [Ellipsis] + s
    ensures n < 0 ==> r == s[..Max(|s| + n, 0)] + [Ellipsis] + s[Min(-n, |s|)..]
  {
    var front, back := Slice(s, 0, n), SliceFrom(s, -n);
    assert front == s[..RelativeIndex(n, |s|)];
    var r := front + [Ellipsis] + back;
    assert 0 < n <= |s| ==> r[..n] == front && r[n + 1..] == back;
    r
  }

  /** The two lower-case hexadecimal digits of one byte. */
  function HexByte(b: byte): string
  {
    [DigitChar(b / 16), DigitChar(b % 16)]
  }

  /** `toHex(bytes)`, i.e. `Buffer.from(bytes).toString("hex")`: two lower-case hexadecimal
      digits per byte, in order. */
  function ToHex(bytes: seq<byte>): (r: string)
    ensures |r| == 2 * |bytes|
  {
    if bytes == [] then "" else HexByte(bytes[0]) + ToHex(bytes[1..])
  }

  /** Byte `k` is spelt by characters `2k` and `2k + 1`, so the text holds digits only. */
  lemma {:induction false} ToHexPairs(bytes: seq<byte>)
    ensures forall k :: 0 <= k < |bytes| ==> ToHex(bytes)[2 * k..2 * k + 2] == HexByte(bytes[k])
    ensures forall i :: 0 <= i < |ToHex(bytes)| ==> IsDigit(ToHex(bytes)[i], 16)
  {
    if bytes != [] {
      ToHexPairs(bytes[1..]);
      var rest := ToHex(bytes[1..]);
      var r := HexByte(bytes[0]) + rest;
      assert ToHex(bytes) == r;
      forall k | 1 <= k < |bytes|
        ensures r[2 * k..2 * k + 2] == HexByte(bytes[k])
      {
        assert bytes[k] == bytes[1..][k - 1];
        assert r[2 * k..2 * k + 2] == rest[2 * (k - 1)..2 * (k - 1) + 2];
      }
      HexByteDecodes(bytes[0]);
      forall i | 0 <= i < |r|
        ensures IsDigit(r[i], 16)
      {
        if i >= 2 {
          assert r[i] == rest[i - 2];
        }
      }
    }
  }

  /** The reference decoder: reads two lower-case hexadecimal digits per byte, and fails on
      an odd length or any other character. */
  function FromHex(s: string): Option<seq<byte>>
  {
    if s == [] then Some([])
    else if |s| == 1 then None
    else
      var hi, lo := DigitValue(s[0]), DigitValue(s[1]);
      if 0 <= hi < 16 && 0 <= lo < 16 then
        match FromHex(s[2..])
        case None => None
        case Some(rest) => Some([hi * 16 + lo] + rest)
      else None
  }

  lemma HexByteDecodes(b: byte)
    ensures 0 <= DigitValue(HexByte(b)[0]) < 16 && 0 <= DigitValue(HexByte(b)[1]) < 16
    ensures DigitValue(HexByte(b)[0]) * 16 + DigitValue(HexByte(b)[1]) == b
  {
    DigitValueOfChar(b / 16);
    DigitValueOfChar(b % 16);
  }

  /** Decoding the hexadecimal text gives back the bytes. */
  lemma {:induction false} FromHexToHex(bytes: seq<byte>)
    ensures FromHex(ToHex(bytes)) == Some(bytes)
  {
    if bytes != [] {
      var b, rest := bytes[0], ToHex(bytes[1..]);
      var s := HexByte(b) + rest;
      assert ToHex(bytes) == s;
      HexByteDecodes(b);
      assert s[0] == HexByte(b)[0] && s[1] == HexByte(b)[1] && s[2..] == rest;
      FromHexToHex(bytes[1..]);
      assert [b] + bytes[1..] == bytes;
    }
  }

  /** Different byte strings have different hexadecimal texts. */
  lemma ToHexInjective(a: seq<byte>, b: seq<byte>)
    requires ToHex(a) == ToHex(b)
    ensures a == b
  {
    FromHexToHex(a);
    FromHexToHex(b);
  }

  /** `isValidPubkey(v)`: whether the key constructor, given as `construct` (None standing for
      a throw), accepts the text; the failure is caught, so the check itself never fails. */
  function IsValidPubkey(v: string, construct: string -> Option<PublicKey>): (r: bool)
    ensures r <==> construct(v).Some?
  {
    match construct(v)
    case Some(_) => true
    case None => false
  }
}
