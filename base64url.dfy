/**
  The padded URL-safe base64 encoding of section 5 of RFC 4648 ("base64url"),
  as `base64.URLEncoding.EncodeToString` produces it: every group of three
  bytes becomes four symbols of the 64-letter alphabet, and a final group of
  one or two bytes becomes two or three symbols followed by `=` padding.

  The decoder is not used by the shortener; it is the inverse against which
  the encoder is proved (round trip, hence injectivity).
 */
module Base64Url {
  import opened Wrappers

  type byte = x: int | 0 <= x < 256

  /** A six-bit value, the index of one symbol of the alphabet. */
  type sextet = x: int | 0 <= x < 64

  const Padding: char := '='

  /** True of exactly the 64 symbols of the URL-safe alphabet. */
  predicate IsUrlSafe(c: char) {
    || 'A' <= c <= 'Z'
    || 'a' <= c <= 'z'
    || '0' <= c <= '9'
    || c == '-'
    || c == '_'
  }

  /**
    The symbol that encodes `v`, after Table 2 in section 5 of RFC 4648:
    0..25 are `A`..`Z`, 26..51 are `a`..`z`, 52..61 are `0`..`9`, 62 is `-`
    and 63 is `_`.
   */
  function Symbol(v: sextet): (c: char)
    ensures IsUrlSafe(c) && c != Padding
  {
    if v < 26 then ('A' as int + v) as char
    else if v < 52 then ('a' as int + (v - 26)) as char
    else if v < 62 then ('0' as int + (v - 52)) as char
    else if v == 62 then '-'
    else '_'
  }

  /** The value a symbol stands for, or None for a character outside the alphabet. */
  function Value(c: char): (r: Option<sextet>)
    ensures r.Some? <==> IsUrlSafe(c)
    ensures r.Some? ==> Symbol(r.value) == c
  {
    if 'A' <= c <= 'Z' then Some(c as int - 'A' as int)
    else if 'a' <= c <= 'z' then Some(c as int - 'a' as int + 26)
    else if '0' <= c <= '9' then Some(c as int - '0' as int + 52)
    else if c == '-' then Some(62)
    else if c == '_' then Some(63)
    else None
  }

  lemma ValueOfSymbol(v: sextet)
    ensures Value(Symbol(v)) == Some(v)
  {
  }

  /** Four symbols for the 24 bits of three bytes, most significant bits first. */
  function EncodeGroup(a: byte, b: byte, c: byte): string {
    [Symbol(a / 4), Symbol(a % 4 * 16 + b / 16), Symbol(b % 16 * 4 + c / 64), Symbol(c % 64)]
  }

  /** `base64.URLEncoding.EncodeToString`: padded base64url of `data`. */
  function Encode(data: seq<byte>): (s: string)
    ensures |s| == 4 * ((|data| + 2) / 3)
    decreases |data|
  {
    if |data| == 0 then []
    else if |data| == 1 then
      [Symbol(data[0] / 4), Symbol(data[0] % 4 * 16), Padding, Padding]
    else if |data| == 2 then
      [Symbol(data[0] / 4), Symbol(data[0] % 4 * 16 + data[1] / 16), Symbol(data[1] % 16 * 4), Padding]
    else
      EncodeGroup(data[0], data[1], data[2]) + Encode(data[3..])
  }

  /**
    Every character of an encoding is a symbol of the alphabet or padding,
    and padding appears only when the length is not a multiple of three.
   */
  lemma {:induction false} EncodeAlphabet(data: seq<byte>)
    ensures forall i :: 0 <= i < |Encode(data)| ==> IsUrlSafe(Encode(data)[i]) || Encode(data)[i] == Padding
    ensures |data| % 3 == 0 ==> forall i :: 0 <= i < |Encode(data)| ==> IsUrlSafe(Encode(data)[i])
    decreases |data|
  {
    if |data| > 2 {
      var g := EncodeGroup(data[0], data[1], data[2]);
      var tail := Encode(data[3..]);
      EncodeAlphabet(data[3..]);
      assert Encode(data) == g + tail;
      assert forall i :: 0 <= i < |g| ==> IsUrlSafe(g[i]);
    }
  }

  /** The byte held by the six bits of `v0` and the high two bits of `v1`. */
  function Byte0(v0: sextet, v1: sextet): byte {
    v0 as int * 4 + v1 as int / 16
  }

  /** The byte held by the low four bits of `v1` and the high four bits of `v2`. */
  function Byte1(v1: sextet, v2: sextet): byte {
    v1 as int % 16 * 16 + v2 as int / 4
  }

  /** The byte held by the low two bits of `v2` and the six bits of `v3`. */
  function Byte2(v2: sextet, v3: sextet): byte {
    v2 as int % 4 * 64 + v3 as int
  }

  /** The three bytes of four full symbols. */
  function DecodeGroup(q: string): Option<seq<byte>>
    requires |q| == 4
  {
    match (Value(q[0]), Value(q[1]), Value(q[2]), Value(q[3]))
    case (Some(v0), Some(v1), Some(v2), Some(v3)) =>
      Some([Byte0(v0, v1), Byte1(v1, v2), Byte2(v2, v3)])
    case _ => None
  }

  /** The last group of an encoding, which may carry one or two padding characters. */
  function DecodeLast(q: string): Option<seq<byte>>
    requires |q| == 4
  {
    if q[2] == Padding && q[3] == Padding then
      match (Value(q[0]), Value(q[1]))
      case (Some(v0), Some(v1)) => Some([Byte0(v0, v1)])
      case _ => None
    else if q[3] == Padding then
      match (Value(q[0]), Value(q[1]), Value(q[2]))
      case (Some(v0), Some(v1), Some(v2)) => Some([Byte0(v0, v1), Byte1(v1, v2)])
      case _ => None
    else
      DecodeGroup(q)
  }

  /** Padded base64url decoding: padding is accepted in the last group only. */
  function Decode(s: string): Option<seq<byte>>
    decreases |s|
  {
    if |s| == 0 then Some([])
    else if |s| < 4 then None
    else if |s| == 4 then DecodeLast(s)
    else
      match (DecodeGroup(s[..4]), Decode(s[4..]))
      case (Some(g), Some(rest)) => Some(g + rest)
      case _ => None
  }

  lemma JoinByte0(a: byte, b: byte)
    ensures Byte0(a / 4, a % 4 * 16 + b / 16) == a
  {
    assert (a % 4 * 16 + b / 16) / 16 == a % 4;
  }

  lemma JoinByte1(a: byte, b: byte, c: byte)
    ensures Byte1(a % 4 * 16 + b / 16, b % 16 * 4 + c / 64) == b
  {
    assert (a % 4 * 16 + b / 16) % 16 == b / 16;
    assert (b % 16 * 4 + c / 64) / 4 == b % 16;
  }

  lemma JoinByte2(b: byte, c: byte)
    ensures Byte2(b % 16 * 4 + c / 64, c % 64) == c
  {
    assert (b % 16 * 4 + c / 64) % 4 == c / 64;
  }

  lemma GroupRoundTrip(a: byte, b: byte, c: byte)
    ensures DecodeGroup(EncodeGroup(a, b, c)) == Some([a, b, c])
  {
    ValueOfSymbol(a / 4);
    ValueOfSymbol(a % 4 * 16 + b / 16);
    ValueOfSymbol(b % 16 * 4 + c / 64);
    ValueOfSymbol(c % 64);
    JoinByte0(a, b);
    JoinByte1(a, b, c);
    JoinByte2(b, c);
  }

  lemma OneByteRoundTrip(a: byte)
    ensures Decode(Encode([a])) == Some([a])
  {
    var v0, v1 := a / 4, a % 4 * 16;
    var s := Encode([a]);
    assert s == [Symbol(v0), Symbol(v1), Padding, Padding];
    ValueOfSymbol(v0);
    ValueOfSymbol(v1);
    JoinByte0(a, 0);
    assert DecodeLast(s) == Some([Byte0(v0, v1)]);
  }

  lemma TwoByteRoundTrip(a: byte, b: byte)
    ensures Decode(Encode([a, b])) == Some([a, b])
  {
    var v0, v1, v2 := a / 4, a % 4 * 16 + b / 16, b % 16 * 4;
    var s := Encode([a, b]);
    assert s == [Symbol(v0), Symbol(v1), Symbol(v2), Padding];
    ValueOfSymbol(v0);
    ValueOfSymbol(v1);
    ValueOfSymbol(v2);
    JoinByte0(a, b);
    JoinByte1(a, b, 0);
    assert DecodeLast(s) == Some([Byte0(v0, v1), Byte1(v1, v2)]);
  }

  /** Decoding inverts encoding, for every byte string. */
  lemma {:induction false} RoundTrip(data: seq<byte>)
    ensures Decode(Encode(data)) == Some(data)
    decreases |data|
  {
    if |data| == 1 {
      assert data == [data[0]];
      OneByteRoundTrip(data[0]);
    } else if |data| == 2 {
      assert data == [data[0], data[1]];
      TwoByteRoundTrip(data[0], data[1]);
    } else if |data| > 2 {
      var s := Encode(data);
      var g := EncodeGroup(data[0], data[1], data[2]);
      var rest := data[3..];
      GroupRoundTrip(data[0], data[1], data[2]);
      assert s == g + Encode(rest);
      assert s[..4] == g;
      assert data == [data[0], data[1], data[2]] + rest;
      if |rest| == 0 {
        assert s == g && g[2] != Padding && g[3] != Padding;
        assert DecodeLast(s) == DecodeGroup(g);
        assert Decode(s) == DecodeLast(s);
        assert data == [data[0], data[1], data[2]];
      } else {
        RoundTrip(rest);
        assert s[4..] == Encode(rest);
      }
    }
  }

  /** Distinct byte strings never share an encoding. */
  lemma EncodeInjective(x: seq<byte>, y: seq<byte>)
    ensures Encode(x) == Encode(y) <==> x == y
  {
    RoundTrip(x);
    RoundTrip(y);
  }
}
