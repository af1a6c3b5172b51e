/** Standard base64 (section 4 of RFC 4648), the envelope in which file contents are stored:
    `base64.b64encode` when an archive member is stored, `base64.b64decode` when an
    upload or a stored record is read back. */
module Base64 {
  import opened Records

  /** A 6-bit group: the value of one base64 character. */
  type Sextet = x: int | 0 <= x < 64

  /** The character of the base64 alphabet for a 6-bit value. */
  function CharOf(v: Sextet): char
  {
    if v < 26 then ('A' as int + v) as char
    else if v < 52 then ('a' as int + (v - 26)) as char
    else if v < 62 then ('0' as int + (v - 52)) as char
    else if v == 62 then '+'
    else '/'
  }

  /** The 6-bit value of a base64 character, or None for a character outside the alphabet
      (including the padding character '='). */
  function ValueOf(c: char): (r: Option<Sextet>)
    ensures r.Some? ==> CharOf(r.value) == c
  {
    if 'A' <= c <= 'Z' then Some(c as int - 'A' as int)
    else if 'a' <= c <= 'z' then Some(c as int - 'a' as int + 26)
    else if '0' <= c <= '9' then Some(c as int - '0' as int + 52)
    else if c == '+' then Some(62)
    else if c == '/' then Some(63)
    else None
  }

  lemma ValueOfCharOf(v: Sextet)
    ensures ValueOf(CharOf(v)) == Some(v)
  {
  }

  /** Three bytes as four characters. */
  function EncodeTriple(b0: byte, b1: byte, b2: byte): string
  {
    [CharOf(b0 / 4), CharOf((b0 % 4) * 16 + b1 / 16), CharOf((b1 % 16) * 4 + b2 / 64), CharOf(b2 % 64)]
  }

  /** `base64.b64encode`: full groups of three bytes, then a final group of one or two
      bytes padded with '='. */
  function Encode(b: seq<byte>): (r: string)
    ensures |r| % 4 == 0
    ensures |r| == 0 <==> |b| == 0
    ensures |r| == 4 <==> 0 < |b| <= 3
    decreases |b|
  {
    if |b| == 0 then ""
    else if |b| == 1 then [CharOf(b[0] / 4), CharOf((b[0] % 4) * 16), '=', '=']
    else if |b| == 2 then [CharOf(b[0] / 4), CharOf((b[0] % 4) * 16 + b[1] / 16), CharOf((b[1] % 16) * 4), '=']
    else EncodeTriple(b[0], b[1], b[2]) + Encode(b[3..])
  }

  /** The byte spread over the first two characters of a group. */
  function Byte0(w: Sextet, x: Sextet): byte { w * 4 + x / 16 }

  /** The byte spread over the second and third characters of a group. */
  function Byte1(x: Sextet, y: Sextet): byte { (x % 16) * 16 + y / 4 }

  /** The byte spread over the last two characters of a group. */
  function Byte2(y: Sextet, z: Sextet): byte { (y % 4) * 64 + z }

  /** Four 6-bit values back to three bytes. */
  function DecodeQuad(w: Sextet, x: Sextet, y: Sextet, z: Sextet): seq<byte>
  {
    [Byte0(w, x), Byte1(x, y), Byte2(y, z)]
  }

  /** A group of four alphabet characters, or None. */
  function DecodeFull(g: string): Option<seq<byte>>
    requires |g| == 4
  {
    match (ValueOf(g[0]), ValueOf(g[1]), ValueOf(g[2]), ValueOf(g[3]))
    case (Some(w), Some(x), Some(y), Some(z)) => Some(DecodeQuad(w, x, y, z))
    case _ => None
  }

  /** The last group of four characters, which may end in one or two '=' pads.
      Leftover low bits of a padded group are ignored, as Python's decoder does. */
  function DecodeLast(g: string): Option<seq<byte>>
    requires |g| == 4
  {
    if g[2] == '=' && g[3] == '=' then
      match (ValueOf(g[0]), ValueOf(g[1]))
      case (Some(w), Some(x)) => Some([Byte0(w, x)])
      case _ => None
    else if g[3] == '=' then
      match (ValueOf(g[0]), ValueOf(g[1]), ValueOf(g[2]))
      case (Some(w), Some(x), Some(y)) => Some([Byte0(w, x), Byte1(x, y)])
      case _ => None
    else DecodeFull(g)
  }

  /** `base64.b64decode` of a well-formed envelope; None where Python raises `binascii.Error`. */
  function Decode(s: string): (r: Option<seq<byte>>)
    ensures r.Some? ==> |s| % 4 == 0 && |r.value| <= 3 * (|s| / 4) && 3 * (|s| / 4) <= |r.value| + 2
    decreases |s|
  {
    if |s| == 0 then Some([])
    else if |s| < 4 then None
    else if |s| == 4 then DecodeLast(s)
    else match (DecodeFull(s[..4]), Decode(s[4..]))
      case (Some(head), Some(tail)) => Some(head + tail)
      case _ => None
  }

  lemma TripleRoundTrip(b0: byte, b1: byte, b2: byte)
    ensures DecodeFull(EncodeTriple(b0, b1, b2)) == Some([b0, b1, b2])
  {
    var w, x, y, z := b0 / 4, (b0 % 4) * 16 + b1 / 16, (b1 % 16) * 4 + b2 / 64, b2 % 64;
    ValueOfCharOf(w);
    ValueOfCharOf(x);
    ValueOfCharOf(y);
    ValueOfCharOf(z);
    assert Byte0(w, x) == b0;
    assert Byte1(x, y) == b1;
    assert Byte2(y, z) == b2;
  }

  lemma SingleRoundTrip(b0: byte)
    ensures Decode(Encode([b0])) == Some([b0])
  {
    var w, x := b0 / 4, (b0 % 4) * 16;
    ValueOfCharOf(w);
    ValueOfCharOf(x);
    assert Byte0(w, x) == b0;
  }

  lemma PairRoundTrip(b0: byte, b1: byte)
    ensures Decode(Encode([b0, b1])) == Some([b0, b1])
  {
    var w, x, y := b0 / 4, (b0 % 4) * 16 + b1 / 16, (b1 % 16) * 4;
    ValueOfCharOf(w);
    ValueOfCharOf(x);
    ValueOfCharOf(y);
    assert Byte0(w, x) == b0;
    assert Byte1(x, y) == b1;
  }

  /** A full group followed by a well-formed remainder decodes group by group. */
  lemma DecodeGroups(g: string, rest: string, head: seq<byte>, tail: seq<byte>)
    requires |g| == 4 && |rest| >= 4
    requires DecodeFull(g) == Some(head) && Decode(rest) == Some(tail)
    ensures Decode(g + rest) == Some(head + tail)
  {
    assert (g + rest)[..4] == g;
    assert (g + rest)[4..] == rest;
  }

  /** A group of four alphabet characters, taken as the last group. */
  lemma DecodeUnpadded(g: string)
    requires |g| == 4 && DecodeFull(g).Some?
    ensures Decode(g) == DecodeFull(g)
  {
  }

  /** Decoding undoes encoding: every stored envelope gives back the bytes it was made from. */
  lemma {:induction false} RoundTrip(b: seq<byte>)
    ensures Decode(Encode(b)) == Some(b)
    decreases |b|
  {
    if |b| == 1 {
      assert b == [b[0]];
      SingleRoundTrip(b[0]);
    } else if |b| == 2 {
      assert b == [b[0], b[1]];
      PairRoundTrip(b[0], b[1]);
    } else if |b| >= 3 {
      var g := EncodeTriple(b[0], b[1], b[2]);
      var rest := Encode(b[3..]);
      TripleRoundTrip(b[0], b[1], b[2]);
      assert Encode(b) == g + rest;
      assert b == [b[0], b[1], b[2]] + b[3..];
      if |b| == 3 {
        assert rest == [] && g + rest == g;
        assert b == [b[0], b[1], b[2]];
        DecodeUnpadded(g);
        assert Decode(Encode(b)) == Decode(g);
      } else {
        RoundTrip(b[3..]);
        DecodeGroups(g, rest, [b[0], b[1], b[2]], b[3..]);
      }
    }
  }
}
