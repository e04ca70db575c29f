/** Base64 in the form of RFC 4648 section 4, as PHP's `base64_encode` produces
    it: the standard alphabet, `=` padding to a multiple of four characters and
    no line breaks. `Decode` is the strict inverse: it accepts exactly the
    strings `Encode` can produce. */
module Base64 {
  import opened PhpStrings

  /** The 64 characters of the alphabet (padding `=` is not one of them). */
  predicate IsAlphabetChar(c: char) {
    ('A' <= c <= 'Z') || ('a' <= c <= 'z') || ('0' <= c <= '9') || c == '+' || c == '/'
  }

  /** A character that may appear in encoder output: the alphabet or `=`. */
  predicate IsBase64Char(c: char) {
    IsAlphabetChar(c) || c == '='
  }

  /** The alphabet character of a 6-bit value. */
  function CharOf(v: int): (c: Byte)
    requires 0 <= v < 64
    ensures IsAlphabetChar(c)
  {
    if v < 26 then (65 + v) as char        // 'A'..'Z'
    else if v < 52 then (71 + v) as char   // 'a'..'z'
    else if v < 62 then (v - 4) as char    // '0'..'9'
    else if v == 62 then '+'
    else '/'
  }

  /** The 6-bit value of an alphabet character. */
  function ValueOf(c: char): (v: int)
    requires IsAlphabetChar(c)
    ensures 0 <= v < 64
  {
    if 'A' <= c <= 'Z' then c as int - 65
    else if 'a' <= c <= 'z' then c as int - 71
    else if '0' <= c <= '9' then c as int + 4
    else if c == '+' then 62
    else 63
  }

  lemma ValueOfCharOf(v: int)
    requires 0 <= v < 64
    ensures ValueOf(CharOf(v)) == v
  {
  }

  lemma CharOfValueOf(c: char)
    requires IsAlphabetChar(c)
    ensures CharOf(ValueOf(c)) == c
  {
  }

  function ByteOf(n: int): Byte
    requires 0 <= n < 256
  {
    n as char
  }

  // ---------------------------------------------------------------------------
  // Encoding: three bytes become four characters; a final one or two bytes are
  // padded with `==` or `=`.
  // ---------------------------------------------------------------------------

  function EncodeTriple(b0: Byte, b1: Byte, b2: Byte): Bytes {
    [ CharOf(b0 as int / 4),
      CharOf((b0 as int % 4) * 16 + b1 as int / 16),
      CharOf((b1 as int % 16) * 4 + b2 as int / 64),
      CharOf(b2 as int % 64) ]
  }

  function EncodePair(b0: Byte, b1: Byte): Bytes {
    [ CharOf(b0 as int / 4),
      CharOf((b0 as int % 4) * 16 + b1 as int / 16),
      CharOf((b1 as int % 16) * 4),
      '=' ]
  }

  function EncodeSingle(b0: Byte): Bytes {
    [ CharOf(b0 as int / 4), CharOf((b0 as int % 4) * 16), '=', '=' ]
  }

  /** `base64_encode`: four characters for every started group of three bytes,
      drawn from the alphabet except for at most two trailing `=`. */
  function Encode(b: Bytes): (r: Bytes)
    ensures |r| == 4 * ((|b| + 2) / 3)
    ensures forall i | 0 <= i < |r| :: IsAlphabetChar(r[i]) || (r[i] == '=' && |r| - 2 <= i)
    decreases |b|
  {
    if |b| == 0 then []
    else if |b| == 1 then EncodeSingle(b[0])
    else if |b| == 2 then EncodePair(b[0], b[1])
    else
      var head, rest := EncodeTriple(b[0], b[1], b[2]), Encode(b[3..]);
      assert forall i | 0 <= i < |rest| :: (head + rest)[i + 4] == rest[i];
      head + rest
  }

  // ---------------------------------------------------------------------------
  // Decoding
  // ---------------------------------------------------------------------------

  /** Decodes one group of four characters; `last` says whether the group ends
      the input, the only place padding may appear. Bits that padding discards
      must be zero, so that only canonical encodings are accepted. */
  function DecodeQuad(c0: char, c1: char, c2: char, c3: char, last: bool): Option<Bytes> {
    if !IsAlphabetChar(c0) || !IsAlphabetChar(c1) then None
    else
      var v0, v1 := ValueOf(c0), ValueOf(c1);
      if c2 == '=' then
        if last && c3 == '=' && v1 % 16 == 0 then Some([ByteOf(v0 * 4 + v1 / 16)]) else None
      else if !IsAlphabetChar(c2) then None
      else
        var v2 := ValueOf(c2);
        if c3 == '=' then
          if last && v2 % 4 == 0
          then Some([ByteOf(v0 * 4 + v1 / 16), ByteOf((v1 % 16) * 16 + v2 / 4)])
          else None
        else if !IsAlphabetChar(c3) then None
        else
          var v3 := ValueOf(c3);
          Some([ByteOf(v0 * 4 + v1 / 16), ByteOf((v1 % 16) * 16 + v2 / 4), ByteOf((v2 % 4) * 64 + v3)])
  }

  /** The bytes a base64 string stands for, or `None` when it is not the
      encoding of anything. */
  function Decode(s: Bytes): Option<Bytes>
    decreases |s|
  {
    if |s| == 0 then Some([])
    else if |s| < 4 then None
    else
      match DecodeQuad(s[0], s[1], s[2], s[3], |s| == 4)
      case None => None
      case Some(block) =>
        match Decode(s[4..])
        case None => None
        case Some(rest) => Some(block + rest)
  }

  // ---------------------------------------------------------------------------
  // Round trips
  // ---------------------------------------------------------------------------

  lemma DecodeTriple(b0: Byte, b1: Byte, b2: Byte, last: bool)
    ensures var e := EncodeTriple(b0, b1, b2);
            DecodeQuad(e[0], e[1], e[2], e[3], last) == Some([b0, b1, b2])
  {
    var x0, x1, x2 := b0 as int, b1 as int, b2 as int;
    ValueOfCharOf(x0 / 4);
    ValueOfCharOf((x0 % 4) * 16 + x1 / 16);
    ValueOfCharOf((x1 % 16) * 4 + x2 / 64);
    ValueOfCharOf(x2 % 64);
    assert ((x0 % 4) * 16 + x1 / 16) / 16 == x0 % 4;
    assert ((x0 % 4) * 16 + x1 / 16) % 16 == x1 / 16;
    assert ((x1 % 16) * 4 + x2 / 64) / 4 == x1 % 16;
    assert ((x1 % 16) * 4 + x2 / 64) % 4 == x2 / 64;
  }

  lemma DecodePair(b0: Byte, b1: Byte)
    ensures var e := EncodePair(b0, b1);
            DecodeQuad(e[0], e[1], e[2], e[3], true) == Some([b0, b1])
  {
    var x0, x1 := b0 as int, b1 as int;
    ValueOfCharOf(x0 / 4);
    ValueOfCharOf((x0 % 4) * 16 + x1 / 16);
    ValueOfCharOf((x1 % 16) * 4);
    assert ((x0 % 4) * 16 + x1 / 16) / 16 == x0 % 4;
    assert ((x0 % 4) * 16 + x1 / 16) % 16 == x1 / 16;
  }

  lemma DecodeSingle(b0: Byte)
    ensures var e := EncodeSingle(b0);
            DecodeQuad(e[0], e[1], e[2], e[3], true) == Some([b0])
  {
    var x0 := b0 as int;
    ValueOfCharOf(x0 / 4);
    ValueOfCharOf((x0 % 4) * 16);
  }

  /** One step of `Decode`: a group that decodes, followed by a tail that decodes. */
  lemma DecodeStep(s: Bytes, block: Bytes, rest: Bytes)
    requires |s| >= 4
    requires DecodeQuad(s[0], s[1], s[2], s[3], |s| == 4) == Some(block)
    requires Decode(s[4..]) == Some(rest)
    ensures Decode(s) == Some(block + rest)
  {
  }

  lemma DecodeEncodeSingle(b0: Byte)
    ensures Decode(EncodeSingle(b0)) == Some([b0])
  {
    var e := EncodeSingle(b0);
    assert e[4..] == [];
    DecodeSingle(b0);
    assert Decode(e[4..]) == Some([]);
    DecodeStep(e, [b0], []);
    assert [b0] + [] == [b0];
  }

  lemma DecodeEncodePair(b0: Byte, b1: Byte)
    ensures Decode(EncodePair(b0, b1)) == Some([b0, b1])
  {
    var e := EncodePair(b0, b1);
    assert e[4..] == [];
    DecodePair(b0, b1);
    assert Decode(e[4..]) == Some([]);
    DecodeStep(e, [b0, b1], []);
    assert [b0, b1] + [] == [b0, b1];
  }

  /** Decoding undoes encoding, for every byte string including the empty one. */
  lemma {:induction false} DecodeEncode(b: Bytes)
    ensures Decode(Encode(b)) == Some(b)
    decreases |b|
  {
    if |b| == 1 {
      DecodeEncodeSingle(b[0]);
      assert [b[0]] == b;
    } else if |b| == 2 {
      DecodeEncodePair(b[0], b[1]);
      assert [b[0], b[1]] == b;
    } else if |b| >= 3 {
      var e := Encode(b);
      var t := EncodeTriple(b[0], b[1], b[2]);
      var rest := Encode(b[3..]);
      assert e == t + rest;
      assert e[0] == t[0] && e[1] == t[1] && e[2] == t[2] && e[3] == t[3];
      DecodeTriple(b[0], b[1], b[2], |e| == 4);
      assert e[4..] == rest;
      DecodeEncode(b[3..]);
      DecodeStep(e, [b[0], b[1], b[2]], b[3..]);
      SplitThree(b);
    }
  }

  lemma QuadSingle(c0: char, c1: char, c2: char, c3: char, last: bool, block: Bytes)
    requires DecodeQuad(c0, c1, c2, c3, last) == Some(block)
    requires c2 == '='
    ensures last && |block| == 1 && EncodeSingle(block[0]) == [c0, c1, c2, c3]
  {
    var v0, v1 := ValueOf(c0), ValueOf(c1);
    CharOfValueOf(c0);
    CharOfValueOf(c1);
    var y0 := v0 * 4 + v1 / 16;
    assert block == [ByteOf(y0)];
    assert y0 / 4 == v0 && y0 % 4 == v1 / 16;
    assert (y0 % 4) * 16 == v1;
  }

  lemma QuadPair(c0: char, c1: char, c2: char, c3: char, last: bool, block: Bytes)
    requires DecodeQuad(c0, c1, c2, c3, last) == Some(block)
    requires c2 != '=' && c3 == '='
    ensures last && |block| == 2 && EncodePair(block[0], block[1]) == [c0, c1, c2, c3]
  {
    var v0, v1, v2 := ValueOf(c0), ValueOf(c1), ValueOf(c2);
    CharOfValueOf(c0);
    CharOfValueOf(c1);
    CharOfValueOf(c2);
    var y0 := v0 * 4 + v1 / 16;
    var y1 := (v1 % 16) * 16 + v2 / 4;
    assert block == [ByteOf(y0), ByteOf(y1)];
    assert y0 / 4 == v0 && y0 % 4 == v1 / 16;
    assert y1 / 16 == v1 % 16 && y1 % 16 == v2 / 4;
    assert (y0 % 4) * 16 + y1 / 16 == v1;
    assert (y1 % 16) * 4 == v2;
  }

  /** The bit arithmetic of a full group: regrouping four 6-bit values into
      three bytes and back gives the same four values. */
  lemma TripleBits(v0: int, v1: int, v2: int, v3: int)
    requires 0 <= v0 < 64 && 0 <= v1 < 64 && 0 <= v2 < 64 && 0 <= v3 < 64
    ensures var y0, y1, y2 := v0 * 4 + v1 / 16, (v1 % 16) * 16 + v2 / 4, (v2 % 4) * 64 + v3;
            && 0 <= y0 < 256 && 0 <= y1 < 256 && 0 <= y2 < 256
            && y0 / 4 == v0 && (y0 % 4) * 16 + y1 / 16 == v1
            && (y1 % 16) * 4 + y2 / 64 == v2 && y2 % 64 == v3
  {
    var y0, y1, y2 := v0 * 4 + v1 / 16, (v1 % 16) * 16 + v2 / 4, (v2 % 4) * 64 + v3;
    assert y0 / 4 == v0 && y0 % 4 == v1 / 16;
    assert y1 / 16 == v1 % 16 && y1 % 16 == v2 / 4;
    assert y2 / 64 == v2 % 4 && y2 % 64 == v3;
  }

  lemma QuadTriple(c0: char, c1: char, c2: char, c3: char, last: bool, block: Bytes)
    requires DecodeQuad(c0, c1, c2, c3, last) == Some(block)
    requires c2 != '=' && c3 != '='
    ensures |block| == 3 && EncodeTriple(block[0], block[1], block[2]) == [c0, c1, c2, c3]
  {
    var v0, v1, v2, v3 := ValueOf(c0), ValueOf(c1), ValueOf(c2), ValueOf(c3);
    CharOfValueOf(c0);
    CharOfValueOf(c1);
    CharOfValueOf(c2);
    CharOfValueOf(c3);
    TripleBits(v0, v1, v2, v3);
    var y0, y1, y2 := v0 * 4 + v1 / 16, (v1 % 16) * 16 + v2 / 4, (v2 % 4) * 64 + v3;
    assert block == [ByteOf(y0), ByteOf(y1), ByteOf(y2)];
    assert block[0] as int == y0 && block[1] as int == y1 && block[2] as int == y2;
  }

  lemma SplitThree(s: Bytes)
    requires |s| >= 3
    ensures s == [s[0], s[1], s[2]] + s[3..]
  {
  }

  lemma SplitFour(s: Bytes)
    requires |s| >= 4
    ensures s == [s[0], s[1], s[2], s[3]] + s[4..]
  {
  }

  /** Decoding accepts only encoder output: whatever it returns encodes back to
      the string it was given. */
  lemma {:induction false} EncodeDecode(s: Bytes, b: Bytes)
    requires Decode(s) == Some(b)
    ensures Encode(b) == s
    decreases |s|
  {
    if |s| > 0 {
      var last := |s| == 4;
      var block := DecodeQuad(s[0], s[1], s[2], s[3], last).value;
      var rest := Decode(s[4..]).value;
      assert b == block + rest;
      EncodeDecode(s[4..], rest);
      SplitFour(s);
      if s[2] == '=' {
        QuadSingle(s[0], s[1], s[2], s[3], last, block);
        assert s[4..] == [] && rest == [] && b == block;
      } else if s[3] == '=' {
        QuadPair(s[0], s[1], s[2], s[3], last, block);
        assert s[4..] == [] && rest == [] && b == block;
      } else {
        QuadTriple(s[0], s[1], s[2], s[3], last, block);
        assert b[..3] == block && b[3..] == rest;
      }
    }
  }

  /** `Decode` and `Encode` are inverse: `s` decodes to `b` exactly when `s` is
      the encoding of `b`. */
  lemma DecodeIffEncode(s: Bytes, b: Bytes)
    ensures Decode(s) == Some(b) <==> s == Encode(b)
  {
    if Decode(s) == Some(b) {
      EncodeDecode(s, b);
    }
    if s == Encode(b) {
      DecodeEncode(b);
    }
  }
}
