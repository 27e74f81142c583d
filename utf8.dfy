/**
 * UTF-8 as defined in section 3.9 of the Unicode Standard (Table 3-7, well-formed
 * byte sequences): the encoding of a string of Unicode scalar values and the
 * decoding of a byte string, which accepts exactly the well-formed sequences.
 * Dafny's `char` is a Unicode scalar value, so a decoded `string` is the
 * sequence of code points of the Java String that decoding yields (a decoded
 * Java String never holds an unpaired surrogate).
 */
module Utf8 {
  import opened Wrappers
  import opened Bytes

  /** A continuation byte, 10xxxxxx. */
  predicate IsContinuation(b: byte) {
    0x80 <= b < 0xC0
  }

  /** The one- to four-byte UTF-8 form of a scalar value. */
  function EncodeChar(c: char): (bs: seq<byte>)
    ensures 1 <= |bs| <= 4
    ensures (c as int < 0x80) <==> |bs| == 1
    ensures forall i :: 1 <= i < |bs| ==> IsContinuation(bs[i])
  {
    var v := c as int;
    if v < 0x80 then
      [v as byte]
    else if v < 0x800 then
      [(0xC0 + v / 0x40) as byte, (0x80 + v % 0x40) as byte]
    else if v < 0x1_0000 then
      [(0xE0 + v / 0x1000) as byte, (0x80 + v / 0x40 % 0x40) as byte, (0x80 + v % 0x40) as byte]
    else
      [(0xF0 + v / 0x4_0000) as byte, (0x80 + v / 0x1000 % 0x40) as byte,
       (0x80 + v / 0x40 % 0x40) as byte, (0x80 + v % 0x40) as byte]
  }

  /** The UTF-8 encoding of a string: the encodings of its characters, in order. */
  function Encode(s: string): (bs: seq<byte>)
    ensures |s| <= |bs| <= 4 * |s|
  {
    if s == [] then [] else EncodeChar(s[0]) + Encode(s[1..])
  }

  /**
   * The scalar value of the well-formed sequence at the head of `bs` and its
   * length, or None when the head is not one of the rows of Table 3-7
   * (a stray continuation byte, an overlong form, a surrogate, a value past
   * U+10FFFF, or a sequence cut short).
   */
  function DecodeHead(bs: seq<byte>): (r: Option<(char, nat)>)
    requires |bs| > 0
    ensures r.Some? ==> 1 <= r.value.1 <= |bs| && EncodeChar(r.value.0) == bs[..r.value.1]
  {
    var b0 := bs[0] as int;
    if b0 < 0x80 then
      Some((b0 as char, 1))
    else if 0xC2 <= b0 <= 0xDF then
      if |bs| >= 2 && IsContinuation(bs[1]) then
        var v := (b0 - 0xC0) * 0x40 + (bs[1] as int - 0x80);
        TwoBytes(b0, bs[1] as int);
        Some((v as char, 2))
      else None
    else if 0xE0 <= b0 <= 0xEF then
      if |bs| >= 3 && IsContinuation(bs[1]) && IsContinuation(bs[2])
         && (b0 == 0xE0 ==> 0xA0 <= bs[1]) && (b0 == 0xED ==> bs[1] < 0xA0)
      then
        var v := (b0 - 0xE0) * 0x1000 + (bs[1] as int - 0x80) * 0x40 + (bs[2] as int - 0x80);
        ThreeBytes(b0, bs[1] as int, bs[2] as int);
        Some((v as char, 3))
      else None
    else if 0xF0 <= b0 <= 0xF4 then
      if |bs| >= 4 && IsContinuation(bs[1]) && IsContinuation(bs[2]) && IsContinuation(bs[3])
         && (b0 == 0xF0 ==> 0x90 <= bs[1]) && (b0 == 0xF4 ==> bs[1] < 0x90)
      then
        var v := (b0 - 0xF0) * 0x4_0000 + (bs[1] as int - 0x80) * 0x1000
                 + (bs[2] as int - 0x80) * 0x40 + (bs[3] as int - 0x80);
        FourBytes(b0, bs[1] as int, bs[2] as int, bs[3] as int);
        Some((v as char, 4))
      else None
    else
      None
  }

  /**
   * The string whose UTF-8 encoding is `bs`, or None when `bs` is not
   * well-formed UTF-8. Whatever it returns encodes back to `bs`.
   */
  function Decode(bs: seq<byte>): (r: Option<string>)
    ensures r.Some? ==> Encode(r.value) == bs
    decreases |bs|
  {
    if bs == [] then Some([])
    else
      match DecodeHead(bs)
      case None => None
      case Some((c, n)) =>
        match Decode(bs[n..])
        case None => None
        case Some(rest) =>
          assert bs == bs[..n] + bs[n..];
          assert ([c] + rest)[1..] == rest;
          Some([c] + rest)
  }

  lemma TwoBytes(b0: int, b1: int)
    requires 0xC2 <= b0 <= 0xDF && 0x80 <= b1 < 0xC0
    ensures var v := (b0 - 0xC0) * 0x40 + (b1 - 0x80);
      0x80 <= v < 0x800 && 0xC0 + v / 0x40 == b0 && 0x80 + v % 0x40 == b1
  {
  }

  lemma ThreeBytes(b0: int, b1: int, b2: int)
    requires 0xE0 <= b0 <= 0xEF && 0x80 <= b1 < 0xC0 && 0x80 <= b2 < 0xC0
    requires b0 == 0xE0 ==> 0xA0 <= b1
    requires b0 == 0xED ==> b1 < 0xA0
    ensures var v := (b0 - 0xE0) * 0x1000 + (b1 - 0x80) * 0x40 + (b2 - 0x80);
      && 0x800 <= v < 0x1_0000 && !(0xD800 <= v < 0xE000)
      && 0xE0 + v / 0x1000 == b0 && 0x80 + v / 0x40 % 0x40 == b1 && 0x80 + v % 0x40 == b2
  {
  }

  lemma FourBytes(b0: int, b1: int, b2: int, b3: int)
    requires 0xF0 <= b0 <= 0xF4 && 0x80 <= b1 < 0xC0 && 0x80 <= b2 < 0xC0 && 0x80 <= b3 < 0xC0
    requires b0 == 0xF0 ==> 0x90 <= b1
    requires b0 == 0xF4 ==> b1 < 0x90
    ensures var v := (b0 - 0xF0) * 0x4_0000 + (b1 - 0x80) * 0x1000 + (b2 - 0x80) * 0x40 + (b3 - 0x80);
      && 0x1_0000 <= v < 0x11_0000
      && 0xF0 + v / 0x4_0000 == b0 && 0x80 + v / 0x1000 % 0x40 == b1
      && 0x80 + v / 0x40 % 0x40 == b2 && 0x80 + v % 0x40 == b3
  {
  }

  /** The head of an encoded character followed by anything decodes to that character. */
  lemma DecodeHeadEncodeChar(c: char, rest: seq<byte>)
    ensures DecodeHead(EncodeChar(c) + rest) == Some((c, |EncodeChar(c)|))
  {
    var bs := EncodeChar(c) + rest;
    var r := DecodeHead(bs);
    assert r.Some? by {
      var v := c as int;
      if 0x800 <= v < 0x1_0000 {
        assert bs[0] == EncodeChar(c)[0] && bs[1] == EncodeChar(c)[1];
      } else if 0x1_0000 <= v {
        assert bs[0] == EncodeChar(c)[0] && bs[1] == EncodeChar(c)[1];
      }
    }
    EncodeCharPrefixFree(c, r.value.0, rest, bs[r.value.1..]);
  }

  /** No character's encoding is a proper prefix of another's: the lead byte fixes the length. */
  lemma EncodeCharPrefixFree(c: char, d: char, rest: seq<byte>, rest': seq<byte>)
    requires EncodeChar(c) + rest == EncodeChar(d) + rest'
    ensures c == d
  {
    var x, y := EncodeChar(c), EncodeChar(d);
    assert x[0] == (x + rest)[0] == y[0];
    LeadByteLength(c);
    LeadByteLength(d);
    assert |x| == |y|;
    assert x == (x + rest)[..|x|] == (y + rest')[..|y|] == y;
    EncodeCharInjective(c, d);
  }

  /** The lead byte of an encoded character determines how many bytes follow it. */
  lemma LeadByteLength(c: char)
    ensures var bs := EncodeChar(c);
      && (bs[0] < 0x80 <==> |bs| == 1)
      && (0xC0 <= bs[0] < 0xE0 <==> |bs| == 2)
      && (0xE0 <= bs[0] < 0xF0 <==> |bs| == 3)
      && (0xF0 <= bs[0] < 0xF8 <==> |bs| == 4)
  {
  }

  lemma EncodeCharInjective(c: char, d: char)
    requires EncodeChar(c) == EncodeChar(d)
    ensures c == d
  {
    var bs := EncodeChar(c);
    if |bs| == 2 {
      Recompose2(c as int);
      Recompose2(d as int);
    } else if |bs| == 3 {
      Recompose3(c as int);
      Recompose3(d as int);
    } else if |bs| == 4 {
      Recompose4(c as int);
      Recompose4(d as int);
    }
  }

  lemma Recompose2(v: int)
    requires 0 <= v
    ensures v == (v / 0x40) * 0x40 + v % 0x40
  {
  }

  lemma Recompose3(v: int)
    requires 0 <= v
    ensures v == (v / 0x1000) * 0x1000 + (v / 0x40 % 0x40) * 0x40 + v % 0x40
  {
    var q := v / 0x40;
    assert v == q * 0x40 + v % 0x40;
    assert q == (q / 0x40) * 0x40 + q % 0x40;
    assert q / 0x40 == v / 0x1000;
  }

  lemma Recompose4(v: int)
    requires 0 <= v
    ensures v == (v / 0x4_0000) * 0x4_0000 + (v / 0x1000 % 0x40) * 0x1000 + (v / 0x40 % 0x40) * 0x40 + v % 0x40
  {
    var q := v / 0x1000;
    Recompose3(v);
    assert q == (q / 0x40) * 0x40 + q % 0x40;
    assert q / 0x40 == v / 0x4_0000;
  }

  /** Decoding is a left inverse of encoding: every string survives the round trip. */
  lemma {:induction false} DecodeEncode(s: string)
    ensures Decode(Encode(s)) == Some(s)
  {
    if s != [] {
      var head := EncodeChar(s[0]);
      var bs := Encode(s);
      assert bs == head + Encode(s[1..]);
      DecodeHeadEncodeChar(s[0], Encode(s[1..]));
      assert bs[|head|..] == Encode(s[1..]);
      DecodeEncode(s[1..]);
      assert s == [s[0]] + s[1..];
    }
  }

  /** `Decode` accepts exactly the encodings of strings, and inverts them. */
  lemma DecodeIff(bs: seq<byte>, s: string)
    ensures Decode(bs) == Some(s) <==> Encode(s) == bs
  {
    if Encode(s) == bs {
      DecodeEncode(s);
    }
  }
}
