/**
 * UTF-8 as Python's `str.encode()` and strict `bytes.decode('utf-8')` use it.
 * A Dafny `char` is a Unicode scalar value, so every string can be encoded;
 * decoding accepts exactly the well-formed byte sequences of Table 3-7 of
 * the Unicode Standard and reports where the first ill-formed one starts.
 */
module Utf8 {

  newtype byte = x: int | 0 <= x < 0x100

  /** The bytes of one scalar value, shortest form. */
  function EncodeChar(c: char): (b: seq<byte>)
    ensures 1 <= |b| <= 4
  {
    var cp := c as int;
    if cp < 0x80 then
      [cp as byte]
    else if cp < 0x800 then
      [(0xC0 + cp / 0x40) as byte, (0x80 + cp % 0x40) as byte]
    else if cp < 0x1_0000 then
      [(0xE0 + cp / 0x1000) as byte, (0x80 + cp / 0x40 % 0x40) as byte, (0x80 + cp % 0x40) as byte]
    else
      [(0xF0 + cp / 0x4_0000) as byte, (0x80 + cp / 0x1000 % 0x40) as byte,
       (0x80 + cp / 0x40 % 0x40) as byte, (0x80 + cp % 0x40) as byte]
  }

  /** Python's `s.encode()`. */
  function Encode(s: string): (b: seq<byte>)
    ensures |s| <= |b| <= 4 * |s|
  {
    if s == [] then [] else EncodeChar(s[0]) + Encode(s[1..])
  }

  predicate IsContinuation(x: byte)
  {
    0x80 <= x <= 0xBF
  }

  /**
   * The length of the well-formed sequence that starts `b`, or 0 when `b`
   * does not start with one (Table 3-7 of the Unicode Standard).
   */
  function SequenceLength(b: seq<byte>): (n: nat)
    ensures n <= |b| && n <= 4
    ensures |b| > 0 && b[0] < 0x80 ==> n == 1
  {
    if |b| == 0 then 0
    else if b[0] < 0x80 then 1
    else if 0xC2 <= b[0] <= 0xDF then
      if |b| >= 2 && IsContinuation(b[1]) then 2 else 0
    else if 0xE0 <= b[0] <= 0xEF then
      var lo: byte := if b[0] == 0xE0 then 0xA0 else 0x80;
      var hi: byte := if b[0] == 0xED then 0x9F else 0xBF;
      if |b| >= 3 && lo <= b[1] <= hi && IsContinuation(b[2]) then 3 else 0
    else if 0xF0 <= b[0] <= 0xF4 then
      var lo: byte := if b[0] == 0xF0 then 0x90 else 0x80;
      var hi: byte := if b[0] == 0xF4 then 0x8F else 0xBF;
      if |b| >= 4 && lo <= b[1] <= hi && IsContinuation(b[2]) && IsContinuation(b[3]) then 4 else 0
    else 0
  }

  /** The scalar value of the well-formed sequence that starts `b`. */
  function ScalarValue(b: seq<byte>): char
    requires SequenceLength(b) > 0
  {
    var n := SequenceLength(b);
    if n == 1 then
      b[0] as int as char
    else if n == 2 then
      ((b[0] as int - 0xC0) * 0x40 + (b[1] as int - 0x80)) as char
    else if n == 3 then
      ((b[0] as int - 0xE0) * 0x1000 + (b[1] as int - 0x80) * 0x40 + (b[2] as int - 0x80)) as char
    else
      ((b[0] as int - 0xF0) * 0x4_0000 + (b[1] as int - 0x80) * 0x1000
       + (b[2] as int - 0x80) * 0x40 + (b[3] as int - 0x80)) as char
  }

  /** The outcome of a strict decode: the text, or the offset of the first ill-formed sequence. */
  datatype Decoding = Decoded(text: string) | Invalid(offset: nat)

  /** Python's `b.decode('utf-8')`; `Invalid(k)` is the `UnicodeDecodeError` whose `start` is `k`. */
  function Decode(b: seq<byte>): (r: Decoding)
    ensures r.Decoded? ==> |r.text| <= |b| && (|r.text| == 0 <==> |b| == 0)
    ensures r.Invalid? ==> r.offset < |b| && SequenceLength(b[r.offset..]) == 0
    decreases |b|
  {
    if |b| == 0 then Decoded([])
    else
      var n := SequenceLength(b);
      if n == 0 then Invalid(0)
      else
        match Decode(b[n..])
        case Invalid(k) =>
          assert b[n..][k..] == b[n + k..];
          Invalid(n + k)
        case Decoded(t) => Decoded([ScalarValue(b)] + t)
  }

  /** Decoding reads back the first character of an encoding and nothing more. */
  lemma CharRoundTrip(c: char, rest: seq<byte>)
    ensures SequenceLength(EncodeChar(c) + rest) == |EncodeChar(c)|
    ensures ScalarValue(EncodeChar(c) + rest) == c
  {
    var cp := c as int;
    if cp < 0x80 {
    } else if cp < 0x800 {
      TwoByteChar(c, rest);
    } else if cp < 0x1_0000 {
      ThreeByteChar(c, rest);
    } else {
      FourByteChar(c, rest);
    }
  }

  lemma TwoByteChar(c: char, rest: seq<byte>)
    requires 0x80 <= c as int < 0x800
    ensures SequenceLength(EncodeChar(c) + rest) == 2
    ensures ScalarValue(EncodeChar(c) + rest) == c
  {
    var cp := c as int;
    assert cp == cp / 0x40 * 0x40 + cp % 0x40;
  }

  lemma ThreeByteChar(c: char, rest: seq<byte>)
    requires 0x800 <= c as int < 0x1_0000
    ensures SequenceLength(EncodeChar(c) + rest) == 3
    ensures ScalarValue(EncodeChar(c) + rest) == c
  {
    var cp := c as int;
    assert cp / 0x40 == cp / 0x1000 * 0x40 + cp / 0x40 % 0x40;
    assert cp == cp / 0x40 * 0x40 + cp % 0x40;
  }

  lemma FourByteChar(c: char, rest: seq<byte>)
    requires 0x1_0000 <= c as int
    ensures SequenceLength(EncodeChar(c) + rest) == 4
    ensures ScalarValue(EncodeChar(c) + rest) == c
  {
    var cp := c as int;
    assert cp / 0x1000 == cp / 0x4_0000 * 0x40 + cp / 0x1000 % 0x40;
    assert cp / 0x40 == cp / 0x1000 * 0x40 + cp / 0x40 % 0x40;
    assert cp == cp / 0x40 * 0x40 + cp % 0x40;
  }

  /** Decoding undoes encoding: every string survives the round trip. */
  lemma {:induction false} DecodeEncode(s: string)
    ensures Decode(Encode(s)) == Decoded(s)
  {
    if s != [] {
      var head := EncodeChar(s[0]);
      var rest := Encode(s[1..]);
      CharRoundTrip(s[0], rest);
      assert (head + rest)[|head|..] == rest;
      DecodeEncode(s[1..]);
    }
  }

  /** Splitting a number into its low six bits and the rest. */
  lemma SixBits(q: int, r: int)
    requires 0 <= r < 0x40
    ensures (q * 0x40 + r) / 0x40 == q && (q * 0x40 + r) % 0x40 == r
  {
  }

  /** Encoding the scalar value of a well-formed sequence gives back its bytes. */
  lemma SequenceRoundTrip(b: seq<byte>)
    requires SequenceLength(b) > 0
    ensures EncodeChar(ScalarValue(b)) == b[..SequenceLength(b)]
  {
    var n := SequenceLength(b);
    if n == 2 {
      TwoByteRoundTrip(b);
    } else if n == 3 {
      ThreeByteRoundTrip(b);
    } else if n == 4 {
      FourByteRoundTrip(b);
    }
  }

  lemma TwoByteRoundTrip(b: seq<byte>)
    requires SequenceLength(b) == 2
    ensures EncodeChar(ScalarValue(b)) == b[..2]
  {
    var x0, x1 := b[0] as int - 0xC0, b[1] as int - 0x80;
    assert ScalarValue(b) as int == x0 * 0x40 + x1;
    SixBits(x0, x1);
  }

  lemma ThreeByteRoundTrip(b: seq<byte>)
    requires SequenceLength(b) == 3
    ensures EncodeChar(ScalarValue(b)) == b[..3]
  {
    var x0, x1, x2 := b[0] as int - 0xE0, b[1] as int - 0x80, b[2] as int - 0x80;
    var cp := ScalarValue(b) as int;
    assert cp == (x0 * 0x40 + x1) * 0x40 + x2;
    SixBits(x0 * 0x40 + x1, x2);
    SixBits(x0, x1);
    assert cp / 0x1000 == cp / 0x40 / 0x40;
  }

  lemma FourByteRoundTrip(b: seq<byte>)
    requires SequenceLength(b) == 4
    ensures EncodeChar(ScalarValue(b)) == b[..4]
  {
    var x0, x1 := b[0] as int - 0xF0, b[1] as int - 0x80;
    var x2, x3 := b[2] as int - 0x80, b[3] as int - 0x80;
    var cp := ScalarValue(b) as int;
    assert cp == ((x0 * 0x40 + x1) * 0x40 + x2) * 0x40 + x3;
    SixBits((x0 * 0x40 + x1) * 0x40 + x2, x3);
    SixBits(x0 * 0x40 + x1, x2);
    SixBits(x0, x1);
    assert cp / 0x1000 == cp / 0x40 / 0x40;
    assert cp / 0x4_0000 == cp / 0x1000 / 0x40;
  }

  /** One step of a successful decode: the first scalar value, then the rest. */
  lemma DecodeStep(b: seq<byte>)
    requires SequenceLength(b) > 0 && Decode(b[SequenceLength(b)..]).Decoded?
    ensures Decode(b) == Decoded([ScalarValue(b)] + Decode(b[SequenceLength(b)..]).text)
  {
  }

  /** Encoding a non-empty string starts with its first character. */
  lemma EncodeStep(c: char, t: string)
    ensures Encode([c] + t) == EncodeChar(c) + Encode(t)
  {
    assert ([c] + t)[1..] == t;
  }

  /** Encoding a decoded first scalar value in front of a text puts its bytes back in front. */
  lemma EncodeFirst(b: seq<byte>, t: string)
    requires SequenceLength(b) > 0
    ensures Encode([ScalarValue(b)] + t) == b[..SequenceLength(b)] + Encode(t)
  {
    EncodeStep(ScalarValue(b), t);
    SequenceRoundTrip(b);
  }

  /** Only well-formed input decodes: the decoded text encodes back to exactly the input. */
  lemma {:induction false} EncodeDecoded(b: seq<byte>)
    ensures Decode(b).Decoded? ==> Encode(Decode(b).text) == b
    decreases |b|
  {
    var n := SequenceLength(b);
    if n > 0 {
      var rest := b[n..];
      EncodeDecoded(rest);
      if Decode(rest).Decoded? {
        var t := Decode(rest).text;
        DecodeStep(b);
        EncodeFirst(b, t);
        Reassemble(b, n, Encode([ScalarValue(b)] + t), Encode(t));
      }
    }
  }

  lemma Reassemble(b: seq<byte>, n: nat, whole: seq<byte>, tail: seq<byte>)
    requires n <= |b| && whole == b[..n] + tail && tail == b[n..]
    ensures whole == b
  {
  }

  /** A well-formed sequence keeps its length when the bytes after it are cut off. */
  lemma SequenceLengthOfPrefix(b: seq<byte>, m: nat)
    requires SequenceLength(b) <= m <= |b|
    ensures SequenceLength(b[..m]) == SequenceLength(b) || SequenceLength(b) == 0
  {
    if SequenceLength(b) > 0 {
      assert b[..m][0] == b[0];
      if m >= 2 { assert b[..m][1] == b[1]; }
      if m >= 3 { assert b[..m][2] == b[2]; }
      if m >= 4 { assert b[..m][3] == b[3]; }
    }
  }

  /** One step of a failing decode: the error lies after the first sequence, at the rest's offset. */
  lemma InvalidStep(b: seq<byte>)
    requires SequenceLength(b) > 0 && Decode(b[SequenceLength(b)..]).Invalid?
    ensures Decode(b) == Invalid(SequenceLength(b) + Decode(b[SequenceLength(b)..]).offset)
  {
  }

  /** Cutting bytes off the end after a well-formed first sequence keeps a decodable rest decodable. */
  lemma PrefixDecodes(b: seq<byte>, k: nat)
    requires 0 < SequenceLength(b) && SequenceLength(b) + k <= |b|
    requires Decode(b[SequenceLength(b)..][..k]).Decoded?
    ensures Decode(b[..SequenceLength(b) + k]).Decoded?
  {
    var n := SequenceLength(b);
    var p := b[..n + k];
    SequenceLengthOfPrefix(b, n + k);
    assert p[n..] == b[n..][..k];
    DecodeStep(p);
  }

  /** The error offset is the first ill-formed byte: everything before it decodes. */
  lemma {:induction false} DecodeBeforeOffset(b: seq<byte>)
    ensures Decode(b).Invalid? ==> Decode(b[..Decode(b).offset]).Decoded?
    decreases |b|
  {
    var n := SequenceLength(b);
    if n > 0 {
      var rest := b[n..];
      DecodeBeforeOffset(rest);
      if Decode(rest).Invalid? {
        InvalidStep(b);
        PrefixDecodes(b, Decode(rest).offset);
      }
    }
  }
}
