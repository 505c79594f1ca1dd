/**
 * UTF-8: the encoding the URL serializer applies to every name and value
 * before percent-encoding, and a strict decoder that inverts it.
 */
module Utf8 {
  import opened Wrappers

  newtype Byte = x: int | 0 <= x < 0x100

  /** The bytes of one scalar value: one to four of them. */
  function EncodeScalar(c: char): (r: seq<Byte>)
    ensures 1 <= |r| <= 4
  {
    var v := c as int;
    if v < 0x80 then
      [v as Byte]
    else if v < 0x800 then
      [(0xC0 + v / 0x40) as Byte, (0x80 + v % 0x40) as Byte]
    else if v < 0x1_0000 then
      [(0xE0 + v / 0x40 / 0x40) as Byte, (0x80 + v / 0x40 % 0x40) as Byte, (0x80 + v % 0x40) as Byte]
    else
      [(0xF0 + v / 0x40 / 0x40 / 0x40) as Byte, (0x80 + v / 0x40 / 0x40 % 0x40) as Byte,
       (0x80 + v / 0x40 % 0x40) as Byte, (0x80 + v % 0x40) as Byte]
  }

  /** UTF-8 encoding of a sequence of scalar values. */
  function Encode(s: string): seq<Byte>
  {
    if |s| == 0 then [] else EncodeScalar(s[0]) + Encode(s[1..])
  }

  predicate IsContinuation(b: Byte) { 0x80 <= b < 0xC0 }

  /** The first scalar value of `b` and the number of bytes it takes, or
      `None` for a malformed sequence: a stray continuation byte, a truncated
      sequence, an overlong form, a surrogate or a value above U+10FFFF. */
  function DecodeFirst(b: seq<Byte>): (r: Option<(char, nat)>)
    ensures r.Some? ==> 1 <= r.value.1 <= |b|
  {
    if |b| == 0 then None
    else if b[0] < 0x80 then
      Some(((b[0] as int) as char, 1))
    else if 0xC2 <= b[0] < 0xE0 then
      if |b| >= 2 && IsContinuation(b[1]) then
        Some((((b[0] as int - 0xC0) * 0x40 + (b[1] as int - 0x80)) as char, 2))
      else None
    else if 0xE0 <= b[0] < 0xF0 then
      if |b| >= 3 && IsContinuation(b[1]) && IsContinuation(b[2]) then
        var v := (b[0] as int - 0xE0) * 0x1000 + (b[1] as int - 0x80) * 0x40 + (b[2] as int - 0x80);
        if 0x800 <= v && !(0xD800 <= v < 0xE000) then Some((v as char, 3)) else None
      else None
    else if 0xF0 <= b[0] < 0xF5 then
      if |b| >= 4 && IsContinuation(b[1]) && IsContinuation(b[2]) && IsContinuation(b[3]) then
        var v := (b[0] as int - 0xF0) * 0x4_0000 + (b[1] as int - 0x80) * 0x1000
                 + (b[2] as int - 0x80) * 0x40 + (b[3] as int - 0x80);
        if 0x1_0000 <= v < 0x11_0000 then Some((v as char, 4)) else None
      else None
    else None
  }

  /** Strict UTF-8 decoding: `None` when any part is malformed. */
  function Decode(b: seq<Byte>): Option<string>
    decreases |b|
  {
    if |b| == 0 then Some([])
    else
      match DecodeFirst(b)
      case None => None
      case Some((c, n)) =>
        match Decode(b[n..])
        case None => None
        case Some(rest) => Some([c] + rest)
  }

  /** `v` split into its low six bits and the rest. */
  lemma SixBits(v: nat, hi: nat, lo: nat)
    requires v == hi * 0x40 + lo && lo < 0x40
    ensures v / 0x40 == hi && v % 0x40 == lo
  {
  }

  /** The encoding of a scalar value is read back as that value, whatever
      follows it. */
  lemma DecodeFirstEncodeScalar(c: char, rest: seq<Byte>)
    ensures DecodeFirst(EncodeScalar(c) + rest) == Some((c, |EncodeScalar(c)|))
  {
    var v := c as int;
    var b := EncodeScalar(c) + rest;
    var v1 := v / 0x40;
    var v2 := v1 / 0x40;
    assert v == v1 * 0x40 + v % 0x40;
    assert v1 == v2 * 0x40 + v1 % 0x40;
    if v < 0x80 {
    } else if v < 0x800 {
      assert b[0] as int - 0xC0 == v1 && b[1] as int - 0x80 == v % 0x40;
    } else if v < 0x1_0000 {
      assert b[0] as int - 0xE0 == v2 && b[1] as int - 0x80 == v1 % 0x40 && b[2] as int - 0x80 == v % 0x40;
    } else {
      var v3 := v2 / 0x40;
      assert v2 == v3 * 0x40 + v2 % 0x40;
      assert b[0] as int - 0xF0 == v3 && b[1] as int - 0x80 == v2 % 0x40;
      assert b[2] as int - 0x80 == v1 % 0x40 && b[3] as int - 0x80 == v % 0x40;
    }
  }

  /** Decoding undoes encoding. */
  lemma {:induction false} DecodeEncode(s: string)
    ensures Decode(Encode(s)) == Some(s)
  {
    if |s| > 0 {
      var head, tail := EncodeScalar(s[0]), Encode(s[1..]);
      assert Encode(s) == head + tail;
      DecodeFirstEncodeScalar(s[0], tail);
      assert (head + tail)[|head|..] == tail;
      DecodeEncode(s[1..]);
      assert s == [s[0]] + s[1..];
    }
  }

  /** A non-empty byte sequence that decodes starts with a well-formed
      scalar and the rest decodes too. */
  lemma DecodeCons(b: seq<Byte>)
    requires |b| > 0 && Decode(b).Some?
    ensures DecodeFirst(b).Some?
    ensures Decode(b[DecodeFirst(b).value.1..]).Some?
    ensures Decode(b).value == [DecodeFirst(b).value.0] + Decode(b[DecodeFirst(b).value.1..]).value
  {
  }

  /** A byte sequence that decodes is exactly the encoding of what it
      decodes to: the decoder accepts nothing but encoder output. */
  lemma {:induction false} EncodeDecode(b: seq<Byte>, s: string)
    requires Decode(b) == Some(s)
    ensures Encode(s) == b
    decreases |b|
  {
    if |b| > 0 {
      DecodeCons(b);
      var first := DecodeFirst(b).value;
      var c, n := first.0, first.1;
      var rest := Decode(b[n..]).value;
      EncodeScalarDecodeFirst(b);
      EncodeDecode(b[n..], rest);
      assert s == [c] + rest;
      assert s[0] == c && s[1..] == rest;
      assert Encode(s) == EncodeScalar(c) + Encode(rest);
      assert b == b[..n] + b[n..];
    }
  }

  /** The bytes the first scalar is read from are its encoding. */
  lemma EncodeScalarDecodeFirst(b: seq<Byte>)
    requires DecodeFirst(b).Some?
    ensures EncodeScalar(DecodeFirst(b).value.0) == b[..DecodeFirst(b).value.1]
  {
    var c, n := DecodeFirst(b).value.0, DecodeFirst(b).value.1;
    var v := c as int;
    if n == 2 {
      SixBits(v, b[0] as int - 0xC0, b[1] as int - 0x80);
    } else if n == 3 {
      var hi := (b[0] as int - 0xE0) * 0x40 + (b[1] as int - 0x80);
      SixBits(v, hi, b[2] as int - 0x80);
      SixBits(hi, b[0] as int - 0xE0, b[1] as int - 0x80);
    } else if n == 4 {
      var hi2 := (b[0] as int - 0xF0) * 0x40 + (b[1] as int - 0x80);
      var hi := hi2 * 0x40 + (b[2] as int - 0x80);
      SixBits(v, hi, b[3] as int - 0x80);
      SixBits(hi, hi2, b[2] as int - 0x80);
      SixBits(hi2, b[0] as int - 0xF0, b[1] as int - 0x80);
    }
  }
}
