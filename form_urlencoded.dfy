/**
 * The application/x-www-form-urlencoded format of section 5 of the WHATWG
 * URL Standard: the serializer of section 5.2, which is what
 * `URLSearchParams.toString()` returns, and the parser of section 5.1, which
 * is what `URLSearchParams` applies on the reading side.
 */
module FormUrlEncoded {
  import opened Wrappers
  import opened JsText
  import opened Utf8

  const Space: Byte := 0x20
  const Percent: Byte := 0x25
  const Ampersand: Byte := 0x26
  const Plus: Byte := 0x2B
  const EqualsSign: Byte := 0x3D

  predicate IsAsciiAlphanumeric(b: Byte)
  {
    (0x30 <= b <= 0x39) || (0x41 <= b <= 0x5A) || (0x61 <= b <= 0x7A)
  }

  /** The bytes outside the application/x-www-form-urlencoded percent-encode
      set, which the serializer copies as they are: ASCII alphanumerics and
      `*`, `-`, `.`, `_`. */
  predicate IsUnreserved(b: Byte)
  {
    IsAsciiAlphanumeric(b) || b == 0x2A || b == 0x2D || b == 0x2E || b == 0x5F
  }

  /** The upper-case hexadecimal digit for `n`. */
  function HexDigit(n: int): (d: Byte)
    requires 0 <= n < 16
  {
    if n < 10 then (0x30 + n) as Byte else (0x41 + n - 10) as Byte
  }

  /** The value of an ASCII hexadecimal digit of either case. */
  function HexValue(d: Byte): (r: Option<int>)
    ensures r.Some? ==> 0 <= r.value < 16
  {
    if 0x30 <= d <= 0x39 then Some(d as int - 0x30)
    else if 0x41 <= d <= 0x46 then Some(d as int - 0x41 + 10)
    else if 0x61 <= d <= 0x66 then Some(d as int - 0x61 + 10)
    else None
  }

  /** One byte after percent-encoding with space-as-plus. */
  function EncodeByte(b: Byte): seq<Byte>
  {
    if b == Space then [Plus]
    else if IsUnreserved(b) then [b]
    else [Percent, HexDigit(b as int / 16), HexDigit(b as int % 16)]
  }

  function PercentEncode(bs: seq<Byte>): seq<Byte>
  {
    if |bs| == 0 then [] else EncodeByte(bs[0]) + PercentEncode(bs[1..])
  }

  /** "Percent-encode after encoding" with UTF-8, the
      application/x-www-form-urlencoded percent-encode set and space-as-plus. */
  function EncodeComponent(s: string): seq<Byte>
  {
    PercentEncode(Encode(s))
  }

  function SerializePair(p: (string, string)): seq<Byte>
  {
    EncodeComponent(p.0) + [EqualsSign] + EncodeComponent(p.1)
  }

  /** Each pair serialized on its own, in order. */
  function SerializePairs(pairs: seq<(string, string)>): (r: seq<seq<Byte>>)
    ensures |r| == |pairs|
  {
    if |pairs| == 0 then [] else [SerializePair(pairs[0])] + SerializePairs(pairs[1..])
  }

  /** The serializer of section 5.2: each name and value encoded, joined by
      `=`, the pairs joined by `&`. Every pair contributes at least `=`, so
      "append `&` when the output is not empty" puts `&` between neighbours. */
  function SerializeBytes(pairs: seq<(string, string)>): seq<Byte>
  {
    if |pairs| == 0 then [] else Join(SerializePairs(pairs), Ampersand)
  }

  /** The serializer's output as a JavaScript string (it is all ASCII, see
      `SerializeIsAscii`). */
  function Serialize(pairs: seq<(string, string)>): JsString
  {
    Widen(SerializeBytes(pairs))
  }

  /** ASCII bytes as code units. */
  function Widen(bs: seq<Byte>): JsString
  {
    seq(|bs|, i requires 0 <= i < |bs| => bs[i] as int as CodeUnit)
  }

  /** The parser's first step on a name or value: `+` becomes a space. */
  function PlusToSpace(bs: seq<Byte>): (r: seq<Byte>)
    ensures |r| == |bs|
  {
    seq(|bs|, i requires 0 <= i < |bs| => if bs[i] == Plus then Space else bs[i])
  }

  /** Percent-decoding: `%` and two hexadecimal digits become the byte they
      spell; every other byte, a lone `%` included, is kept. */
  function PercentDecode(bs: seq<Byte>): seq<Byte>
    decreases |bs|
  {
    if |bs| == 0 then []
    else if bs[0] == Percent && |bs| >= 3 && HexValue(bs[1]).Some? && HexValue(bs[2]).Some? then
      [(HexValue(bs[1]).value * 16 + HexValue(bs[2]).value) as Byte] + PercentDecode(bs[3..])
    else [bs[0]] + PercentDecode(bs[1..])
  }

  function DecodeComponent(bs: seq<Byte>): Option<string>
  {
    Decode(PercentDecode(PlusToSpace(bs)))
  }

  /** One `&`-free sequence: name before the first `=`, value after it (empty
      when there is no `=`). */
  function ParseSequence(bs: seq<Byte>): Option<(string, string)>
  {
    var i := IndexOf(bs, EqualsSign);
    var name := bs[..i];
    var value := if i < |bs| then bs[i + 1..] else [];
    match (DecodeComponent(name), DecodeComponent(value))
    case (Some(n), Some(v)) => Some((n, v))
    case _ => None
  }

  /** The sequences in order, empty ones skipped. */
  function ParseSequences(seqs: seq<seq<Byte>>): Option<seq<(string, string)>>
  {
    if |seqs| == 0 then Some([])
    else if seqs[0] == [] then ParseSequences(seqs[1..])
    else
      match (ParseSequence(seqs[0]), ParseSequences(seqs[1..]))
      case (Some(p), Some(ps)) => Some([p] + ps)
      case _ => None
  }

  /** The parser of section 5.1, with strict UTF-8 decoding: `None` where the
      standard's decoder would put U+FFFD. */
  function Parse(input: seq<Byte>): Option<seq<(string, string)>>
  {
    ParseSequences(Split(input, Ampersand))
  }

  /** The bytes percent-encoding can produce: never `&`, `=` or `+`. */
  predicate IsEncodedByte(b: Byte)
  {
    IsUnreserved(b) || b == Plus || b == Percent || HexValue(b).Some?
  }

  lemma {:induction false} PercentEncodeBytes(bs: seq<Byte>)
    ensures forall k :: 0 <= k < |PercentEncode(bs)| ==> IsEncodedByte(PercentEncode(bs)[k])
  {
    if |bs| > 0 {
      PercentEncodeBytes(bs[1..]);
      var e, rest := EncodeByte(bs[0]), PercentEncode(bs[1..]);
      assert PercentEncode(bs) == e + rest;
      forall k | 0 <= k < |e + rest| ensures IsEncodedByte((e + rest)[k]) {
        if k >= |e| {
          assert (e + rest)[k] == rest[k - |e|];
        }
      }
    }
  }

  predicate IsAscii(bs: seq<Byte>)
  {
    forall b :: b in bs ==> b < 0x80
  }

  lemma EncodeComponentAscii(s: string)
    ensures IsAscii(EncodeComponent(s))
  {
    var e := EncodeComponent(s);
    PercentEncodeBytes(Encode(s));
    forall b | b in e ensures b < 0x80 {
      var k :| 0 <= k < |e| && e[k] == b;
      assert IsEncodedByte(e[k]);
    }
  }

  lemma {:induction false} SerializePairsAscii(pairs: seq<(string, string)>)
    ensures forall k :: 0 <= k < |SerializePairs(pairs)| ==> IsAscii(SerializePairs(pairs)[k])
  {
    if |pairs| > 0 {
      var seqs := SerializePairs(pairs);
      EncodeComponentAscii(pairs[0].0);
      EncodeComponentAscii(pairs[0].1);
      SerializePairsAscii(pairs[1..]);
      assert seqs[1..] == SerializePairs(pairs[1..]);
      forall k | 0 <= k < |seqs| ensures IsAscii(seqs[k]) {
        if k > 0 {
          assert seqs[k] == seqs[1..][k - 1];
        }
      }
    }
  }

  /** Every byte the serializer writes is ASCII, so widening each byte to a
      code unit is the string `toString()` returns. */
  lemma SerializeIsAscii(pairs: seq<(string, string)>)
    ensures IsAscii(SerializeBytes(pairs))
  {
    if |pairs| > 0 {
      var seqs := SerializePairs(pairs);
      SerializePairsAscii(pairs);
      JoinMembers(seqs, Ampersand);
    }
  }

  /** An encoded component holds neither separator of the format. */
  lemma EncodeComponentSeparatorFree(s: string)
    ensures Ampersand !in EncodeComponent(s)
    ensures EqualsSign !in EncodeComponent(s)
  {
    PercentEncodeBytes(Encode(s));
  }

  lemma PlusToSpaceConcat(a: seq<Byte>, b: seq<Byte>)
    ensures PlusToSpace(a + b) == PlusToSpace(a) + PlusToSpace(b)
  {
  }

  lemma HexRoundTrip(n: int)
    requires 0 <= n < 16
    ensures HexValue(HexDigit(n)) == Some(n)
  {
  }

  /** Decoding the encoding of one byte gives it back, whatever follows. */
  lemma DecodeEncodeByte(b: Byte, rest: seq<Byte>)
    ensures PercentDecode(PlusToSpace(EncodeByte(b)) + rest) == [b] + PercentDecode(rest)
  {
    var e := PlusToSpace(EncodeByte(b)) + rest;
    if b == Space {
    } else if IsUnreserved(b) {
    } else {
      HexRoundTrip(b as int / 16);
      HexRoundTrip(b as int % 16);
      assert e[3..] == rest;
    }
  }

  /** Percent-decoding undoes percent-encoding. */
  lemma {:induction false} PercentDecodeEncode(bs: seq<Byte>)
    ensures PercentDecode(PlusToSpace(PercentEncode(bs))) == bs
  {
    if |bs| > 0 {
      var rest := PercentEncode(bs[1..]);
      assert PercentEncode(bs) == EncodeByte(bs[0]) + rest;
      PlusToSpaceConcat(EncodeByte(bs[0]), rest);
      DecodeEncodeByte(bs[0], PlusToSpace(rest));
      PercentDecodeEncode(bs[1..]);
      assert bs == [bs[0]] + bs[1..];
    }
  }

  /** A name or value is read back as it was written. */
  lemma DecodeEncodeComponent(s: string)
    ensures DecodeComponent(EncodeComponent(s)) == Some(s)
  {
    PercentDecodeEncode(Encode(s));
    DecodeEncode(s);
  }

  /** A serialized pair is read back as the same pair. */
  lemma ParseSerializePair(p: (string, string))
    ensures ParseSequence(SerializePair(p)) == Some(p)
  {
    var n, v := EncodeComponent(p.0), EncodeComponent(p.1);
    EncodeComponentSeparatorFree(p.0);
    IndexOfAfterFree(n, EqualsSign, v);
    var bs := n + [EqualsSign] + v;
    assert bs[..|n|] == n;
    assert bs[|n| + 1..] == v;
    DecodeEncodeComponent(p.0);
    DecodeEncodeComponent(p.1);
  }

  lemma {:induction false} ParseSerializedPairs(pairs: seq<(string, string)>)
    ensures ParseSequences(SerializePairs(pairs)) == Some(pairs)
  {
    if |pairs| > 0 {
      var seqs := SerializePairs(pairs);
      var p := pairs[0];
      assert seqs[0] == SerializePair(p) && EqualsSign in seqs[0];
      assert seqs[1..] == SerializePairs(pairs[1..]);
      ParseSerializePair(p);
      ParseSerializedPairs(pairs[1..]);
      assert ParseSequences(seqs) == Some([p] + pairs[1..]);
      assert pairs == [p] + pairs[1..];
    }
  }

  /** The pieces of a serialization hold no `&`. */
  lemma {:induction false} SerializePairsAmpersandFree(pairs: seq<(string, string)>)
    ensures SeparatorFree(SerializePairs(pairs), Ampersand)
  {
    if |pairs| > 0 {
      var seqs := SerializePairs(pairs);
      EncodeComponentSeparatorFree(pairs[0].0);
      EncodeComponentSeparatorFree(pairs[0].1);
      SerializePairsAmpersandFree(pairs[1..]);
      assert seqs[1..] == SerializePairs(pairs[1..]);
      forall k | 0 <= k < |seqs| ensures Ampersand !in seqs[k] {
        if k > 0 {
          assert seqs[k] == seqs[1..][k - 1];
        }
      }
    }
  }

  /** Parsing undoes serializing: the standard's parser reads back exactly
      the pairs that were appended, in order. */
  lemma ParseSerialize(pairs: seq<(string, string)>)
    ensures Parse(SerializeBytes(pairs)) == Some(pairs)
  {
    if |pairs| == 0 {
      var empty: seq<Byte> := [];
      assert Split(empty, Ampersand) == [empty];
      assert [empty][1..] == [];
      assert ParseSequences([empty]) == ParseSequences([]);
      assert SerializeBytes(pairs) == empty;
    } else {
      var seqs := SerializePairs(pairs);
      SerializePairsAmpersandFree(pairs);
      SplitJoin(seqs, Ampersand);
      ParseSerializedPairs(pairs);
    }
  }
}
