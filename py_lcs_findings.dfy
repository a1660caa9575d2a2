/**
  * Two places where the Python LCS runtime, as written, does not do what
  * the format requires, each shown on an input, next to the corrected
  * behaviour the rest of the model uses.
  */
module PyLcsFindings {
  import opened Wire
  import Uleb128
  import Utf8
  import opened PyTypes
  import opened LexOrder
  import opened PyLcs
  import opened PyLcsRoundTrip

  /** The UTF-8 bytes of `é` (U+00E9). */
  lemma EncodeAcute()
    ensures Utf8.Encode([0xE9 as char]) == [0xC3, 0xA9]
  {
    assert [0xE9 as char][1..] == [];
  }

  /** `encode_str` as written prefixes `é` with its one code point, not its
    * two UTF-8 bytes, so `decode_str` cuts the character in half; the
    * corrected prefix reads back. */
  lemma EncodeStrAsWrittenBreaks()
    ensures EncodeStrAsWritten([0xE9 as char]) == [1, 0xC3, 0xA9]
    ensures DecodeStr(EncodeStrAsWritten([0xE9 as char])) == Err(InvalidUtf8)
    ensures EncodeStr([0xE9 as char]) == [2, 0xC3, 0xA9]
    ensures DecodeStr(EncodeStr([0xE9 as char])) == Ok(([0xE9 as char], []))
  {
    EncodeAcute();
    assert Uleb128.Encode(1) == [1] && Uleb128.Encode(2) == [2];
    assert [1, 0xC3, 0xA9] == Uleb128.Encode(1) + [0xC3, 0xA9];
    LengthRoundTrip(1, [0xC3, 0xA9]);
    var bytes: seq<byte> := [0xC3, 0xA9];
    assert bytes[..1] == [0xC3] && bytes[1..] == [0xA9];
    assert Utf8.Decode([0xC3]) == Err(InvalidUtf8);
    assert EncodeStr([0xE9 as char]) + [] == EncodeStr([0xE9 as char]);
    StrRoundTrip([0xE9 as char], []);
  }

  /** The two prefixes agree exactly on ASCII strings. */
  lemma EncodeStrAsWrittenAgrees(s: string)
    requires |Utf8.Encode(s)| <= MaxLength
    ensures EncodeStrAsWritten(s) == EncodeStr(s) <==> forall i :: 0 <= i < |s| ==> s[i] as int < 0x80
  {
    var bytes := Utf8.Encode(s);
    Utf8.EncodeLength(s);
    if EncodeStrAsWritten(s) == EncodeStr(s) {
      Uleb128RoundTrip(|s|, bytes);
      Uleb128RoundTrip(|bytes|, bytes);
    }
  }

  /** A one-byte key: `uint8` is read with `from_bytes` of one byte. */
  lemma ReadByte(b: byte, rest: seq<byte>, cut: KeyCut)
    ensures Read([b] + rest, Int(W8, false), cut) == Ok((IntV(b), rest))
  {
    assert Split([b] + rest, 1) == ([b], rest);
    assert FromLE([b]) == b by {
      assert [b][1..] == [];
    }
  }

  /** `to_bytes(1, "little")` of a byte. */
  lemma WriteByte(b: byte)
    ensures ToBytes(b, W8, false) == Ok([b])
  {
    Pow2Values();
    ByteAtByte(b);
  }

  /** `{0: None, 1: None}` as a `Dict[uint8, None]`. */
  function SmallMap(): Value
  {
    MapV([(IntV(0), NoneV), (IntV(1), NoneV)])
  }

  function SmallMapType(): Type
  {
    MapOf(Int(W8, false), Unit)
  }

  /** One more dict item in front of serialized ones. */
  lemma EntriesCons(e: (Value, Value), rest: seq<(Value, Value)>, t: Type, key: seq<byte>, value: seq<byte>, tail: seq<seq<byte>>)
    requires t.MapOf?
    requires Serialize(e.0, t.key) == Ok(key) && Serialize(e.1, t.value) == Ok(value)
    requires SerializeEntries(rest, t) == Ok(tail)
    ensures SerializeEntries([e] + rest, t) == Ok([key + value] + tail)
  {
    assert ([e] + rest)[0] == e && ([e] + rest)[1..] == rest;
  }

  /** Each item of the dict serialized: a key byte and nothing for `None`. */
  lemma SmallMapEntries()
    ensures SerializeEntries(SmallMap().entries, SmallMapType()) == Ok([[0], [1]])
  {
    var t := SmallMapType();
    WriteByte(0);
    WriteByte(1);
    assert Serialize(IntV(0), t.key) == Ok([0]) && Serialize(IntV(1), t.key) == Ok([1]);
    assert Serialize(NoneV, t.value) == Ok([]);
    var k0: seq<byte>, k1: seq<byte>, none: seq<byte> := [0], [1], [];
    assert k0 + none == k0 && k1 + none == k1;
    EntriesCons((IntV(1), NoneV), [], t, k1, none, []);
    assert [(IntV(1), NoneV)] + [] == [(IntV(1), NoneV)] && [k1 + none] + [] == [k1];
    EntriesCons((IntV(0), NoneV), [(IntV(1), NoneV)], t, k0, none, [k1]);
    assert [(IntV(0), NoneV)] + [(IntV(1), NoneV)] == SmallMap().entries;
    assert [k0] + [k1] == [[0], [1]];
  }

  /** The sorted key images, joined. */
  lemma SmallMapBody()
    ensures Concat(Sort([[0], [1]])) == [0, 1]
  {
    var images: seq<seq<byte>> := [[0], [1]];
    assert Sorted(images) by {
      assert !Less([1], [0]);
    }
    SortCanonical(images, images);
    var last: seq<seq<byte>> := [[1]];
    assert images[1..] == last && |last[1..]| == 0;
  }

  /** `serialize` writes the length 2 and the keys 0 and 1. */
  lemma SmallMapSerializes()
    ensures Serialize(SmallMap(), SmallMapType()) == Ok([2, 0, 1])
  {
    SmallMapEntries();
    SmallMapBody();
    assert Uleb128.Encode(2) == [2];
    assert [2] + [0, 1] == [2, 0, 1];
  }

  /** Cutting keys by the length read, the dict reads back. */
  lemma SmallMapReads()
    ensures Deserialize([2, 0, 1], SmallMapType()) == Ok((SmallMap(), []))
  {
    var t := SmallMapType();
    assert Uleb128.Encode(2) == [2];
    LengthRoundTrip(2, [0, 1]);
    ReadByte(0, [1], Counted);
    ReadByte(1, [], Counted);
    assert [1] + [] == [1];
    assert KeySlice(Counted, [0, 1], [1]) == [0] && KeySlice(Counted, [1], []) == [1];
    assert Less([0], [1]);
    assert Put([(IntV(0), NoneV)], IntV(1), NoneV) == SmallMap().entries;
    assert ReadEntries([1], t, 1, Some([0]), [(IntV(0), NoneV)], Counted) == Ok((SmallMap().entries, []));
    assert ReadEntries([0, 1], t, 2, None, [], Counted) == Ok((SmallMap().entries, []));
  }

  /** Cutting keys with `[:-len(content)]`, the same bytes are refused. */
  lemma SmallMapRefused()
    ensures DeserializeAsWritten([2, 0, 1], SmallMapType()) == Err(KeysOutOfOrder)
  {
    var t := SmallMapType();
    assert Uleb128.Encode(2) == [2];
    LengthRoundTrip(2, [0, 1]);
    ReadByte(0, [1], NegativeIndex);
    ReadByte(1, [], NegativeIndex);
    assert [1] + [] == [1];
    assert KeySlice(NegativeIndex, [0, 1], [1]) == [0] && KeySlice(NegativeIndex, [1], []) == [];
    assert !Less([0], []);
    assert ReadEntries([1], t, 1, Some([0]), [(IntV(0), NoneV)], NegativeIndex) == Err(KeysOutOfOrder);
    assert ReadEntries([0, 1], t, 2, None, [], NegativeIndex) == Err(KeysOutOfOrder);
  }

  /** The map decoder as written cuts each key out of
    * `previous_content[:-len(content)]`; when the key is the last thing in
    * the input, `[:-0]` is empty, so a well-formed dict whose last value
    * has no bytes is refused. Cutting by the length read decodes it. */
  lemma KeySliceAsWrittenRejects()
    ensures Serialize(SmallMap(), SmallMapType()) == Ok([2, 0, 1])
    ensures DeserializeAsWritten([2, 0, 1], SmallMapType()) == Err(KeysOutOfOrder)
    ensures Deserialize([2, 0, 1], SmallMapType()) == Ok((SmallMap(), []))
  {
    SmallMapSerializes();
    SmallMapRefused();
    SmallMapReads();
  }
}
