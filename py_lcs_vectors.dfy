/**
  * The dict vectors of the Python LCS runtime's map test: `{256: 3, 1: 5}`
  * as a `Dict[uint16, uint8]` is written with its keys in byte order, reads
  * back, and the same entries with the keys swapped are refused.
  */
module PyLcsVectors {
  import opened Wire
  import Uleb128
  import opened PyTypes
  import opened LexOrder
  import opened PyLcs
  import opened PyLcsRoundTrip
  import opened PyLcsFindings

  function TestMapType(): Type
  {
    MapOf(Int(W16, false), Int(W8, false))
  }

  /** Two bytes read low first. */
  lemma FromLEPair(lo: byte, hi: byte)
    ensures FromLE([lo, hi]) == lo + 256 * hi
  {
    var bs: seq<byte> := [lo, hi];
    assert FromLE([hi]) == hi by {
      assert [hi][1..] == [];
    }
    assert bs[1..] == [hi];
    assert FromLE(bs) == bs[0] + 256 * FromLE(bs[1..]);
  }

  /** Two bytes low first: the image of a `uint16`. */
  lemma WriteU16(lo: byte, hi: byte)
    ensures ToBytes(lo + 256 * hi, W16, false) == Ok([lo, hi])
  {
    var bs: seq<byte> := [lo, hi];
    var x := lo + 256 * hi;
    Pow2Values();
    FromLEPair(lo, hi);
    LEOfFromLE(bs);
    assert 0 <= x < 0x1_0000;
    assert Wrap(x, 16) == x;
  }

  /** `from_bytes` of two bytes, low first. */
  lemma ReadU16(lo: byte, hi: byte, rest: seq<byte>, cut: KeyCut)
    ensures Read([lo, hi] + rest, Int(W16, false), cut) == Ok((IntV(lo + 256 * hi), rest))
  {
    var bs: seq<byte> := [lo, hi];
    assert Split(bs + rest, 2) == (bs, rest);
    FromLEPair(lo, hi);
  }

  /** The entries of one dict item: its key's two bytes then its value's byte. */
  lemma EntryOf(lo: byte, hi: byte, b: byte)
    ensures SerializeEntries([(IntV(lo + 256 * hi), IntV(b))], TestMapType()) == Ok([[lo, hi, b]])
  {
    var t := TestMapType();
    WriteU16(lo, hi);
    WriteByte(b);
    assert SerializeEntries([], t) == Ok([]);
    EntriesCons((IntV(lo + 256 * hi), IntV(b)), [], t, [lo, hi], [b], []);
    assert [(IntV(lo + 256 * hi), IntV(b))] + [] == [(IntV(lo + 256 * hi), IntV(b))];
    assert [lo, hi] + [b] == [lo, hi, b];
    assert [[lo, hi, b]] + [] == [[lo, hi, b]];
  }

  /** Both items of the dict, in its insertion order. */
  lemma TestMapEntries()
    ensures SerializeEntries([(IntV(256), IntV(3)), (IntV(1), IntV(5))], TestMapType()) == Ok([[0, 1, 3], [1, 0, 5]])
  {
    var t := TestMapType();
    WriteU16(0, 1);
    WriteByte(3);
    EntryOf(1, 0, 5);
    EntriesCons((IntV(256), IntV(3)), [(IntV(1), IntV(5))], t, [0, 1], [3], [[1, 0, 5]]);
    assert [(IntV(256), IntV(3))] + [(IntV(1), IntV(5))] == [(IntV(256), IntV(3)), (IntV(1), IntV(5))];
    assert [0, 1] + [3] == [0, 1, 3];
    assert [[0, 1] + [3]] + [[1, 0, 5]] == [[0, 1, 3], [1, 0, 5]];
  }

  /** The item images are already in byte order, so sorting keeps them. */
  lemma TestMapBody()
    ensures Concat(Sort([[0, 1, 3], [1, 0, 5]])) == [0, 1, 3, 1, 0, 5]
  {
    var images: seq<seq<byte>> := [[0, 1, 3], [1, 0, 5]];
    assert Sorted(images) by {
      assert Less(images[0], images[1]);
      LessAsymmetric(images[0], images[1]);
    }
    SortCanonical(images, images);
    assert images[1..][1..] == [];
    assert Concat(images) == [0, 1, 3, 1, 0, 5];
  }

  /** `serialize({256: 3, 1: 5}, Dict[uint16, uint8])` is
    * `02 00 01 03 01 00 05`: the key 256 is written `00 01`, which sorts
    * before `01 00`, the key 1. */
  lemma TestMapSerializes()
    ensures Serialize(MapV([(IntV(256), IntV(3)), (IntV(1), IntV(5))]), TestMapType()) == Ok([2, 0, 1, 3, 1, 0, 5])
  {
    TestMapEntries();
    TestMapBody();
    assert Uleb128.Encode(2) == [2];
    assert [2] + [0, 1, 3, 1, 0, 5] == [2, 0, 1, 3, 1, 0, 5];
  }

  /** The second item of the read vector: key 1 above the key 256. */
  lemma TestMapSecondEntry(cut: KeyCut)
    ensures ReadEntries([1, 0, 5], TestMapType(), 1, Some([0, 1]), [(IntV(256), IntV(3))], cut)
            == Ok(([(IntV(256), IntV(3)), (IntV(1), IntV(5))], []))
  {
    ReadU16(1, 0, [5], cut);
    ReadByte(5, [], cut);
    assert [5] + [] == [5];
    assert KeySlice(cut, [1, 0, 5], [5]) == [1, 0];
    assert Less([0, 1], [1, 0]);
    assert Put([(IntV(256), IntV(3))], IntV(1), IntV(5)) == [(IntV(256), IntV(3)), (IntV(1), IntV(5))];
  }

  /** Both items of the read vector: the key 256 first, then the key 1. */
  lemma TestMapEntriesRead(cut: KeyCut)
    ensures ReadEntries([0, 1, 3, 1, 0, 5], TestMapType(), 2, None, [], cut)
            == Ok(([(IntV(256), IntV(3)), (IntV(1), IntV(5))], []))
  {
    var t := TestMapType();
    ReadU16(0, 1, [3, 1, 0, 5], cut);
    ReadByte(3, [1, 0, 5], cut);
    assert KeySlice(cut, [0, 1, 3, 1, 0, 5], [3, 1, 0, 5]) == [0, 1];
    assert Put([], IntV(256), IntV(3)) == [(IntV(256), IntV(3))];
    ReadEntriesCons([0, 1, 3, 1, 0, 5], t, 1, None, [], cut, IntV(256), [3, 1, 0, 5], IntV(3), [1, 0, 5]);
    TestMapSecondEntry(cut);
  }

  /** `deserialize(b"\x02\x00\x01\x03\x01\x00\x05", Dict[uint16, uint8])`
    * returns the dict, with the keys cut either way. */
  lemma TestMapReads(cut: KeyCut)
    ensures Read([2, 0, 1, 3, 1, 0, 5], TestMapType(), cut) == Ok((MapV([(IntV(256), IntV(3)), (IntV(1), IntV(5))]), []))
  {
    TestMapEntriesRead(cut);
    assert Uleb128.Encode(2) == [2];
    LengthRoundTrip(2, [0, 1, 3, 1, 0, 5]);
    ReadMapOf([2, 0, 1, 3, 1, 0, 5], TestMapType(), cut, 2, [0, 1, 3, 1, 0, 5],
              [(IntV(256), IntV(3)), (IntV(1), IntV(5))], []);
  }

  /** The second item of the refused vector: key 256 below the key 1. */
  lemma TestMapSecondKeyBelow(cut: KeyCut)
    ensures ReadEntries([0, 1, 3], TestMapType(), 1, Some([1, 0]), [(IntV(1), IntV(5))], cut) == Err(KeysOutOfOrder)
  {
    ReadU16(0, 1, [3], cut);
    ReadByte(3, [], cut);
    assert [3] + [] == [3];
    assert KeySlice(cut, [0, 1, 3], [3]) == [0, 1];
    assert !Less([1, 0], [0, 1]) by {
      assert Less([0, 1], [1, 0]);
      LessAsymmetric([0, 1], [1, 0]);
    }
  }

  /** Both items of the refused vector: the second key is below the first. */
  lemma TestMapEntriesRefused(cut: KeyCut)
    ensures ReadEntries([1, 0, 5, 0, 1, 3], TestMapType(), 2, None, [], cut) == Err(KeysOutOfOrder)
  {
    ReadU16(1, 0, [5, 0, 1, 3], cut);
    ReadByte(5, [0, 1, 3], cut);
    assert KeySlice(cut, [1, 0, 5, 0, 1, 3], [5, 0, 1, 3]) == [1, 0];
    assert Put([], IntV(1), IntV(5)) == [(IntV(1), IntV(5))];
    TestMapSecondKeyBelow(cut);
  }

  /** `deserialize(b"\x02\x01\x00\x05\x00\x01\x03", Dict[uint16, uint8])`
    * raises: the second key's bytes `00 01` are below the first's `01 00`.
    * Both key cuts agree, since a value byte follows each key. */
  lemma TestMapRefused(cut: KeyCut)
    ensures Read([2, 1, 0, 5, 0, 1, 3], TestMapType(), cut) == Err(KeysOutOfOrder)
  {
    TestMapEntriesRefused(cut);
    assert Uleb128.Encode(2) == [2];
    LengthRoundTrip(2, [1, 0, 5, 0, 1, 3]);
    ReadMapErr([2, 1, 0, 5, 0, 1, 3], TestMapType(), cut, 2, [1, 0, 5, 0, 1, 3], KeysOutOfOrder);
  }

  /** The test's refused vector is the swapped image of the dict, so it is
    * also an instance of `KeysOutOfOrderRefused`; the model of
    * `deserialize`, and the code as written, both raise on it. */
  lemma TestMapVectors()
    ensures Serialize(MapV([(IntV(256), IntV(3)), (IntV(1), IntV(5))]), TestMapType()) == Ok([2, 0, 1, 3, 1, 0, 5])
    ensures Deserialize([2, 0, 1, 3, 1, 0, 5], TestMapType()) == Ok((MapV([(IntV(256), IntV(3)), (IntV(1), IntV(5))]), []))
    ensures DeserializeAsWritten([2, 0, 1, 3, 1, 0, 5], TestMapType()) == Ok((MapV([(IntV(256), IntV(3)), (IntV(1), IntV(5))]), []))
    ensures Deserialize([2, 1, 0, 5, 0, 1, 3], TestMapType()) == Err(KeysOutOfOrder)
    ensures DeserializeAsWritten([2, 1, 0, 5, 0, 1, 3], TestMapType()) == Err(KeysOutOfOrder)
  {
    TestMapSerializes();
    TestMapReads(Counted);
    TestMapReads(NegativeIndex);
    TestMapRefused(Counted);
    TestMapRefused(NegativeIndex);
  }
}
