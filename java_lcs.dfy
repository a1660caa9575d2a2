/**
  * The Java LCS runtime of the `lcs` package. The serializer extends
  * `serde.BinarySerializer` (not part of this model; its output is kept here
  * as `bytes`) with ULEB128 lengths and variant indices and the canonical map
  * order, and casts a `long` length to `int` without a check. The
  * deserializer stands alone: a little-endian `java.nio.ByteBuffer` whose
  * relative reads take every byte they need or throw without moving, and a
  * ULEB128 reader of the `Unguarded` dialect.
  */
module JavaLcs {
  import opened Wire
  import opened Uleb128
  import opened LexOrder
  import opened JavaCommon

  /** The `(int)` cast of a `long`: its low 32 bits as a two's complement
    * `int`. */
  lemma IntCast(v: int)
    ensures IsSigned(Int32Of(v), 32) && Wrap(Int32Of(v), 32) == Wrap(v, 32)
  {
    Int32Bounds();
    assert Int32Of(v) == ToSigned(Wrap(v, 32), 32);
    WrapSigned(Wrap(v, 32), 32);
  }

  class LcsSerializer {
    /** The output stream's content. */
    var bytes: seq<byte>

    constructor ()
      ensures bytes == []
    {
      bytes := [];
    }

    /** The `int`'s 32 bits, seven at a time with `>>>`, low first. */
    method SerializeU32AsUleb128(value: int)
      requires IsSigned(value, 32)
      modifies this
      ensures bytes == old(bytes) + Encode(Wrap(value, 32))
    {
      var v := Wrap(value, 32);
      while v >= 0x80
        invariant bytes + Encode(v) == old(bytes) + Encode(Wrap(value, 32))
        decreases v
      {
        bytes := bytes + [v % 0x80 + 0x80];
        v := v / 0x80;
      }
      bytes := bytes + [v];
    }

    /** The `long` length is cast to `int`: only its low 32 bits are
      * written, whatever its size. */
    method SerializeLen(value: int)
      requires IsSigned(value, 64)
      modifies this
      ensures bytes == old(bytes) + Encode(Wrap(value, 32))
      ensures 0 <= value <= MaxU32 ==> bytes == old(bytes) + Encode(value)
    {
      IntCast(value);
      Int32Bounds();
      if 0 <= value <= MaxU32 {
        DivModUnique(value, 0x1_0000_0000, 0, value);
      }
      SerializeU32AsUleb128(Int32Of(value));
    }

    method SerializeVariantIndex(value: int)
      requires IsSigned(value, 32)
      modifies this
      ensures bytes == old(bytes) + Encode(Wrap(value, 32))
    {
      SerializeU32AsUleb128(value);
    }

    /** The entries that start at `offsets` and run to the end of the output
      * are put in lexicographic order of their bytes. */
    method SortMapEntries(offsets: seq<nat>)
      requires ValidCuts(offsets, |bytes|)
      modifies this
      ensures bytes == SortLastEntries(old(bytes), offsets)
    {
      bytes := RewriteSorted(bytes, offsets);
    }
  }

  /** A length of 2^32 is written as the encoding of 0. */
  lemma LenTruncates()
    ensures Encode(Wrap(0x1_0000_0000, 32)) == [0]
  {
    Int32Bounds();
  }

  class LcsDeserializer {
    /** The array the buffer wraps. */
    const input: seq<byte>
    /** The buffer's position. */
    var pos: nat

    constructor (bytes: seq<byte>)
      ensures input == bytes && pos == 0
    {
      input := bytes;
      pos := 0;
    }

    /** `input.get()`. */
    method GetByte() returns (r: Result<byte>)
      modifies this
      ensures r.Ok? <==> old(pos) < |input|
      ensures r.Ok? ==> r.value == input[old(pos)] && pos == old(pos) + 1
      ensures r.Err? ==> r.error == TruncatedInput && pos == old(pos)
    {
      if pos >= |input| {
        return Err(TruncatedInput);
      }
      r := Ok(input[pos]);
      pos := pos + 1;
    }

    /** `input.get(content)` for an array of `n` bytes. */
    method Get(n: nat) returns (r: Result<seq<byte>>)
      modifies this
      ensures Matches(r, Take(input, old(pos), n), pos)
      ensures r.Err? ==> pos == old(pos)
    {
      if pos + n > |input| {
        return Err(TruncatedInput);
      }
      r := Ok(input[pos..pos + n]);
      pos := pos + n;
    }

    /** `get`, `getShort`, `getInt` and `getLong`. */
    method GetSigned(n: nat) returns (r: Result<int>)
      requires n > 0
      modifies this
      ensures Matches(r, SignedFixed(input, old(pos), n), pos)
      ensures r.Err? ==> pos == old(pos)
    {
      var bs :- Get(n);
      return Ok(ToSigned(FromLE(bs), 8 * n));
    }

    /** Up to five digits, low first; `digit << shift` is an `int`,
      * sign-extended into the `long` accumulator, and only an accumulator
      * above 2^31 - 1 throws. */
    method DeserializeUleb128AsU32() returns (r: Result<int>)
      modifies this
      ensures r == ValueOf(Decode(Unguarded, input, old(pos)))
      ensures r.Ok? ==> pos == Decode(Unguarded, input, old(pos)).value.1
    {
      ghost var out := Decode(Unguarded, input, pos);
      var value: int := 0;
      var shift := 0;
      while shift < 32
        invariant shift % 7 == 0 && shift <= 35
        invariant Loop(Unguarded, input, pos, shift, value) == out
        decreases 32 - shift
      {
        ReadStep(Unguarded, input, pos, shift, value, out);
        var x :- GetByte();
        var digit := x % 0x80;
        var acc := value + Int32Of(digit * Weight(shift));
        JavaStep(false, input, pos - 1, shift, value, out, x, acc);
        value := acc;
        if value > MaxI32 {
          return Err(VarintOverflow);
        }
        if digit == x {
          if shift > 0 && digit == 0 {
            return Err(NonCanonicalVarint);
          }
          return Ok(value);
        }
        shift := shift + 7;
      }
      ReadEnd(Unguarded, input, pos, shift, value, out);
      return Err(VarintOverflow);
    }

    method DeserializeLen() returns (r: Result<int>)
      modifies this
      ensures r == ValueOf(Decode(Unguarded, input, old(pos)))
      ensures r.Ok? ==> pos == Decode(Unguarded, input, old(pos)).value.1
    {
      r := DeserializeUleb128AsU32();
    }

    method DeserializeVariantIndex() returns (r: Result<int>)
      modifies this
      ensures r == ValueOf(Decode(Unguarded, input, old(pos)))
      ensures r.Ok? ==> pos == Decode(Unguarded, input, old(pos)).value.1
    {
      r := DeserializeUleb128AsU32();
    }

    /** A length outside [0, 2^31 - 1] throws; otherwise that many bytes are
      * taken whole. */
    method DeserializeBytes() returns (r: Result<seq<byte>>)
      modifies this
      ensures Matches(r, LcsBytes(Unguarded, input, old(pos)), pos)
    {
      var len :- DeserializeLen();
      if len < 0 || len > MaxI32 {
        return Err(LengthTooLarge);
      }
      r := Get(len);
    }

    /** `new String(bytes)`: the bytes themselves (the charset decoding is
      * not modelled). */
    method DeserializeStr() returns (r: Result<seq<byte>>)
      modifies this
      ensures Matches(r, LcsBytes(Unguarded, input, old(pos)), pos)
    {
      r := DeserializeBytes();
    }

    /** Only 0 and 1 are booleans. */
    method DeserializeBool() returns (r: Result<bool>)
      modifies this
      ensures Matches(r, ReadBool(input, old(pos), Strict), pos)
    {
      var value :- GetByte();
      if value == 0 {
        return Ok(false);
      }
      if value == 1 {
        return Ok(true);
      }
      return Err(InvalidBool);
    }

    /** char, f32 and f64 throw. */
    method DeserializeUnsupported() returns (r: Result<()>)
      ensures r == Err(NotImplemented)
    {
      return Err(NotImplemented);
    }

    /** The unsigned readers return the signed Java value of the same bits
      * (see JavaCommon.SignedCarrier). */
    method DeserializeU8() returns (r: Result<int>)
      modifies this
      ensures Matches(r, SignedFixed(input, old(pos), 1), pos)
    {
      r := GetSigned(1);
    }

    method DeserializeU16() returns (r: Result<int>)
      modifies this
      ensures Matches(r, SignedFixed(input, old(pos), 2), pos)
    {
      r := GetSigned(2);
    }

    method DeserializeU32() returns (r: Result<int>)
      modifies this
      ensures Matches(r, SignedFixed(input, old(pos), 4), pos)
    {
      r := GetSigned(4);
    }

    method DeserializeU64() returns (r: Result<int>)
      modifies this
      ensures Matches(r, SignedFixed(input, old(pos), 8), pos)
    {
      r := GetSigned(8);
    }

    /** A negative `i128` reading is moved up by 2^128. */
    method DeserializeU128() returns (r: Result<nat>)
      modifies this
      ensures Matches(r, Fixed(input, old(pos), 16), pos)
    {
      ghost var start := pos;
      var signed :- DeserializeI128();
      UnsignedOfSigned128(input, start);
      if signed >= 0 {
        return Ok(signed);
      }
      return Ok(signed + Pow2(128));
    }

    method DeserializeI8() returns (r: Result<int>)
      modifies this
      ensures Matches(r, SignedFixed(input, old(pos), 1), pos)
    {
      r := GetSigned(1);
    }

    method DeserializeI16() returns (r: Result<int>)
      modifies this
      ensures Matches(r, SignedFixed(input, old(pos), 2), pos)
    {
      r := GetSigned(2);
    }

    method DeserializeI32() returns (r: Result<int>)
      modifies this
      ensures Matches(r, SignedFixed(input, old(pos), 4), pos)
    {
      r := GetSigned(4);
    }

    method DeserializeI64() returns (r: Result<int>)
      modifies this
      ensures Matches(r, SignedFixed(input, old(pos), 8), pos)
    {
      r := GetSigned(8);
    }

    /** Sixteen bytes, reversed into big-endian order for the `BigInteger`
      * constructor. */
    method DeserializeI128() returns (r: Result<int>)
      modifies this
      ensures Matches(r, SignedFixed(input, old(pos), 16), pos)
    {
      ghost var start := pos;
      var content :- Get(16);
      assert content == input[start..start + 16];
      var reversed := new byte[16];
      for i := 0 to 16
        invariant pos == start + 16
        invariant forall j :: 0 <= j < i ==> reversed[j] == content[15 - j]
      {
        reversed[i] := content[15 - i];
      }
      assert reversed[..] == Reverse(content);
      FromBEReverse(content);
      return Ok(BigIntegerOf(reversed[..]));
    }

    method DeserializeOptionTag() returns (r: Result<bool>)
      modifies this
      ensures Matches(r, ReadBool(input, old(pos), Strict), pos)
    {
      r := DeserializeBool();
    }

    /** The buffer's position: the bytes consumed so far. */
    method GetBufferOffset() returns (r: nat)
      ensures r == pos
    {
      return pos;
    }

    /** `compare_bytes(...) >= 0` throws: keys must strictly increase. */
    method CheckThatKeySlicesAreIncreasing(key1: (nat, nat), key2: (nat, nat)) returns (r: Result<()>)
      requires key1.0 <= key1.1 <= |input| && key2.0 <= key2.1 <= |input|
      ensures r.Ok? <==> KeysIncreasing(input, key1, key2)
      ensures r.Err? ==> r.error == KeysOutOfOrder
    {
      if !Less(input[key1.0..key1.1], input[key2.0..key2.1]) {
        return Err(KeysOutOfOrder);
      }
      return Ok(());
    }
  }

  /** What the serializer writes for a length below 2^31 the deserializer
    * reads back whole. */
  lemma BytesRoundTrip(prefix: seq<byte>, s: seq<byte>, rest: seq<byte>)
    requires |s| <= MaxI32
    ensures LcsBytes(Unguarded, prefix + Encode(|s|) + s + rest, |prefix|) ==
      Ok((s, |prefix| + |Encode(|s|)| + |s|))
  {
    LcsBytesOfWritten(Unguarded, prefix, s, rest);
  }
}
