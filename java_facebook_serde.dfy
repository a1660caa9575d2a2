/**
  * The Java base deserializer of the `com.facebook.serde` package
  * (`BinaryDeserializer.java`): a little-endian `java.nio.ByteBuffer` over
  * the input. The buffer's relative reads either take every byte they need
  * or throw `BufferUnderflowException` without moving. Lengths come from the
  * subclass's `deserialize_len`, which is passed in here as its outcome.
  */
module JavaFacebookSerde {
  import opened Wire
  import opened Uleb128
  import opened JavaCommon

  class BinaryDeserializer {
    /** The array the buffer wraps. */
    const input: seq<byte>
    /** The buffer's position. */
    var pos: nat

    constructor (bytes: seq<byte>)
      ensures input == bytes && pos == 0
    {
      input := bytes;
      pos := 0;
    }

    /** `input.get()`: the next byte, or an underflow that leaves the
      * position where it was. */
    method GetByte() returns (r: Result<byte>)
      modifies this
      ensures r.Ok? <==> old(pos) < |input|
      ensures r.Ok? ==> r.value == input[old(pos)] && pos == old(pos) + 1
      ensures r.Err? ==> r.error == TruncatedInput && pos == old(pos)
    {
      if pos >= |input| {
        return Err(TruncatedInput);
      }
      r := Ok(input[pos]);
      pos := pos + 1;
    }

    /** `input.get(content)` for an array of `n` bytes. */
    method Get(n: nat) returns (r: Result<seq<byte>>)
      modifies this
      ensures Matches(r, Take(input, old(pos), n), pos)
      ensures r.Err? ==> pos == old(pos)
    {
      if pos + n > |input| {
        return Err(TruncatedInput);
      }
      r := Ok(input[pos..pos + n]);
      pos := pos + n;
    }

    /** `get`, `getShort`, `getInt` and `getLong`: `n` bytes, low first, as a
      * signed Java integer of `8 * n` bits. */
    method GetSigned(n: nat) returns (r: Result<int>)
      requires n > 0
      modifies this
      ensures Matches(r, SignedFixed(input, old(pos), n), pos)
      ensures r.Err? ==> pos == old(pos)
    {
      var bs :- Get(n);
      return Ok(ToSigned(FromLE(bs), 8 * n));
    }

    /** `len` is the outcome of the subclass's `deserialize_len`. A length
      * outside [0, 2^31 - 1] is refused before anything is read; otherwise
      * that many bytes are taken whole. */
    method DeserializeBytes(len: Result<int>) returns (r: Result<seq<byte>>)
      modifies this
      ensures len.Err? ==> r == Err(len.error) && pos == old(pos)
      ensures len.Ok? && (len.value < 0 || len.value > MaxI32) ==> r == Err(LengthTooLarge) && pos == old(pos)
      ensures len.Ok? && 0 <= len.value <= MaxI32 ==> Matches(r, Take(input, old(pos), len.value), pos)
    {
      var n :- len;
      if n < 0 || n > MaxI32 {
        return Err(LengthTooLarge);
      }
      r := Get(n);
    }

    /** `new String(bytes)`: the bytes themselves (the charset decoding is
      * not modelled). */
    method DeserializeStr(len: Result<int>) returns (r: Result<seq<byte>>)
      modifies this
      ensures len.Err? ==> r == Err(len.error) && pos == old(pos)
      ensures len.Ok? && (len.value < 0 || len.value > MaxI32) ==> r == Err(LengthTooLarge) && pos == old(pos)
      ensures len.Ok? && 0 <= len.value <= MaxI32 ==> Matches(r, Take(input, old(pos), len.value), pos)
    {
      r := DeserializeBytes(len);
    }

    /** Only 0 and 1 are booleans. */
    method DeserializeBool() returns (r: Result<bool>)
      modifies this
      ensures Matches(r, ReadBool(input, old(pos), Strict), pos)
    {
      var value :- GetByte();
      if value == 0 {
        return Ok(false);
      }
      if value == 1 {
        return Ok(true);
      }
      return Err(InvalidBool);
    }

    /** char, f32 and f64 throw. */
    method DeserializeUnsupported() returns (r: Result<()>)
      ensures r == Err(NotImplemented)
    {
      return Err(NotImplemented);
    }

    /** The unsigned readers return the signed Java value of the same bits
      * (see JavaCommon.SignedCarrier). */
    method DeserializeU8() returns (r: Result<int>)
      modifies this
      ensures Matches(r, SignedFixed(input, old(pos), 1), pos)
    {
      r := GetSigned(1);
    }

    method DeserializeU16() returns (r: Result<int>)
      modifies this
      ensures Matches(r, SignedFixed(input, old(pos), 2), pos)
    {
      r := GetSigned(2);
    }

    method DeserializeU32() returns (r: Result<int>)
      modifies this
      ensures Matches(r, SignedFixed(input, old(pos), 4), pos)
    {
      r := GetSigned(4);
    }

    method DeserializeU64() returns (r: Result<int>)
      modifies this
      ensures Matches(r, SignedFixed(input, old(pos), 8), pos)
    {
      r := GetSigned(8);
    }

    /** A negative `i128` reading is moved up by 2^128: the unsigned value of
      * the 16 bytes. */
    method DeserializeU128() returns (r: Result<nat>)
      modifies this
      ensures Matches(r, Fixed(input, old(pos), 16), pos)
    {
      ghost var start := pos;
      var signed :- DeserializeI128();
      UnsignedOfSigned128(input, start);
      if signed >= 0 {
        return Ok(signed);
      }
      return Ok(signed + Pow2(128));
    }

    method DeserializeI8() returns (r: Result<int>)
      modifies this
      ensures Matches(r, SignedFixed(input, old(pos), 1), pos)
    {
      r := GetSigned(1);
    }

    method DeserializeI16() returns (r: Result<int>)
      modifies this
      ensures Matches(r, SignedFixed(input, old(pos), 2), pos)
    {
      r := GetSigned(2);
    }

    method DeserializeI32() returns (r: Result<int>)
      modifies this
      ensures Matches(r, SignedFixed(input, old(pos), 4), pos)
    {
      r := GetSigned(4);
    }

    method DeserializeI64() returns (r: Result<int>)
      modifies this
      ensures Matches(r, SignedFixed(input, old(pos), 8), pos)
    {
      r := GetSigned(8);
    }

    /** Sixteen bytes, reversed into big-endian order for the `BigInteger`
      * constructor: the 128-bit two's complement value, low byte first. */
    method DeserializeI128() returns (r: Result<int>)
      modifies this
      ensures Matches(r, SignedFixed(input, old(pos), 16), pos)
    {
      ghost var start := pos;
      var content :- Get(16);
      assert content == input[start..start + 16];
      var reversed := new byte[16];
      for i := 0 to 16
        invariant pos == start + 16
        invariant forall j :: 0 <= j < i ==> reversed[j] == content[15 - j]
      {
        reversed[i] := content[15 - i];
      }
      assert reversed[..] == Reverse(content);
      FromBEReverse(content);
      return Ok(BigIntegerOf(reversed[..]));
    }

    method DeserializeOptionTag() returns (r: Result<bool>)
      modifies this
      ensures Matches(r, ReadBool(input, old(pos), Strict), pos)
    {
      r := DeserializeBool();
    }

    /** The buffer's position: the bytes consumed so far. */
    method GetBufferOffset() returns (r: nat)
      ensures r == pos
    {
      return pos;
    }
  }
}
