/**
  * The Java LCS runtime of the `com.novi.lcs` package. The serializer adds to
  * its base class the ULEB128 lengths and variant indices, the 2^31 - 1
  * length ceiling and the canonical map order; the deserializer reads them
  * back, refusing any accumulator outside [0, 2^31 - 1] (the `Guarded`
  * dialect). The `com.novi.serde` base classes are not part of this model:
  * the serializer keeps its own output, the deserializer its own input and
  * position.
  */
module JavaNoviLcs {
  import opened Wire
  import opened Uleb128
  import opened LexOrder
  import opened JavaCommon

  /** `MAX_LENGTH`, `Integer.MAX_VALUE`. */
  const MaxLength: int := MaxI32
  /** `MAX_CONTAINER_DEPTH`, handed to the base class. */
  const MaxContainerDepth: nat := 500

  class LcsSerializer {
    /** The output stream's content. */
    var bytes: seq<byte>
    /** The nesting budget given to the base class. */
    const maxContainerDepth: nat

    constructor ()
      ensures bytes == [] && maxContainerDepth == MaxContainerDepth
    {
      bytes := [];
      maxContainerDepth := MaxContainerDepth;
    }

    /** `serialize_f32` and `serialize_f64` throw and write nothing. */
    method SerializeUnsupported() returns (r: Result<()>)
      ensures r == Err(NotImplemented)
    {
      return Err(NotImplemented);
    }

    /** The `int`'s 32 bits, seven at a time with `>>>`, low first: a
      * negative `int` is written as its unsigned pattern. */
    method SerializeU32AsUleb128(value: int)
      requires IsSigned(value, 32)
      modifies this
      ensures bytes == old(bytes) + Encode(Wrap(value, 32))
    {
      var v := Wrap(value, 32);
      while v >= 0x80
        invariant bytes + Encode(v) == old(bytes) + Encode(Wrap(value, 32))
        decreases v
      {
        bytes := bytes + [v % 0x80 + 0x80];
        v := v / 0x80;
      }
      bytes := bytes + [v];
    }

    /** A `long` length outside [0, 2^31 - 1] throws and writes nothing. */
    method SerializeLen(value: int) returns (r: Result<()>)
      requires IsSigned(value, 64)
      modifies this
      ensures (value < 0 || value > MaxLength) ==> r == Err(IncorrectLength) && bytes == old(bytes)
      ensures 0 <= value <= MaxLength ==> r == Ok(()) && bytes == old(bytes) + Encode(value)
    {
      if value < 0 || value > MaxLength {
        return Err(IncorrectLength);
      }
      Int32Bounds();
      SerializeU32AsUleb128(value);
      return Ok(());
    }

    method SerializeVariantIndex(value: int)
      requires IsSigned(value, 32)
      modifies this
      ensures bytes == old(bytes) + Encode(Wrap(value, 32))
    {
      SerializeU32AsUleb128(value);
    }

    /** The entries that start at `offsets` and run to the end of the output
      * are put in lexicographic order of their bytes; at most one entry is
      * left alone. */
    method SortMapEntries(offsets: seq<nat>)
      requires ValidCuts(offsets, |bytes|)
      modifies this
      ensures bytes == SortLastEntries(old(bytes), offsets)
    {
      bytes := RewriteSorted(bytes, offsets);
    }
  }

  class LcsDeserializer {
    /** The input array. */
    const input: seq<byte>
    /** The bytes consumed so far. */
    var pos: nat

    constructor (bytes: seq<byte>)
      ensures input == bytes && pos == 0
    {
      input := bytes;
      pos := 0;
    }

    /** The base class's `getByte`: the next byte, or an error that leaves
      * the position where it was. */
    method GetByte() returns (r: Result<byte>)
      modifies this
      ensures r.Ok? <==> old(pos) < |input|
      ensures r.Ok? ==> r.value == input[old(pos)] && pos == old(pos) + 1
      ensures r.Err? ==> r.error == TruncatedInput && pos == old(pos)
    {
      if pos >= |input| {
        return Err(TruncatedInput);
      }
      r := Ok(input[pos]);
      pos := pos + 1;
    }

    /** Up to five digits, low first; `digit << shift` is an `int`,
      * sign-extended into the `long` accumulator, and an accumulator that is
      * negative or above 2^31 - 1 throws. */
    method DeserializeUleb128AsU32() returns (r: Result<nat>)
      modifies this
      ensures Reports(r, Decode(Guarded, input, old(pos)))
      ensures r.Ok? ==> r.value <= MaxI32 && pos == Decode(Guarded, input, old(pos)).value.1
    {
      ghost var out := Decode(Guarded, input, pos);
      var value: nat := 0;
      var shift := 0;
      while shift < 32
        invariant shift % 7 == 0 && shift <= 35 && value < Weight(shift) && value <= MaxI32
        invariant Loop(Guarded, input, pos, shift, value) == out
        decreases 32 - shift
      {
        ReadStep(Guarded, input, pos, shift, value, out);
        var x :- GetByte();
        var digit := x % 0x80;
        var acc := value + Int32Of(digit * Weight(shift));
        JavaStep(true, input, pos - 1, shift, value, out, x, acc);
        if acc < 0 || acc > MaxI32 {
          return Err(VarintOverflow);
        }
        value := acc;
        if digit == x {
          if shift > 0 && digit == 0 {
            return Err(NonCanonicalVarint);
          }
          return Ok(value);
        }
        shift := shift + 7;
      }
      ReadEnd(Guarded, input, pos, shift, value, out);
      return Err(VarintOverflow);
    }

    method DeserializeLen() returns (r: Result<nat>)
      modifies this
      ensures Reports(r, Decode(Guarded, input, old(pos)))
      ensures r.Ok? ==> r.value <= MaxI32 && pos == Decode(Guarded, input, old(pos)).value.1
    {
      r := DeserializeUleb128AsU32();
    }

    method DeserializeVariantIndex() returns (r: Result<nat>)
      modifies this
      ensures Reports(r, Decode(Guarded, input, old(pos)))
      ensures r.Ok? ==> r.value <= MaxI32 && pos == Decode(Guarded, input, old(pos)).value.1
    {
      r := DeserializeUleb128AsU32();
    }

    /** `compare_bytes(...) >= 0` throws: keys must strictly increase. */
    method CheckThatKeySlicesAreIncreasing(key1: (nat, nat), key2: (nat, nat)) returns (r: Result<()>)
      requires key1.0 <= key1.1 <= |input| && key2.0 <= key2.1 <= |input|
      ensures r.Ok? <==> KeysIncreasing(input, key1, key2)
      ensures r.Err? ==> r.error == KeysOutOfOrder
    {
      if !Less(input[key1.0..key1.1], input[key2.0..key2.1]) {
        return Err(KeysOutOfOrder);
      }
      return Ok(());
    }
  }

  /** Every length the serializer accepts reads back, and the read stops
    * right after its encoding. */
  lemma LenRoundTrip(value: nat, input: seq<byte>, pos: nat)
    requires value <= MaxLength && At(Encode(value), input, pos)
    ensures Decode(Guarded, input, pos) == Ok((value, pos + |Encode(value)|))
  {
    Int32Bounds();
    assert Wrap(value, 32) == value;
    Int32ShiftRoundTrip(true, value, input, pos);
  }

  /** A variant index written from a negative `int` is refused on reading;
    * every other one reads back. */
  lemma VariantIndexRoundTrip(value: int, input: seq<byte>, pos: nat)
    requires IsSigned(value, 32) && At(Encode(Wrap(value, 32)), input, pos)
    ensures value < 0 ==> Decode(Guarded, input, pos) == Err(VarintOverflow)
    ensures value >= 0 ==> Decode(Guarded, input, pos) == Ok((value, pos + |Encode(Wrap(value, 32))|))
  {
    Int32ShiftRoundTrip(true, value, input, pos);
  }
}
