/**
  * The C++ BCS runtime: `BcsSerializer` and `BcsDeserializer`, the parts
  * that differ from the shared binary base (`binary.hpp`, not part of this
  * model): ULEB128 lengths and variant indices, the BCS length ceiling, the
  * canonical map layout and the strict key order.
  */
module CppBcs {
  import opened Wire
  import opened Uleb128
  import opened LexOrder

  /** `BCS_MAX_LENGTH`: 2^31 - 1. */
  const MaxLength: nat := 0x7FFF_FFFF
  /** `BCS_MAX_CONTAINER_DEPTH`. */
  const MaxContainerDepth: nat := 500

  /** The decoder dialect: a 64-bit accumulator checked against 2^32 - 1. */
  const Varint: Dialect := Wide(MaxU32)

  class BcsSerializer {
    /** `bytes_`, the output written so far. */
    var bytes: seq<byte>
    /** The depth limit handed to the base class. */
    const maxContainerDepth: nat

    constructor ()
      ensures bytes == [] && maxContainerDepth == MaxContainerDepth
    {
      bytes := [];
      maxContainerDepth := MaxContainerDepth;
    }

    /** Seven bits at a time, low digit first; `(value & 0x7F) | 0x80` is
      * `value % 0x80 + 0x80` and `value >> 7` is `value / 0x80`. */
    method SerializeU32AsUleb128(value: nat)
      requires value <= MaxU32
      modifies this
      ensures bytes == old(bytes) + Encode(value)
    {
      var v := value;
      while v >= 0x80
        invariant bytes + Encode(v) == old(bytes) + Encode(value)
        decreases v
      {
        bytes := bytes + [v % 0x80 + 0x80];
        v := v / 0x80;
      }
      bytes := bytes + [v];
    }

    /** Lengths above the ceiling throw and write nothing. */
    method SerializeLen(value: nat) returns (r: Result<()>)
      modifies this
      ensures value > MaxLength ==> r == Err(LengthTooLarge) && bytes == old(bytes)
      ensures value <= MaxLength ==> r == Ok(()) && bytes == old(bytes) + Encode(value)
    {
      if value > MaxLength {
        return Err(LengthTooLarge);
      }
      SerializeU32AsUleb128(value);
      return Ok(());
    }

    method SerializeVariantIndex(value: nat)
      requires value <= MaxU32
      modifies this
      ensures bytes == old(bytes) + Encode(value)
    {
      SerializeU32AsUleb128(value);
    }

    /** Rewrites the entries recorded at `offsets` (the last one running to
      * the end of the buffer) in lexicographic order. */
    method SortLastEntries(offsets: seq<nat>)
      requires ValidCuts(offsets, |bytes|)
      modifies this
      ensures bytes == LexOrder.SortLastEntries(old(bytes), offsets)
    {
      bytes := RewriteSorted(bytes, offsets);
    }
  }

  class BcsDeserializer {
    /** `bytes_`, the whole input. */
    const input: seq<byte>
    /** The read position. */
    var pos: nat
    const maxContainerDepth: nat

    constructor (bytes: seq<byte>)
      ensures input == bytes && pos == 0 && maxContainerDepth == MaxContainerDepth
    {
      input := bytes;
      pos := 0;
      maxContainerDepth := MaxContainerDepth;
    }

    /** The base class's `read_byte`: the next byte, or an error at the end
      * of the input. */
    method ReadByte() returns (r: Result<byte>)
      modifies this
      ensures r.Ok? <==> old(pos) < |input|
      ensures r.Ok? ==> r.value == input[old(pos)] && pos == old(pos) + 1
      ensures r.Err? ==> r.error == TruncatedInput
    {
      if pos >= |input| {
        return Err(TruncatedInput);
      }
      r := Ok(input[pos]);
      pos := pos + 1;
    }

    /** Up to five digits, low first, into a 64-bit accumulator; `value |=
      * digit << shift` adds, because the accumulator stays below 2^shift. */
    method DeserializeUleb128AsU32() returns (r: Result<nat>)
      modifies this
      ensures Reports(r, Decode(Varint, input, old(pos)))
      ensures r.Ok? ==> pos == Decode(Varint, input, old(pos)).value.1
    {
      ghost var out := Decode(Varint, input, pos);
      var value: nat := 0;
      var shift := 0;
      while shift < 32
        invariant shift % 7 == 0 && shift <= 35 && value < Weight(shift)
        invariant Loop(Varint, input, pos, shift, value) == out
        decreases 32 - shift
      {
        ReadStep(Varint, input, pos, shift, value, out);
        var b :- ReadByte();
        var digit := b % 0x80;
        DigitStep(Varint, input, pos - 1, shift, value, out, value + digit * Weight(shift));
        value := value + digit * Weight(shift);
        if value > MaxU32 {
          return Err(VarintOverflow);
        }
        if digit == b {
          if shift > 0 && digit == 0 {
            return Err(NonCanonicalVarint);
          }
          return Ok(value);
        }
        shift := shift + 7;
      }
      ReadEnd(Varint, input, pos, shift, value, out);
      return Err(VarintOverflow);
    }

    method DeserializeLen() returns (r: Result<nat>)
      modifies this
      ensures var d := Decode(Varint, input, old(pos));
        if d.Ok? && d.value.0 > MaxLength then r == Err(LengthTooLarge) else Reports(r, d)
      ensures r.Ok? ==> pos == Decode(Varint, input, old(pos)).value.1
    {
      r := DeserializeUleb128AsU32();
      if r.Ok? && r.value > MaxLength {
        return Err(LengthTooLarge);
      }
    }

    method DeserializeVariantIndex() returns (r: Result<nat>)
      modifies this
      ensures Reports(r, Decode(Varint, input, old(pos)))
      ensures r.Ok? ==> pos == Decode(Varint, input, old(pos)).value.1
    {
      r := DeserializeUleb128AsU32();
    }

    /** Keys are (start, end) offsets into the input; the first must be
      * strictly below the second. */
    method CheckThatKeySlicesAreIncreasing(key1: (nat, nat), key2: (nat, nat)) returns (r: Result<()>)
      requires key1.0 <= key1.1 <= |input| && key2.0 <= key2.1 <= |input|
      ensures r.Ok? <==> Less(input[key1.0..key1.1], input[key2.0..key2.1])
      ensures r.Err? ==> r.error == KeysOutOfOrder
    {
      if !Less(input[key1.0..key1.1], input[key2.0..key2.1]) {
        return Err(KeysOutOfOrder);
      }
      return Ok(());
    }
  }
}
