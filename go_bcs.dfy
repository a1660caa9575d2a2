/**
  * The Go BCS deserializer (`bcs/deserializer.go`). It embeds the binary
  * base deserializer, modelled here as the `base` it reads through, and
  * adds the ULEB128 lengths and variant indices, the BCS length ceiling and
  * the strict key order.
  */
module GoBcs {
  import opened Wire
  import opened Uleb128
  import opened LexOrder
  import GoSerde

  /** `MaxSequenceLength`: 2^31 - 1. */
  const MaxSequenceLength: nat := 0x7FFF_FFFF
  /** `MaxContainerDepth`. */
  const MaxContainerDepth: nat := 500

  /** A 64-bit accumulator checked against `maxUint32`. */
  const Varint: Dialect := Wide(MaxU32)

  /** A byte run behind a checked ULEB128 length, read as the base's
    * `Buffer.Read` does. */
  function Bytes(input: seq<byte>, pos: nat): Result<(seq<byte>, nat)>
  {
    var (n, next) :- DecodeLength(Varint, input, pos, MaxSequenceLength);
    GoSerde.ReadPadded(input, next, n)
  }

  /** What a BCS serializer writes for a byte run reads back whole. */
  lemma BytesOfWritten(prefix: seq<byte>, s: seq<byte>, rest: seq<byte>)
    requires |s| <= MaxSequenceLength
    ensures Bytes(prefix + Encode(|s|) + s + rest, |prefix|) == Ok((s, |prefix| + |Encode(|s|)| + |s|))
  {
    var input := prefix + Encode(|s|) + s + rest;
    var at := |prefix| + |Encode(|s|)|;
    assert input == prefix + Encode(|s|) + (s + rest);
    DecodeEncode(Varint, |s|, input, |prefix|);
    assert input == (prefix + Encode(|s|)) + s + rest;
    TakeOf(prefix + Encode(|s|), s, rest);
    GoSerde.ReadPaddedExact(input, at, |s|);
  }

  class BcsDeserializer {
    /** The embedded `serde.BinaryDeserializer`. */
    const base: GoSerde.BinaryDeserializer
    /** The depth limit handed to the base. */
    const maxContainerDepth: nat

    constructor (input: seq<byte>)
      ensures fresh(base) && base.input == input && base.pos == 0 && Valid()
      ensures maxContainerDepth == MaxContainerDepth
    {
      base := new GoSerde.BinaryDeserializer(input);
      maxContainerDepth := MaxContainerDepth;
    }

    predicate Valid()
      reads this, base
    {
      base.Valid()
    }

    /** Up to five digits, low first, into a 64-bit accumulator checked after
      * every digit; a zero last digit after the first byte is refused. */
    method DeserializeUleb128AsU32() returns (r: Result<nat>)
      requires Valid()
      modifies base
      ensures Valid()
      ensures Reports(r, Decode(Varint, base.input, old(base.pos)))
      ensures r.Ok? ==> base.pos == Decode(Varint, base.input, old(base.pos)).value.1
    {
      ghost var out := Decode(Varint, base.input, base.pos);
      var value: nat := 0;
      var shift := 0;
      while shift < 32
        invariant base.Valid()
        invariant shift % 7 == 0 && shift <= 35 && value < Weight(shift)
        invariant Loop(Varint, base.input, base.pos, shift, value) == out
        decreases 32 - shift
      {
        ReadStep(Varint, base.input, base.pos, shift, value, out);
        var b :- base.ReadByte();
        var digit := b % 0x80;
        var acc := value + digit * Weight(shift);
        WideStep(MaxU32, base.input, base.pos - 1, shift, value, out, acc);
        value := acc;
        if value > MaxU32 {
          return Err(VarintOverflow);
        }
        if digit == b {
          if shift > 0 && digit == 0 {
            return Err(NonCanonicalVarint);
          }
          return Ok(value);
        }
        shift := shift + 7;
      }
      ReadEnd(Varint, base.input, base.pos, shift, value, out);
      return Err(VarintOverflow);
    }

    /** Lengths above `MaxSequenceLength` are refused. */
    method DeserializeLen() returns (r: Result<nat>)
      requires Valid()
      modifies base
      ensures Valid()
      ensures Matches(r, DecodeLength(Varint, base.input, old(base.pos), MaxSequenceLength), base.pos)
    {
      var v := DeserializeUleb128AsU32();
      if v.Ok? && v.value > MaxSequenceLength {
        return Err(LengthTooLarge);
      }
      return v;
    }

    /** The plain ULEB128 value, no further ceiling. */
    method DeserializeVariantIndex() returns (r: Result<nat>)
      requires Valid()
      modifies base
      ensures Valid()
      ensures Reports(r, Decode(Varint, base.input, old(base.pos)))
      ensures r.Ok? ==> base.pos == Decode(Varint, base.input, old(base.pos)).value.1
    {
      r := DeserializeUleb128AsU32();
    }

    /** The base's `DeserializeBytes` with this length reader. */
    method DeserializeBytes() returns (r: Result<seq<byte>>)
      requires Valid()
      modifies base
      ensures Valid()
      ensures Matches(r, Bytes(base.input, old(base.pos)), base.pos)
    {
      var len := DeserializeLen();
      r := base.DeserializeBytes(len);
    }

    method DeserializeStr() returns (r: Result<seq<byte>>)
      requires Valid()
      modifies base
      ensures Valid()
      ensures Matches(r, Bytes(base.input, old(base.pos)), base.pos)
    {
      var len := DeserializeLen();
      r := base.DeserializeStr(len);
    }

    /** `bytes.Compare(...) >= 0` is an error: keys must strictly increase. */
    method CheckThatKeySlicesAreIncreasing(key1: (nat, nat), key2: (nat, nat)) returns (r: Result<()>)
      requires key1.0 <= key1.1 <= |base.input| && key2.0 <= key2.1 <= |base.input|
      ensures r.Ok? <==> KeysIncreasing(base.input, key1, key2)
      ensures r.Err? ==> r.error == KeysOutOfOrder
    {
      if !Less(base.input[key1.0..key1.1], base.input[key2.0..key2.1]) {
        return Err(KeysOutOfOrder);
      }
      return Ok(());
    }
  }
}
