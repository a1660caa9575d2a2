/**
  * The Go bincode runtime (`bincode/serializer.go` and
  * `bincode/deserializer.go`). Both embed the binary base, modelled here as
  * the `base` they write and read through: lengths are 8-byte words, variant
  * indices 4-byte words, and maps are neither sorted nor checked.
  */
module GoBincode {
  import opened Wire
  import GoSerde

  /** `MaxSequenceLength`: 2^31 - 1, the longest run the reader accepts. */
  const MaxSequenceLength: nat := 0x7FFF_FFFF
  /** `math.MaxUint64`, the depth limit handed to the base: no limit. */
  const MaxContainerDepth: nat := 0xFFFF_FFFF_FFFF_FFFF

  /** An 8-byte length, refused above `MaxSequenceLength`. */
  function Length(input: seq<byte>, pos: nat): Result<(nat, nat)>
  {
    var (n, next) :- Fixed(input, pos, 8);
    if n > MaxSequenceLength then Err(LengthTooLarge) else Ok((n, next))
  }

  /** A byte run behind an 8-byte length, read by the base's `Buffer.Read`. */
  function Bytes(input: seq<byte>, pos: nat): Result<(seq<byte>, nat)>
  {
    var (n, next) :- Length(input, pos);
    GoSerde.ReadPadded(input, next, n)
  }

  /** A run the reader accepts comes back whole from what the writer wrote. */
  lemma BytesOfWritten(prefix: seq<byte>, s: seq<byte>, rest: seq<byte>)
    requires |s| <= MaxSequenceLength
    ensures Bytes(prefix + LE(|s|, 8) + s + rest, |prefix|) == Ok((s, |prefix| + 8 + |s|))
  {
    var input := prefix + LE(|s|, 8) + s + rest;
    assert input == prefix + LE(|s|, 8) + (s + rest);
    Pow2Values();
    FixedOfLE(prefix, |s|, 8, s + rest);
    assert input == (prefix + LE(|s|, 8)) + s + rest;
    TakeOf(prefix + LE(|s|, 8), s, rest);
    GoSerde.ReadPaddedExact(input, |prefix| + 8, |s|);
  }

  /** The writer takes any 64-bit length, the reader only up to 2^31 - 1:
    * a longer run is written but cannot be read back. */
  lemma LongBytesRefused(prefix: seq<byte>, s: seq<byte>, rest: seq<byte>)
    requires MaxSequenceLength < |s| < Pow2(64)
    ensures Bytes(prefix + LE(|s|, 8) + s + rest, |prefix|) == Err(LengthTooLarge)
  {
    assert prefix + LE(|s|, 8) + s + rest == prefix + LE(|s|, 8) + (s + rest);
    FixedOfLE(prefix, |s|, 8, s + rest);
  }

  class BincodeSerializer {
    /** The embedded `serde.BinarySerializer`. */
    const base: GoSerde.BinarySerializer

    constructor ()
      ensures fresh(base) && base.bytes == []
    {
      base := new GoSerde.BinarySerializer();
    }

    /** A u64. */
    method SerializeLen(value: nat) returns (r: Result<()>)
      requires IsUnsigned(value, 64)
      modifies base
      ensures r == Ok(()) && base.bytes == old(base.bytes) + LE(value, 8)
    {
      base.SerializeU64(value);
      return Ok(());
    }

    /** A u32. */
    method SerializeVariantIndex(value: nat) returns (r: Result<()>)
      requires IsUnsigned(value, 32)
      modifies base
      ensures r == Ok(()) && base.bytes == old(base.bytes) + LE(value, 4)
    {
      base.SerializeU32(value);
      return Ok(());
    }

    /** The base's `SerializeBytes` with this length writer. */
    method SerializeBytes(value: seq<byte>) returns (r: Result<()>)
      requires IsUnsigned(|value|, 64)
      modifies base
      ensures r == Ok(()) && base.bytes == old(base.bytes) + LE(|value|, 8) + value
    {
      var _ := SerializeLen(|value|);
      r := base.SerializeBytes(value);
    }

    method SerializeStr(value: seq<byte>) returns (r: Result<()>)
      requires IsUnsigned(|value|, 64)
      modifies base
      ensures r == Ok(()) && base.bytes == old(base.bytes) + LE(|value|, 8) + value
    {
      var _ := SerializeLen(|value|);
      r := base.SerializeStr(value);
    }

    /** Map entries stay in the order they were written. */
    method SortMapEntries(offsets: seq<nat>)
      ensures unchanged(base)
    {
    }
  }

  class BincodeDeserializer {
    /** The embedded `serde.BinaryDeserializer`. */
    const base: GoSerde.BinaryDeserializer
    const maxContainerDepth: nat

    constructor (input: seq<byte>)
      ensures fresh(base) && base.input == input && base.pos == 0 && Valid()
      ensures maxContainerDepth == MaxContainerDepth
    {
      base := new GoSerde.BinaryDeserializer(input);
      maxContainerDepth := MaxContainerDepth;
    }

    predicate Valid()
      reads this, base
    {
      base.Valid()
    }

    /** A u64, refused above `MaxSequenceLength`. */
    method DeserializeLen() returns (r: Result<nat>)
      requires Valid()
      modifies base
      ensures Valid()
      ensures Matches(r, Length(base.input, old(base.pos)), base.pos)
    {
      var v := base.DeserializeU64();
      if v.Ok? && v.value > MaxSequenceLength {
        return Err(LengthTooLarge);
      }
      return v;
    }

    /** A u32. */
    method DeserializeVariantIndex() returns (r: Result<nat>)
      requires Valid()
      modifies base
      ensures Valid()
      ensures Matches(r, Fixed(base.input, old(base.pos), 4), base.pos)
    {
      r := base.DeserializeU32();
    }

    method DeserializeBytes() returns (r: Result<seq<byte>>)
      requires Valid()
      modifies base
      ensures Valid()
      ensures Matches(r, Bytes(base.input, old(base.pos)), base.pos)
    {
      var len := DeserializeLen();
      r := base.DeserializeBytes(len);
    }

    method DeserializeStr() returns (r: Result<seq<byte>>)
      requires Valid()
      modifies base
      ensures Valid()
      ensures Matches(r, Bytes(base.input, old(base.pos)), base.pos)
    {
      var len := DeserializeLen();
      r := base.DeserializeStr(len);
    }

    /** Keys are not checked: any order is accepted. */
    method CheckThatKeySlicesAreIncreasing(key1: (nat, nat), key2: (nat, nat)) returns (r: Result<()>)
      ensures r == Ok(())
    {
      return Ok(());
    }
  }
}
