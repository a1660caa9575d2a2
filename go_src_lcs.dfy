/**
  * The older Go LCS runtime (`src/lcs/serializer.go` and
  * `src/lcs/deserializer.go`): lengths are signed Go `int`s, refused only
  * when negative on the writing side and cut to 32 bits; map sorting, the
  * key check, char and floats panic; a bool is whether the byte is 1; and
  * the deserializer's buffer offset is the number of bytes still unread.
  */
module GoSrcLcs {
  import opened Wire
  import opened Uleb128
  import GoSerde

  /** `MaxSequenceLength`: 2^31 - 1. */
  const MaxSequenceLength: nat := 0x7FFF_FFFF

  const Varint: Dialect := Wide(MaxU32)

  /** A byte run behind a checked ULEB128 length, read by `buf.Read`. */
  function Bytes(input: seq<byte>, pos: nat): Result<(seq<byte>, nat)>
  {
    var (n, next) :- DecodeLength(Varint, input, pos, MaxSequenceLength);
    GoSerde.ReadPadded(input, next, n)
  }

  /** What `SerializeBytes` writes for a run within the reader's ceiling,
    * `DeserializeBytes` reads back whole. */
  lemma BytesOfWritten(prefix: seq<byte>, s: seq<byte>, rest: seq<byte>)
    requires |s| <= MaxSequenceLength
    ensures Bytes(prefix + Encode(|s|) + s + rest, |prefix|) == Ok((s, |prefix| + |Encode(|s|)| + |s|))
  {
    var input := prefix + Encode(|s|) + s + rest;
    var at := |prefix| + |Encode(|s|)|;
    assert input == prefix + Encode(|s|) + (s + rest);
    DecodeEncode(Varint, |s|, input, |prefix|);
    assert input == (prefix + Encode(|s|)) + s + rest;
    TakeOf(prefix + Encode(|s|), s, rest);
    GoSerde.ReadPaddedExact(input, at, |s|);
  }

  /** The runtime tests' ULEB128 vectors: the variant index 9487, the byte
    * run {1, 2, 38} and the empty one. */
  lemma UlebVectors()
    ensures Encode(9487) == [143, 74]
    ensures Encode(Wrap(3, 32)) + [1, 2, 38] == [3, 1, 2, 38] && Encode(Wrap(0, 32)) == [0]
  {
    Pow2Values();
    assert Encode(74) == [74];
  }

  /** The runtime tests' fixed-width vectors: u16 827, i16 -2, i32 -232. */
  lemma U16Vector()
    ensures LE(827, 2) == [59, 3]
  {
    LEOfFromLE([59, 3]);
    assert [59, 3][1..] == [3] && [3 as byte][1..] == [];
  }

  lemma I16Vector()
    ensures LE(Wrap(-2, 16), 2) == [254, 255]
  {
    Pow2Values();
    SignedWrap(-2, 16);
    LEOfFromLE([254, 255]);
    assert [254, 255][1..] == [255] && [255 as byte][1..] == [];
  }

  lemma I32Vector()
    ensures LE(Wrap(-232, 32), 4) == [24, 255, 255, 255]
  {
    Pow2Values();
    SignedWrap(-232, 32);
    LEOfFromLE([24, 255, 255, 255]);
    assert [24, 255, 255, 255][1..] == [255, 255, 255] && [255, 255, 255][1..] == [255, 255];
    assert [255, 255][1..] == [255] && [255 as byte][1..] == [];
  }

  /** The tests' length limits: 2^32 - 1 written as a variant index is too
    * large to read back as a length, and eight 0xFF bytes overflow. */
  lemma ReaderVectors()
    ensures DecodeLength(Varint, Encode(MaxU32), 0, MaxSequenceLength) == Err(LengthTooLarge)
    ensures Decode(Varint, [255, 255, 255, 255, 255, 255, 255, 255], 0) == Err(VarintOverflow)
  {
    DecodeEncode(Varint, MaxU32, Encode(MaxU32), 0);
  }

  class Serializer {
    /** `buf`, the output written so far. */
    var bytes: seq<byte>

    constructor ()
      ensures bytes == []
    {
      bytes := [];
    }

    /** Seven bits at a time, low digit first, 0x80 on every byte but the
      * last. */
    method SerializeU32AsUleb128(value: nat)
      requires IsUnsigned(value, 32)
      modifies this
      ensures bytes == old(bytes) + Encode(value)
    {
      var v := value;
      while v >= 0x80
        invariant bytes + Encode(v) == old(bytes) + Encode(value)
        decreases v
      {
        bytes := bytes + [v % 0x80 + 0x80];
        v := v / 0x80;
      }
      bytes := bytes + [v];
    }

    /** "length must >= 0" for a negative length; otherwise the length cut
      * to 32 bits, with no upper bound. */
    method SerializeLen(value: int) returns (r: Result<()>)
      requires IsSigned(value, 64)
      modifies this
      ensures value < 0 ==> r == Err(IncorrectLength) && bytes == old(bytes)
      ensures value >= 0 ==> r == Ok(()) && bytes == old(bytes) + Encode(Wrap(value, 32))
    {
      if value < 0 {
        return Err(IncorrectLength);
      }
      Pow2Values();
      SerializeU32AsUleb128(Wrap(value, 32));
      return Ok(());
    }

    /** The length (its error, which cannot arise, dropped), then the
      * bytes. */
    method SerializeBytes(value: seq<byte>) returns (r: Result<()>)
      requires IsSigned(|value|, 64)
      modifies this
      ensures r == Ok(())
      ensures bytes == old(bytes) + Encode(Wrap(|value|, 32)) + value
    {
      var _ := SerializeLen(|value|);
      bytes := bytes + value;
      return Ok(());
    }

    method SerializeStr(value: seq<byte>) returns (r: Result<()>)
      requires IsSigned(|value|, 64)
      modifies this
      ensures r == Ok(())
      ensures bytes == old(bytes) + Encode(Wrap(|value|, 32)) + value
    {
      r := SerializeBytes(value);
    }

    /** char, f32 and f64 panic "unimplemented". */
    method SerializeUnsupported() returns (r: Result<()>)
      ensures r == Err(NotImplemented)
    {
      return Err(NotImplemented);
    }

    method SerializeBool(value: bool)
      modifies this
      ensures bytes == old(bytes) + [BoolByte(value)]
    {
      bytes := bytes + [if value then 1 else 0];
    }

    method SerializeU8(value: nat)
      requires IsUnsigned(value, 8)
      modifies this
      ensures bytes == old(bytes) + LE(value, 1)
    {
      ByteAtByte(value);
      bytes := bytes + [value];
    }

    method SerializeU16(value: nat)
      requires IsUnsigned(value, 16)
      modifies this
      ensures bytes == old(bytes) + LE(value, 2)
    {
      LEBytes(value);
      bytes := bytes + [ByteAt(value, 0), ByteAt(value, 1)];
    }

    method SerializeU32(value: nat)
      requires IsUnsigned(value, 32)
      modifies this
      ensures bytes == old(bytes) + LE(value, 4)
    {
      LEBytes(value);
      bytes := bytes + [ByteAt(value, 0), ByteAt(value, 1), ByteAt(value, 2), ByteAt(value, 3)];
    }

    method SerializeU64(value: nat)
      requires IsUnsigned(value, 64)
      modifies this
      ensures bytes == old(bytes) + LE(value, 8)
    {
      LEBytes(value);
      bytes := bytes + [ByteAt(value, 0), ByteAt(value, 1), ByteAt(value, 2), ByteAt(value, 3),
                        ByteAt(value, 4), ByteAt(value, 5), ByteAt(value, 6), ByteAt(value, 7)];
    }

    /** The low word, then the high word: the 16-byte image of the value. */
    method SerializeU128(value: Uint128)
      requires value.Valid()
      modifies this
      ensures bytes == old(bytes) + LE(value.Value(), 16)
    {
      Pow2Values();
      Uint128Image(value);
      SerializeU64(value.low);
      SerializeU64(value.high);
    }

    /** The signed writers cast to the unsigned type of the same width. */
    method SerializeI8(value: int)
      requires IsSigned(value, 8)
      modifies this
      ensures bytes == old(bytes) + LE(Wrap(value, 8), 1)
    {
      SerializeU8(Wrap(value, 8));
    }

    method SerializeI16(value: int)
      requires IsSigned(value, 16)
      modifies this
      ensures bytes == old(bytes) + LE(Wrap(value, 16), 2)
    {
      SerializeU16(Wrap(value, 16));
    }

    method SerializeI32(value: int)
      requires IsSigned(value, 32)
      modifies this
      ensures bytes == old(bytes) + LE(Wrap(value, 32), 4)
    {
      SerializeU32(Wrap(value, 32));
    }

    method SerializeI64(value: int)
      requires IsSigned(value, 64)
      modifies this
      ensures bytes == old(bytes) + LE(Wrap(value, 64), 8)
    {
      SerializeU64(Wrap(value, 64));
    }

    /** The low word, then the signed high word: the 16-byte two's
      * complement image of the value. */
    method SerializeI128(value: Int128)
      requires value.Valid()
      modifies this
      ensures bytes == old(bytes) + LE(Wrap(value.Value(), 128), 16)
    {
      Pow2Values();
      Int128Image(value);
      SerializeU64(value.low);
      SerializeI64(value.high);
    }

    method SerializeVariantIndex(value: nat)
      requires IsUnsigned(value, 32)
      modifies this
      ensures bytes == old(bytes) + Encode(value)
    {
      SerializeU32AsUleb128(value);
    }

    method SerializeOptionTag(value: bool)
      modifies this
      ensures bytes == old(bytes) + [BoolByte(value)]
    {
      SerializeBool(value);
    }

    method GetBufferOffset() returns (r: nat)
      ensures r == |bytes|
    {
      return |bytes|;
    }

    /** Panics "unimplemented". */
    method SortMapEntries(offsets: seq<nat>) returns (r: Result<()>)
      ensures r == Err(NotImplemented)
    {
      return Err(NotImplemented);
    }
  }

  class Deserializer {
    /** The whole input `buf` was made from. */
    const input: seq<byte>
    /** How much of `buf` has been consumed: `buf` holds `input[pos..]`. */
    var pos: nat

    constructor (bytes: seq<byte>)
      ensures input == bytes && pos == 0 && Valid()
    {
      input := bytes;
      pos := 0;
    }

    /** The buffer never runs past the input. */
    predicate Valid()
      reads this
    {
      pos <= |input|
    }

    /** `Buffer.ReadByte`: end-of-file, without consuming, when the buffer is
      * empty. */
    method ReadByte() returns (r: Result<byte>)
      requires Valid()
      modifies this
      ensures Valid()
      ensures r.Ok? <==> old(pos) < |input|
      ensures r.Ok? ==> r.value == input[old(pos)] && pos == old(pos) + 1
      ensures r.Err? ==> r.error == TruncatedInput && pos == old(pos)
    {
      if pos == |input| {
        return Err(TruncatedInput);
      }
      r := Ok(input[pos]);
      pos := pos + 1;
    }

    /** The `for i := 0; i < 8*n; i += 8` loop of the readers:
      * `ret | T(b) << i`, low byte first. */
    method ReadLE(n: nat) returns (r: Result<nat>)
      requires Valid()
      modifies this
      ensures Valid()
      ensures Matches(r, Fixed(input, old(pos), n), pos)
    {
      ghost var start := pos;
      var ret := 0;
      var i := 0;
      while i < n
        invariant 0 <= i <= n && pos == start + i <= |input|
        invariant ret == FromLE(input[start..start + i])
      {
        var b :- ReadByte();
        FromLESnoc(input[start..start + i], b);
        SliceSnoc(input, start, start + i);
        ret := ret + b * Pow2(8 * i);
        i := i + 1;
      }
      return Ok(ret);
    }

    /** `DeserializeLen`, then `buf.Read` into a zeroed slice of that
      * length, its count ignored. */
    method DeserializeBytes() returns (r: Result<seq<byte>>)
      requires Valid()
      modifies this
      ensures Valid()
      ensures Matches(r, Bytes(input, old(pos)), pos)
    {
      var n :- DeserializeLen();
      if pos == |input| {
        if n == 0 {
          return Ok([]);
        }
        return Err(TruncatedInput);
      }
      var k := if pos + n <= |input| then n else |input| - pos;
      var ret := input[pos..pos + k] + GoSerde.Zeros(n - k);
      pos := pos + k;
      return Ok(ret);
    }

    method DeserializeStr() returns (r: Result<seq<byte>>)
      requires Valid()
      modifies this
      ensures Valid()
      ensures Matches(r, Bytes(input, old(pos)), pos)
    {
      r := DeserializeBytes();
    }

    /** Up to five digits, low first, into a 64-bit accumulator checked after
      * every digit; a zero last digit after the first byte is refused. */
    method DeserializeUleb128AsU32() returns (r: Result<nat>)
      requires Valid()
      modifies this
      ensures Valid()
      ensures Reports(r, Decode(Varint, input, old(pos)))
      ensures r.Ok? ==> pos == Decode(Varint, input, old(pos)).value.1
    {
      ghost var out := Decode(Varint, input, pos);
      var value: nat := 0;
      var shift := 0;
      while shift < 32
        invariant Valid()
        invariant shift % 7 == 0 && shift <= 35 && value < Weight(shift)
        invariant Loop(Varint, input, pos, shift, value) == out
        decreases 32 - shift
      {
        ReadStep(Varint, input, pos, shift, value, out);
        var b :- ReadByte();
        var digit := b % 0x80;
        var acc := value + digit * Weight(shift);
        WideStep(MaxU32, input, pos - 1, shift, value, out, acc);
        value := acc;
        if value > MaxU32 {
          return Err(VarintOverflow);
        }
        if digit == b {
          if shift > 0 && digit == 0 {
            return Err(NonCanonicalVarint);
          }
          return Ok(value);
        }
        shift := shift + 7;
      }
      ReadEnd(Varint, input, pos, shift, value, out);
      return Err(VarintOverflow);
    }

    /** Lengths above `MaxSequenceLength` are refused. */
    method DeserializeLen() returns (r: Result<nat>)
      requires Valid()
      modifies this
      ensures Valid()
      ensures Matches(r, DecodeLength(Varint, input, old(pos), MaxSequenceLength), pos)
    {
      var v := DeserializeUleb128AsU32();
      if v.Ok? && v.value > MaxSequenceLength {
        return Err(LengthTooLarge);
      }
      return v;
    }

    /** `ret == 1`: any other byte is false, without error. */
    method DeserializeBool() returns (r: Result<bool>)
      requires Valid()
      modifies this
      ensures Valid()
      ensures Matches(r, ReadBool(input, old(pos), EqualsOne), pos)
    {
      var b :- ReadByte();
      return Ok(b == 1);
    }

    /** char, f32 and f64 panic "unimplemented". */
    method DeserializeUnsupported() returns (r: Result<()>)
      ensures r == Err(NotImplemented)
    {
      return Err(NotImplemented);
    }

    method DeserializeU8() returns (r: Result<nat>)
      requires Valid()
      modifies this
      ensures Valid()
      ensures Matches(r, Fixed(input, old(pos), 1), pos)
    {
      var b :- ReadByte();
      assert input[old(pos)..old(pos) + 1] == [b];
      assert FromLE([b]) == b + 256 * FromLE([]);
      return Ok(b);
    }

    method DeserializeU16() returns (r: Result<nat>)
      requires Valid()
      modifies this
      ensures Valid()
      ensures Matches(r, Fixed(input, old(pos), 2), pos)
    {
      r := ReadLE(2);
    }

    method DeserializeU32() returns (r: Result<nat>)
      requires Valid()
      modifies this
      ensures Valid()
      ensures Matches(r, Fixed(input, old(pos), 4), pos)
    {
      r := ReadLE(4);
    }

    method DeserializeU64() returns (r: Result<nat>)
      requires Valid()
      modifies this
      ensures Valid()
      ensures Matches(r, Fixed(input, old(pos), 8), pos)
    {
      r := ReadLE(8);
    }

    /** The low word, then the high word. */
    method DeserializeU128() returns (r: Result<Uint128>)
      requires Valid()
      modifies this
      ensures Valid()
      ensures Matches(r, Fixed128(input, old(pos)), pos)
    {
      var low :- DeserializeU64();
      var high :- DeserializeU64();
      return Ok(Uint128(high, low));
    }

    /** The signed readers cast the unsigned value of the same width. */
    method DeserializeI8() returns (r: Result<int>)
      requires Valid()
      modifies this
      ensures Valid()
      ensures Matches(r, SignedFixed(input, old(pos), 1), pos)
    {
      var u :- DeserializeU8();
      return Ok(ToSigned(u, 8));
    }

    method DeserializeI16() returns (r: Result<int>)
      requires Valid()
      modifies this
      ensures Valid()
      ensures Matches(r, SignedFixed(input, old(pos), 2), pos)
    {
      var u :- DeserializeU16();
      return Ok(ToSigned(u, 16));
    }

    method DeserializeI32() returns (r: Result<int>)
      requires Valid()
      modifies this
      ensures Valid()
      ensures Matches(r, SignedFixed(input, old(pos), 4), pos)
    {
      var u :- DeserializeU32();
      return Ok(ToSigned(u, 32));
    }

    method DeserializeI64() returns (r: Result<int>)
      requires Valid()
      modifies this
      ensures Valid()
      ensures Matches(r, SignedFixed(input, old(pos), 8), pos)
    {
      var u :- DeserializeU64();
      return Ok(ToSigned(u, 64));
    }

    /** The low word, then the signed high word. */
    method DeserializeI128() returns (r: Result<Int128>)
      requires Valid()
      modifies this
      ensures Valid()
      ensures Matches(r, SignedFixed128(input, old(pos)), pos)
    {
      var low :- DeserializeU64();
      var high :- DeserializeI64();
      return Ok(Int128(high, low));
    }

    method DeserializeVariantIndex() returns (r: Result<nat>)
      requires Valid()
      modifies this
      ensures Valid()
      ensures Reports(r, Decode(Varint, input, old(pos)))
      ensures r.Ok? ==> pos == Decode(Varint, input, old(pos)).value.1
    {
      r := DeserializeUleb128AsU32();
    }

    method DeserializeOptionTag() returns (r: Result<bool>)
      requires Valid()
      modifies this
      ensures Valid()
      ensures Matches(r, ReadBool(input, old(pos), EqualsOne), pos)
    {
      r := DeserializeBool();
    }

    /** `buf.Len()`: the number of bytes still unread, not the number
      * consumed. */
    method GetBufferOffset() returns (r: nat)
      requires Valid()
      ensures r == |input| - pos
    {
      return |input| - pos;
    }

    /** Panics "unimplemented". */
    method CheckThatKeySlicesAreIncreasing(key1: (nat, nat), key2: (nat, nat)) returns (r: Result<()>)
      ensures r == Err(NotImplemented)
    {
      return Err(NotImplemented);
    }
  }
}
