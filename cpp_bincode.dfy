/**
  * The C++ bincode runtime (`bincode.hpp`): `BincodeSerializer` and
  * `BincodeDeserializer`. Lengths are 8-byte and variant indices 4-byte
  * little-endian words; there is no length ceiling, no depth limit and no
  * map ordering (`enforce_strict_map_ordering` is false).
  */
module CppBincode {
  import opened Wire

  /** A string or byte run: the 8-byte length, then that many bytes. */
  function Prefixed(input: seq<byte>, pos: nat): Result<(seq<byte>, nat)>
  {
    var (n, next) :- Fixed(input, pos, 8);
    Take(input, next, n)
  }

  /** Round trip: what `serialize_str` writes, `deserialize_str` reads back,
    * consuming exactly those bytes. */
  lemma PrefixedOfWritten(prefix: seq<byte>, s: seq<byte>, rest: seq<byte>)
    requires IsUnsigned(|s|, 64)
    ensures Prefixed(prefix + LE(|s|, 8) + s + rest, |prefix|) == Ok((s, |prefix| + 8 + |s|))
  {
    var input := prefix + LE(|s|, 8) + s + rest;
    assert input == prefix + LE(|s|, 8) + (s + rest);
    Pow2Values();
    FixedOfLE(prefix, |s|, 8, s + rest);
    assert input == (prefix + LE(|s|, 8)) + s + rest;
    TakeOf(prefix + LE(|s|, 8), s, rest);
  }

  class BincodeSerializer {
    /** `bytes_`, the output written so far. */
    var bytes: seq<byte>

    constructor ()
      ensures bytes == []
    {
      bytes := [];
    }

    /** The 8-byte length, then the bytes of the string as they are. */
    method SerializeStr(value: seq<byte>)
      requires IsUnsigned(|value|, 64)
      modifies this
      ensures bytes == old(bytes) + LE(|value|, 8) + value
    {
      SerializeLen(|value|);
      var i := 0;
      while i < |value|
        invariant 0 <= i <= |value|
        invariant bytes == old(bytes) + LE(|value|, 8) + value[..i]
      {
        bytes := bytes + [value[i]];
        i := i + 1;
      }
      assert value[..i] == value;
    }

    /** f32, f64 and char are not part of the format: they throw. */
    method SerializeUnsupported() returns (r: Result<()>)
      ensures r == Err(NotImplemented)
    {
      return Err(NotImplemented);
    }

    method SerializeBool(value: bool)
      modifies this
      ensures bytes == old(bytes) + [BoolByte(value)]
    {
      bytes := bytes + [if value then 1 else 0];
    }

    method SerializeU8(value: nat)
      requires IsUnsigned(value, 8)
      modifies this
      ensures bytes == old(bytes) + LE(value, 1)
    {
      ByteAtByte(value);
      bytes := bytes + [value];
    }

    method SerializeU16(value: nat)
      requires IsUnsigned(value, 16)
      modifies this
      ensures bytes == old(bytes) + LE(value, 2)
    {
      LEBytes(value);
      bytes := bytes + [ByteAt(value, 0), ByteAt(value, 1)];
    }

    method SerializeU32(value: nat)
      requires IsUnsigned(value, 32)
      modifies this
      ensures bytes == old(bytes) + LE(value, 4)
    {
      LEBytes(value);
      bytes := bytes + [ByteAt(value, 0), ByteAt(value, 1), ByteAt(value, 2), ByteAt(value, 3)];
    }

    method SerializeU64(value: nat)
      requires IsUnsigned(value, 64)
      modifies this
      ensures bytes == old(bytes) + LE(value, 8)
    {
      LEBytes(value);
      bytes := bytes + [ByteAt(value, 0), ByteAt(value, 1), ByteAt(value, 2), ByteAt(value, 3),
                        ByteAt(value, 4), ByteAt(value, 5), ByteAt(value, 6), ByteAt(value, 7)];
    }

    /** The low word, then the high word: the 16-byte image of the value. */
    method SerializeU128(value: Uint128)
      requires value.Valid()
      modifies this
      ensures bytes == old(bytes) + LE(value.Value(), 16)
    {
      Pow2Values();
      Uint128Image(value);
      SerializeU64(value.low);
      SerializeU64(value.high);
    }

    /** The signed writers cast to the unsigned type of the same width. */
    method SerializeI8(value: int)
      requires IsSigned(value, 8)
      modifies this
      ensures bytes == old(bytes) + LE(Wrap(value, 8), 1)
    {
      SerializeU8(Wrap(value, 8));
    }

    method SerializeI16(value: int)
      requires IsSigned(value, 16)
      modifies this
      ensures bytes == old(bytes) + LE(Wrap(value, 16), 2)
    {
      SerializeU16(Wrap(value, 16));
    }

    method SerializeI32(value: int)
      requires IsSigned(value, 32)
      modifies this
      ensures bytes == old(bytes) + LE(Wrap(value, 32), 4)
    {
      SerializeU32(Wrap(value, 32));
    }

    method SerializeI64(value: int)
      requires IsSigned(value, 64)
      modifies this
      ensures bytes == old(bytes) + LE(Wrap(value, 64), 8)
    {
      SerializeU64(Wrap(value, 64));
    }

    /** The low word, then the signed high word: the 16-byte two's
      * complement image of the value. */
    method SerializeI128(value: Int128)
      requires value.Valid()
      modifies this
      ensures bytes == old(bytes) + LE(Wrap(value.Value(), 128), 16)
    {
      Pow2Values();
      Int128Image(value);
      SerializeU64(value.low);
      SerializeI64(value.high);
    }

    /** `(uint64_t)value`: a `size_t` already fits. */
    method SerializeLen(value: nat)
      requires IsUnsigned(value, 64)
      modifies this
      ensures bytes == old(bytes) + LE(value, 8)
    {
      SerializeU64(value);
    }

    /** `(uint32_t)value`: a `size_t` index cut to 32 bits. */
    method SerializeVariantIndex(value: nat)
      requires IsUnsigned(value, 64)
      modifies this
      ensures bytes == old(bytes) + LE(Wrap(value, 32), 4)
    {
      SerializeU32(Wrap(value, 32));
    }

    method SerializeOptionTag(value: bool)
      modifies this
      ensures bytes == old(bytes) + [BoolByte(value)]
    {
      SerializeBool(value);
    }
  }

  class BincodeDeserializer {
    /** `bytes_`, the whole input. */
    const input: seq<byte>
    /** `pos_`, the read position. */
    var pos: nat

    constructor (bytes: seq<byte>)
      ensures input == bytes && pos == 0
    {
      input := bytes;
      pos := 0;
    }

    /** `bytes_.at(pos_++)`: the position moves on even when `at` throws. */
    method ReadByte() returns (r: Result<byte>)
      modifies this
      ensures pos == old(pos) + 1
      ensures r.Ok? <==> old(pos) < |input|
      ensures r.Ok? ==> r.value == input[old(pos)]
      ensures r.Err? ==> r.error == TruncatedInput
    {
      if pos >= |input| {
        pos := pos + 1;
        return Err(TruncatedInput);
      }
      r := Ok(input[pos]);
      pos := pos + 1;
    }

    /** The `n` bytes of a fixed-width integer, low first, as the unrolled
      * `val |= (uintN_t)read_byte() << 8*i` of the readers. */
    method ReadLE(n: nat) returns (r: Result<nat>)
      requires n > 0
      modifies this
      ensures Matches(r, Fixed(input, old(pos), n), pos)
    {
      ghost var start := pos;
      var val := 0;
      var i := 0;
      while i < n
        invariant 0 <= i <= n && pos == start + i
        invariant i > 0 ==> start + i <= |input|
        invariant val == if i == 0 then 0 else FromLE(input[start..start + i])
      {
        var b :- ReadByte();
        assert val == FromLE(input[start..start + i]);
        FromLESnoc(input[start..start + i], b);
        SliceSnoc(input, start, start + i);
        val := val + b * Pow2(8 * i);
        i := i + 1;
      }
      return Ok(val);
    }

    /** The 8-byte length, then that many bytes, one `read_byte` at a time. */
    method DeserializeStr() returns (r: Result<seq<byte>>)
      modifies this
      ensures Matches(r, Prefixed(input, old(pos)), pos)
    {
      var len :- DeserializeLen();
      ghost var start := pos;
      var result: seq<byte> := [];
      var i := 0;
      while i < len
        invariant 0 <= i <= len && pos == start + i && start + i <= |input|
        invariant result == input[start..start + i]
      {
        var b :- ReadByte();
        result := result + [b];
        i := i + 1;
      }
      return Ok(result);
    }

    method DeserializeUnsupported() returns (r: Result<()>)
      ensures r == Err(NotImplemented)
    {
      return Err(NotImplemented);
    }

    /** `(bool)read_byte()`: any non-zero byte is true. */
    method DeserializeBool() returns (r: Result<bool>)
      modifies this
      ensures Matches(r, ReadBool(input, old(pos), Nonzero), pos)
    {
      var b :- ReadByte();
      return Ok(b != 0);
    }

    method DeserializeU8() returns (r: Result<nat>)
      modifies this
      ensures Matches(r, Fixed(input, old(pos), 1), pos)
    {
      var b :- ReadByte();
      assert input[old(pos)..old(pos) + 1] == [b];
      assert FromLE([b]) == b + 256 * FromLE([]);
      return Ok(b);
    }

    method DeserializeU16() returns (r: Result<nat>)
      modifies this
      ensures Matches(r, Fixed(input, old(pos), 2), pos)
    {
      r := ReadLE(2);
    }

    method DeserializeU32() returns (r: Result<nat>)
      modifies this
      ensures Matches(r, Fixed(input, old(pos), 4), pos)
    {
      r := ReadLE(4);
    }

    method DeserializeU64() returns (r: Result<nat>)
      modifies this
      ensures Matches(r, Fixed(input, old(pos), 8), pos)
    {
      r := ReadLE(8);
    }

    /** The low word, then the high word. */
    method DeserializeU128() returns (r: Result<Uint128>)
      modifies this
      ensures Matches(r, Fixed128(input, old(pos)), pos)
    {
      var low :- DeserializeU64();
      var high :- DeserializeU64();
      return Ok(Uint128(high, low));
    }

    /** The signed readers cast the unsigned value of the same width. */
    method DeserializeI8() returns (r: Result<int>)
      modifies this
      ensures Matches(r, SignedFixed(input, old(pos), 1), pos)
    {
      var u :- DeserializeU8();
      return Ok(ToSigned(u, 8));
    }

    method DeserializeI16() returns (r: Result<int>)
      modifies this
      ensures Matches(r, SignedFixed(input, old(pos), 2), pos)
    {
      var u :- DeserializeU16();
      return Ok(ToSigned(u, 16));
    }

    method DeserializeI32() returns (r: Result<int>)
      modifies this
      ensures Matches(r, SignedFixed(input, old(pos), 4), pos)
    {
      var u :- DeserializeU32();
      return Ok(ToSigned(u, 32));
    }

    method DeserializeI64() returns (r: Result<int>)
      modifies this
      ensures Matches(r, SignedFixed(input, old(pos), 8), pos)
    {
      var u :- DeserializeU64();
      return Ok(ToSigned(u, 64));
    }

    /** The low word, then the signed high word. */
    method DeserializeI128() returns (r: Result<Int128>)
      modifies this
      ensures Matches(r, SignedFixed128(input, old(pos)), pos)
    {
      var low :- DeserializeU64();
      var high :- DeserializeI64();
      return Ok(Int128(high, low));
    }

    /** `(size_t)deserialize_u64()`: any 64-bit length, no ceiling. */
    method DeserializeLen() returns (r: Result<nat>)
      modifies this
      ensures Matches(r, Fixed(input, old(pos), 8), pos)
    {
      r := DeserializeU64();
    }

    method DeserializeVariantIndex() returns (r: Result<nat>)
      modifies this
      ensures Matches(r, Fixed(input, old(pos), 4), pos)
    {
      r := DeserializeU32();
    }

    method DeserializeOptionTag() returns (r: Result<bool>)
      modifies this
      ensures Matches(r, ReadBool(input, old(pos), Nonzero), pos)
    {
      r := DeserializeBool();
    }
  }
}
