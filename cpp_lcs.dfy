/**
  * The C++ LCS runtime (`lcs.hpp`): `LcsSerializer` and `LcsDeserializer`,
  * both self-contained (no shared base class). Two of its ULEB128 routines
  * differ from the format: the encoder leaves out the continuation flag and
  * the decoder shifts each digit as a 32-bit `int`. Both are modelled as
  * written (`...AsWritten`) next to the corrected routines. The writers of
  * lengths, strings and variant indices are modelled both ways too; the
  * readers of lengths and variant indices use the corrected decoder.
  */
module CppLcs {
  import opened Wire
  import opened Uleb128
  import opened LexOrder

  /** `LCS_MAX_LENGTH`: 2^31. */
  const MaxLength: nat := 0x8000_0000

  /** The decoder as written: `digit << shift` on an `int`, sign-extended into
    * the 64-bit accumulator, which is then compared with 2^32 - 1. */
  const AsWritten: Dialect := Int32Shift(true)
  /** The decoder as intended: the digit widened to 64 bits first. */
  const Intended: Dialect := Wide(MaxU32)

  /** The bytes the encoder as written emits: the seven-bit digits of `v`,
    * low first, with the continuation flag never set. */
  function Unflagged(v: nat): (r: seq<byte>)
    ensures |r| == |Encode(v)|
    ensures forall i :: 0 <= i < |r| ==> r[i] == Encode(v)[i] % 0x80
    decreases v
  {
    if v < 0x80 then [v] else [v % 0x80] + Unflagged(v / 0x80)
  }

  /** Finding: whatever the value, a reader stops after the first byte of
    * `Unflagged(v)`, since that byte lacks the continuation flag, and
    * returns only the lowest digit. */
  lemma UnflaggedReadsOneDigit(d: Dialect, v: nat, rest: seq<byte>)
    requires d == Intended || d == AsWritten
    ensures Decode(d, Unflagged(v) + rest, 0) == Ok((v % 0x80, 1))
  {
    var s := Unflagged(v) + rest;
    assert s[0] == v % 0x80;
    if s[0] == 0 {
      Stop(d, s, 0, 0, 0);
    } else {
      Finish(d, s, 0, 0, 0, v % 0x80);
    }
  }

  /** Finding, the smallest instance: 128 is written as `00 01` and read
    * back as 0, where the format writes `80 01`. */
  lemma UnflaggedLoses128()
    ensures Unflagged(0x80) == [0x00, 0x01] && Encode(0x80) == [0x80, 0x01]
    ensures Decode(Intended, Unflagged(0x80), 0) == Ok((0, 1))
    ensures Decode(Intended, Encode(0x80), 0) == Ok((0x80, 2))
  {
    UnflaggedReadsOneDigit(Intended, 0x80, []);
    assert Unflagged(0x80) + [] == Unflagged(0x80);
    DecodeEncode(Intended, 0x80, Encode(0x80), 0);
    assert Encode(0x80)[0..2] == Encode(0x80);
  }

  /** Finding: the decoder as written never yields a value of 2^31 or more,
    * so a length of exactly `LCS_MAX_LENGTH`, which the writer allows, or a
    * variant index of 2^31 or more, cannot be read back. */
  lemma {:induction false} AsWrittenBelow2To31(input: seq<byte>, pos: nat, shift: nat, value: int)
    requires shift % 7 == 0
    requires Loop(AsWritten, input, pos, shift, value).Ok?
    ensures 0 <= Loop(AsWritten, input, pos, shift, value).value.0 <= MaxI32
    decreases 32 - shift
  {
    var b := input[pos];
    var acc := value + Shifted(AsWritten, b % 0x80, shift);
    if b >= 0x80 {
      AsWrittenBelow2To31(input, pos + 1, shift + 7, acc);
    }
  }

  /** Finding, an instance: the canonical encoding of 2^31 is refused by the
    * decoder as written and accepted by the intended one. */
  lemma AsWrittenRefuses2To31()
    ensures Encode(0x8000_0000) == [0x80, 0x80, 0x80, 0x80, 0x08]
    ensures Decode(AsWritten, Encode(0x8000_0000), 0) == Err(VarintOverflow)
    ensures Decode(Intended, Encode(0x8000_0000), 0) == Ok((0x8000_0000, 5))
  {
    var s := Encode(0x8000_0000);
    assert s == [0x80, 0x80, 0x80, 0x80, 0x08];
    var d := AsWritten;
    Continue(d, s, 0, 0, 0, 0);
    Continue(d, s, 1, 7, 0, 0);
    Continue(d, s, 2, 14, 0, 0);
    Continue(d, s, 3, 21, 0, 0);
    assert Shifted(d, 0x08, 28) == -0x8000_0000;
    DecodeEncode(Intended, 0x8000_0000, s, 0);
    assert s[0..5] == s;
  }

  class LcsSerializer {
    /** `bytes_`, the output written so far. */
    var bytes: seq<byte>

    constructor ()
      ensures bytes == []
    {
      bytes := [];
    }

    /** `serialize_u32_as_uleb128` as written: `(uint8_t)value & 0x7F`
      * without the `| 0x80`. */
    method SerializeU32AsUleb128AsWritten(value: nat)
      requires value <= MaxU32
      modifies this
      ensures bytes == old(bytes) + Unflagged(value)
    {
      var v := value;
      while v >= 0x80
        invariant bytes + Unflagged(v) == old(bytes) + Unflagged(value)
        decreases v
      {
        bytes := bytes + [v % 0x80];
        v := v / 0x80;
      }
      bytes := bytes + [v];
    }

    /** `serialize_u32_as_uleb128` with the continuation flag set on every
      * byte but the last. */
    method SerializeU32AsUleb128(value: nat)
      requires value <= MaxU32
      modifies this
      ensures bytes == old(bytes) + Encode(value)
    {
      var v := value;
      while v >= 0x80
        invariant bytes + Encode(v) == old(bytes) + Encode(value)
        decreases v
      {
        bytes := bytes + [v % 0x80 + 0x80];
        v := v / 0x80;
      }
      bytes := bytes + [v];
    }

    /** A `size_t` length: above 2^31 it throws and writes nothing. */
    method SerializeLen(value: nat) returns (r: Result<()>)
      requires IsUnsigned(value, 64)
      modifies this
      ensures value > MaxLength ==> r == Err(LengthTooLarge) && bytes == old(bytes)
      ensures value <= MaxLength ==> r == Ok(()) && bytes == old(bytes) + Encode(value)
    {
      if value > MaxLength {
        return Err(LengthTooLarge);
      }
      SerializeU32AsUleb128(value);
      return Ok(());
    }

    /** The length, then the bytes of the string as they are. */
    method SerializeStr(value: seq<byte>) returns (r: Result<()>)
      requires IsUnsigned(|value|, 64)
      modifies this
      ensures |value| > MaxLength ==> r == Err(LengthTooLarge) && bytes == old(bytes)
      ensures |value| <= MaxLength ==> r == Ok(()) && bytes == old(bytes) + Encode(|value|) + value
    {
      r := SerializeLen(|value|);
      if r.Err? {
        return;
      }
      var i := 0;
      while i < |value|
        invariant 0 <= i <= |value|
        invariant bytes == old(bytes) + Encode(|value|) + value[..i]
      {
        bytes := bytes + [value[i]];
        i := i + 1;
      }
      assert value[..i] == value;
    }

    /** `serialize_len` as written: the length goes through the encoder
      * without the continuation flag. */
    method SerializeLenAsWritten(value: nat) returns (r: Result<()>)
      requires IsUnsigned(value, 64)
      modifies this
      ensures value > MaxLength ==> r == Err(LengthTooLarge) && bytes == old(bytes)
      ensures value <= MaxLength ==> r == Ok(()) && bytes == old(bytes) + Unflagged(value)
    {
      if value > MaxLength {
        return Err(LengthTooLarge);
      }
      SerializeU32AsUleb128AsWritten(value);
      return Ok(());
    }

    /** `serialize_str` as written: its length prefix is unflagged. */
    method SerializeStrAsWritten(value: seq<byte>) returns (r: Result<()>)
      requires IsUnsigned(|value|, 64)
      modifies this
      ensures |value| > MaxLength ==> r == Err(LengthTooLarge) && bytes == old(bytes)
      ensures |value| <= MaxLength ==> r == Ok(()) && bytes == old(bytes) + Unflagged(|value|) + value
    {
      r := SerializeLenAsWritten(|value|);
      if r.Err? {
        return;
      }
      var i := 0;
      while i < |value|
        invariant 0 <= i <= |value|
        invariant bytes == old(bytes) + Unflagged(|value|) + value[..i]
      {
        bytes := bytes + [value[i]];
        i := i + 1;
      }
      assert value[..i] == value;
    }

    /** `serialize_variant_index` as written: the index cut to 32 bits goes
      * through the unflagged encoder. */
    method SerializeVariantIndexAsWritten(value: nat)
      requires IsUnsigned(value, 64)
      modifies this
      ensures bytes == old(bytes) + Unflagged(Wrap(value, 32))
    {
      Pow2Values();
      SerializeU32AsUleb128AsWritten(Wrap(value, 32));
    }

    /** f32, f64 and char are not part of the format: they throw. */
    method SerializeUnsupported() returns (r: Result<()>)
      ensures r == Err(NotImplemented)
    {
      return Err(NotImplemented);
    }

    method SerializeBool(value: bool)
      modifies this
      ensures bytes == old(bytes) + [BoolByte(value)]
    {
      bytes := bytes + [if value then 1 else 0];
    }

    method SerializeU8(value: nat)
      requires IsUnsigned(value, 8)
      modifies this
      ensures bytes == old(bytes) + LE(value, 1)
    {
      ByteAtByte(value);
      bytes := bytes + [value];
    }

    method SerializeU16(value: nat)
      requires IsUnsigned(value, 16)
      modifies this
      ensures bytes == old(bytes) + LE(value, 2)
    {
      LEBytes(value);
      bytes := bytes + [ByteAt(value, 0), ByteAt(value, 1)];
    }

    method SerializeU32(value: nat)
      requires IsUnsigned(value, 32)
      modifies this
      ensures bytes == old(bytes) + LE(value, 4)
    {
      LEBytes(value);
      bytes := bytes + [ByteAt(value, 0), ByteAt(value, 1), ByteAt(value, 2), ByteAt(value, 3)];
    }

    method SerializeU64(value: nat)
      requires IsUnsigned(value, 64)
      modifies this
      ensures bytes == old(bytes) + LE(value, 8)
    {
      LEBytes(value);
      bytes := bytes + [ByteAt(value, 0), ByteAt(value, 1), ByteAt(value, 2), ByteAt(value, 3),
                        ByteAt(value, 4), ByteAt(value, 5), ByteAt(value, 6), ByteAt(value, 7)];
    }

    /** The low word, then the high word: the 16-byte image of the value. */
    method SerializeU128(value: Uint128)
      requires value.Valid()
      modifies this
      ensures bytes == old(bytes) + LE(value.Value(), 16)
    {
      Pow2Values();
      Uint128Image(value);
      SerializeU64(value.low);
      SerializeU64(value.high);
    }

    /** The signed writers cast to the unsigned type of the same width. */
    method SerializeI8(value: int)
      requires IsSigned(value, 8)
      modifies this
      ensures bytes == old(bytes) + LE(Wrap(value, 8), 1)
    {
      SerializeU8(Wrap(value, 8));
    }

    method SerializeI16(value: int)
      requires IsSigned(value, 16)
      modifies this
      ensures bytes == old(bytes) + LE(Wrap(value, 16), 2)
    {
      SerializeU16(Wrap(value, 16));
    }

    method SerializeI32(value: int)
      requires IsSigned(value, 32)
      modifies this
      ensures bytes == old(bytes) + LE(Wrap(value, 32), 4)
    {
      SerializeU32(Wrap(value, 32));
    }

    method SerializeI64(value: int)
      requires IsSigned(value, 64)
      modifies this
      ensures bytes == old(bytes) + LE(Wrap(value, 64), 8)
    {
      SerializeU64(Wrap(value, 64));
    }

    /** The low word, then the signed high word: the 16-byte two's
      * complement image of the value. */
    method SerializeI128(value: Int128)
      requires value.Valid()
      modifies this
      ensures bytes == old(bytes) + LE(Wrap(value.Value(), 128), 16)
    {
      Pow2Values();
      Int128Image(value);
      SerializeU64(value.low);
      SerializeI64(value.high);
    }

    /** A `size_t` index cut to 32 bits. */
    method SerializeVariantIndex(value: nat)
      requires IsUnsigned(value, 64)
      modifies this
      ensures bytes == old(bytes) + Encode(Wrap(value, 32))
    {
      Pow2Values();
      SerializeU32AsUleb128(Wrap(value, 32));
    }

    method SerializeOptionTag(value: bool)
      modifies this
      ensures bytes == old(bytes) + [BoolByte(value)]
    {
      SerializeBool(value);
    }

    method GetBufferOffset() returns (r: nat)
      ensures r == |bytes|
    {
      return |bytes|;
    }

    /** Rewrites the entries recorded at `offsets` (the last one running to
      * the end of the buffer) in lexicographic order. */
    method SortLastEntries(offsets: seq<nat>)
      requires ValidCuts(offsets, |bytes|)
      modifies this
      ensures bytes == LexOrder.SortLastEntries(old(bytes), offsets)
    {
      bytes := RewriteSorted(bytes, offsets);
    }
  }

  class LcsDeserializer {
    /** `bytes_`, the whole input. */
    const input: seq<byte>
    /** `pos_`, the read position. */
    var pos: nat

    constructor (bytes: seq<byte>)
      ensures input == bytes && pos == 0
    {
      input := bytes;
      pos := 0;
    }

    /** `bytes_.at(pos_++)`: the position moves on even when `at` throws. */
    method ReadByte() returns (r: Result<byte>)
      modifies this
      ensures pos == old(pos) + 1
      ensures r.Ok? <==> old(pos) < |input|
      ensures r.Ok? ==> r.value == input[old(pos)]
      ensures r.Err? ==> r.error == TruncatedInput
    {
      if pos >= |input| {
        pos := pos + 1;
        return Err(TruncatedInput);
      }
      r := Ok(input[pos]);
      pos := pos + 1;
    }

    /** The `n` bytes of a fixed-width integer, low first, as the unrolled
      * `val |= (uintN_t)read_byte() << 8*i` of the readers. */
    method ReadLE(n: nat) returns (r: Result<nat>)
      requires n > 0
      modifies this
      ensures Matches(r, Fixed(input, old(pos), n), pos)
    {
      ghost var start := pos;
      var val := 0;
      var i := 0;
      while i < n
        invariant 0 <= i <= n && pos == start + i
        invariant i > 0 ==> start + i <= |input|
        invariant val == if i == 0 then 0 else FromLE(input[start..start + i])
      {
        var b :- ReadByte();
        assert val == FromLE(input[start..start + i]);
        FromLESnoc(input[start..start + i], b);
        SliceSnoc(input, start, start + i);
        val := val + b * Pow2(8 * i);
        i := i + 1;
      }
      return Ok(val);
    }

    /** `deserialize_uleb128_as_u32` as written: the digit is shifted as an
      * `int`, and a negative result sign-extends past 2^32 - 1. */
    method DeserializeUleb128AsU32AsWritten() returns (r: Result<nat>)
      modifies this
      ensures Reports(r, Decode(AsWritten, input, old(pos)))
      ensures r.Ok? ==> pos == Decode(AsWritten, input, old(pos)).value.1
    {
      ghost var out := Decode(AsWritten, input, pos);
      var value: nat := 0;
      var shift := 0;
      while shift < 32
        invariant shift % 7 == 0 && shift <= 35 && value < Weight(shift)
        invariant Loop(AsWritten, input, pos, shift, value) == out
        decreases 32 - shift
      {
        ReadStep(AsWritten, input, pos, shift, value, out);
        var b :- ReadByte();
        var digit := b % 0x80;
        Int32ShiftWraps(true, digit, shift);
        var acc := value + Int32Of(digit * Weight(shift));
        DigitStep(AsWritten, input, pos - 1, shift, value, out, acc);
        if acc < 0 || acc > MaxU32 {
          return Err(VarintOverflow);
        }
        value := acc;
        if digit == b {
          if shift > 0 && digit == 0 {
            return Err(NonCanonicalVarint);
          }
          return Ok(value);
        }
        shift := shift + 7;
      }
      ReadEnd(AsWritten, input, pos, shift, value, out);
      return Err(VarintOverflow);
    }

    /** `deserialize_uleb128_as_u32` with the digit widened to 64 bits
      * before the shift, as the BCS runtime does. */
    method DeserializeUleb128AsU32() returns (r: Result<nat>)
      modifies this
      ensures Reports(r, Decode(Intended, input, old(pos)))
      ensures r.Ok? ==> pos == Decode(Intended, input, old(pos)).value.1
    {
      ghost var out := Decode(Intended, input, pos);
      var value: nat := 0;
      var shift := 0;
      while shift < 32
        invariant shift % 7 == 0 && shift <= 35 && value < Weight(shift)
        invariant Loop(Intended, input, pos, shift, value) == out
        decreases 32 - shift
      {
        ReadStep(Intended, input, pos, shift, value, out);
        var b :- ReadByte();
        var digit := b % 0x80;
        var acc := value + digit * Weight(shift);
        DigitStep(Intended, input, pos - 1, shift, value, out, acc);
        if acc > MaxU32 {
          return Err(VarintOverflow);
        }
        value := acc;
        if digit == b {
          if shift > 0 && digit == 0 {
            return Err(NonCanonicalVarint);
          }
          return Ok(value);
        }
        shift := shift + 7;
      }
      ReadEnd(Intended, input, pos, shift, value, out);
      return Err(VarintOverflow);
    }

    /** A length above 2^31 throws. */
    method DeserializeLen() returns (r: Result<nat>)
      modifies this
      ensures Matches(r, DecodeLength(Intended, input, old(pos), MaxLength), pos)
    {
      var value :- DeserializeUleb128AsU32();
      if value > MaxLength {
        return Err(LengthTooLarge);
      }
      return Ok(value);
    }

    /** The length, then that many bytes, one `read_byte` at a time. */
    method DeserializeStr() returns (r: Result<seq<byte>>)
      modifies this
      ensures Matches(r, LengthPrefixed(Intended, input, old(pos), MaxLength), pos)
    {
      var len :- DeserializeLen();
      ghost var start := pos;
      var result: seq<byte> := [];
      var i := 0;
      while i < len
        invariant 0 <= i <= len && pos == start + i && start + i <= |input|
        invariant result == input[start..start + i]
      {
        var b :- ReadByte();
        result := result + [b];
        i := i + 1;
      }
      return Ok(result);
    }

    method DeserializeUnsupported() returns (r: Result<()>)
      ensures r == Err(NotImplemented)
    {
      return Err(NotImplemented);
    }

    /** `(bool)read_byte()`: any non-zero byte is true. */
    method DeserializeBool() returns (r: Result<bool>)
      modifies this
      ensures Matches(r, ReadBool(input, old(pos), Nonzero), pos)
    {
      var b :- ReadByte();
      return Ok(b != 0);
    }

    method DeserializeU8() returns (r: Result<nat>)
      modifies this
      ensures Matches(r, Fixed(input, old(pos), 1), pos)
    {
      var b :- ReadByte();
      assert input[old(pos)..old(pos) + 1] == [b];
      assert FromLE([b]) == b + 256 * FromLE([]);
      return Ok(b);
    }

    method DeserializeU16() returns (r: Result<nat>)
      modifies this
      ensures Matches(r, Fixed(input, old(pos), 2), pos)
    {
      r := ReadLE(2);
    }

    method DeserializeU32() returns (r: Result<nat>)
      modifies this
      ensures Matches(r, Fixed(input, old(pos), 4), pos)
    {
      r := ReadLE(4);
    }

    method DeserializeU64() returns (r: Result<nat>)
      modifies this
      ensures Matches(r, Fixed(input, old(pos), 8), pos)
    {
      r := ReadLE(8);
    }

    /** The low word, then the high word. */
    method DeserializeU128() returns (r: Result<Uint128>)
      modifies this
      ensures Matches(r, Fixed128(input, old(pos)), pos)
    {
      var low :- DeserializeU64();
      var high :- DeserializeU64();
      return Ok(Uint128(high, low));
    }

    /** The signed readers cast the unsigned value of the same width. */
    method DeserializeI8() returns (r: Result<int>)
      modifies this
      ensures Matches(r, SignedFixed(input, old(pos), 1), pos)
    {
      var u :- DeserializeU8();
      return Ok(ToSigned(u, 8));
    }

    method DeserializeI16() returns (r: Result<int>)
      modifies this
      ensures Matches(r, SignedFixed(input, old(pos), 2), pos)
    {
      var u :- DeserializeU16();
      return Ok(ToSigned(u, 16));
    }

    method DeserializeI32() returns (r: Result<int>)
      modifies this
      ensures Matches(r, SignedFixed(input, old(pos), 4), pos)
    {
      var u :- DeserializeU32();
      return Ok(ToSigned(u, 32));
    }

    method DeserializeI64() returns (r: Result<int>)
      modifies this
      ensures Matches(r, SignedFixed(input, old(pos), 8), pos)
    {
      var u :- DeserializeU64();
      return Ok(ToSigned(u, 64));
    }

    /** The low word, then the signed high word. */
    method DeserializeI128() returns (r: Result<Int128>)
      modifies this
      ensures Matches(r, SignedFixed128(input, old(pos)), pos)
    {
      var low :- DeserializeU64();
      var high :- DeserializeI64();
      return Ok(Int128(high, low));
    }

    method DeserializeVariantIndex() returns (r: Result<nat>)
      modifies this
      ensures Reports(r, Decode(Intended, input, old(pos)))
      ensures r.Ok? ==> pos == Decode(Intended, input, old(pos)).value.1
    {
      r := DeserializeUleb128AsU32();
    }

    method DeserializeOptionTag() returns (r: Result<bool>)
      modifies this
      ensures Matches(r, ReadBool(input, old(pos), Nonzero), pos)
    {
      r := DeserializeBool();
    }

    method GetBufferOffset() returns (r: nat)
      ensures r == pos
    {
      return pos;
    }

    /** Keys are (start, end) offsets into the input; the first must sort
      * strictly below the second. */
    method CheckThatKeySlicesAreIncreasing(key1: (nat, nat), key2: (nat, nat)) returns (r: Result<()>)
      requires key1.0 <= key1.1 <= |input| && key2.0 <= key2.1 <= |input|
      ensures r.Ok? <==> Less(input[key1.0..key1.1], input[key2.0..key2.1])
      ensures r.Err? ==> r.error == KeysOutOfOrder
    {
      if !Less(input[key1.0..key1.1], input[key2.0..key2.1]) {
        return Err(KeysOutOfOrder);
      }
      return Ok(());
    }
  }
}
