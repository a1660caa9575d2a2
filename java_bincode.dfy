/**
  * The Java bincode serializer of the `bincode` package: little-endian
  * fixed-width integers written byte by byte into a
  * `java.io.ByteArrayOutputStream`, 64-bit lengths, 32-bit variant indices,
  * and no map ordering. Java has no unsigned integers, so each `u*` writer
  * takes the signed Java value that carries the same bits; `u128` and `i128`
  * go through `BigInteger.toByteArray()`.
  */
module JavaBincode {
  import opened Wire
  import opened JavaCommon

  /** Appending the next byte of a value to its little-endian image. */
  lemma LESnoc(v: nat, i: nat)
    ensures LE(v, i + 1) == LE(v, i) + [ByteAt(v, i)]
  {
    assert LE(v, i + 1)[..i] == LE(v, i);
  }

  /** For a 128-bit value, the last `len` bytes of `toByteArray()`, from
    * the back, are the value's low bytes and the bytes above them up to the
    * sixteenth are zero. */
  lemma U128Bytes(v: nat, len: nat)
    requires IsUnsigned(v, 128) && len == if |ToByteArray(v)| < 16 then |ToByteArray(v)| else 16
    ensures len <= |ToByteArray(v)|
    ensures forall i :: 0 <= i < len ==> ToByteArray(v)[|ToByteArray(v)| - 1 - i] == ByteAt(v, i)
    ensures forall i :: len <= i < 16 ==> ByteAt(v, i) == 0
  {
    ToByteArrayOf128(v);
    forall i | 0 <= i < len
      ensures ToByteArray(v)[|ToByteArray(v)| - 1 - i] == ByteAt(v, i)
    {
      BackByte(v, i);
    }
    forall i | len <= i < 16
      ensures ByteAt(v, i) == 0
    {
      ZeroAbove(v, len, i);
    }
  }

  /** Byte `i` from the back of `toByteArray()` is byte `i` of the value. */
  lemma BackByte(v: nat, i: nat)
    requires i < |ToByteArray(v)|
    ensures ToByteArray(v)[|ToByteArray(v)| - 1 - i] == ByteAt(v, i)
  {
    var r := ToByteArray(v);
    var j := |r| - 1 - i;
    assert r[j] == ByteAt(v, |r| - 1 - j);
  }

  /** Past the bytes of `toByteArray()` there are only zeros. */
  lemma ZeroAbove(v: nat, len: nat, i: nat)
    requires len <= i && (len < 16 ==> v < Pow2(8 * len)) && i < 16
    ensures ByteAt(v, i) == 0
  {
    Pow2Monotone(8 * len, 8 * i);
    ByteAtAbove(v, i);
  }

  /** Moving a negative value up by 2^bits gives its unsigned image. */
  lemma UnsignedImage(v: int, bits: nat)
    requires bits > 0 && IsSigned(v, bits)
    ensures v >= 0 ==> IsUnsigned(v, bits) && Wrap(v, bits) == v
    ensures v < 0 ==> IsUnsigned(v + Pow2(bits), bits) && Wrap(v, bits) == v + Pow2(bits)
  {
    SignedWrap(v, bits);
  }

  class BincodeSerializer {
    /** The output stream's content. */
    var bytes: seq<byte>

    constructor ()
      ensures bytes == []
    {
      bytes := [];
    }

    /** The length as a `u64`, then the bytes; `value` is a Java array, so
      * its length is an `int`. */
    method SerializeBytes(value: seq<byte>)
      requires |value| <= 0x7FFF_FFFF
      modifies this
      ensures bytes == old(bytes) + LE(|value|, 8) + value
    {
      Pow2Monotone(31, 63);
      Int32Bounds();
      SignedWrap(|value|, 64);
      SerializeLen(|value|);
      bytes := bytes + value;
    }

    /** `value.getBytes()`, then as bytes (the charset is not modelled). */
    method SerializeStr(value: seq<byte>)
      requires |value| <= 0x7FFF_FFFF
      modifies this
      ensures bytes == old(bytes) + LE(|value|, 8) + value
    {
      SerializeBytes(value);
    }

    method SerializeBool(value: bool)
      modifies this
      ensures bytes == old(bytes) + [BoolByte(value)]
    {
      bytes := bytes + [if value then 1 else 0];
    }

    /** `serialize_char`, `serialize_f32` and `serialize_f64` throw and write
      * nothing. */
    method SerializeUnsupported() returns (r: Result<()>)
      ensures r == Err(NotImplemented)
    {
      return Err(NotImplemented);
    }

    /** `output.write(value.byteValue())`: the byte's 8 bits. */
    method SerializeU8(value: int)
      requires IsSigned(value, 8)
      modifies this
      ensures bytes == old(bytes) + LE(Wrap(value, 8), 1)
    {
      var u := Wrap(value, 8);
      LEBytes(u);
      bytes := bytes + [ByteAt(u, 0)];
    }

    /** `(byte) (val >>> 8 * k)` for each byte `k` of the `short`. */
    method SerializeU16(value: int)
      requires IsSigned(value, 16)
      modifies this
      ensures bytes == old(bytes) + LE(Wrap(value, 16), 2)
    {
      var u := Wrap(value, 16);
      LEBytes(u);
      bytes := bytes + [ByteAt(u, 0), ByteAt(u, 1)];
    }

    method SerializeU32(value: int)
      requires IsSigned(value, 32)
      modifies this
      ensures bytes == old(bytes) + LE(Wrap(value, 32), 4)
    {
      var u := Wrap(value, 32);
      LEBytes(u);
      bytes := bytes + [ByteAt(u, 0), ByteAt(u, 1), ByteAt(u, 2), ByteAt(u, 3)];
    }

    method SerializeU64(value: int)
      requires IsSigned(value, 64)
      modifies this
      ensures bytes == old(bytes) + LE(Wrap(value, 64), 8)
    {
      var u := Wrap(value, 64);
      LEBytes(u);
      bytes := bytes + [ByteAt(u, 0), ByteAt(u, 1), ByteAt(u, 2), ByteAt(u, 3),
                        ByteAt(u, 4), ByteAt(u, 5), ByteAt(u, 6), ByteAt(u, 7)];
    }

    /** The value's `toByteArray()` bytes from the back, at most sixteen of
      * them (a seventeenth, in front, is the zero sign byte), then zeros up
      * to sixteen: the 16-byte little-endian image. The Java `assert`s that
      * the value is in [0, 2^128) are the precondition. */
    method SerializeU128(value: nat)
      requires IsUnsigned(value, 128)
      modifies this
      ensures bytes == old(bytes) + LE(value, 16)
    {
      var content := ToByteArray(value);
      var len := if |content| < 16 then |content| else 16;
      U128Bytes(value, len);
      for i := 0 to len
        invariant bytes == old(bytes) + LE(value, i)
      {
        LESnoc(value, i);
        bytes := bytes + [content[|content| - 1 - i]];
      }
      for i := len to 16
        invariant bytes == old(bytes) + LE(value, i)
      {
        LESnoc(value, i);
        bytes := bytes + [0];
      }
    }

    method SerializeI8(value: int)
      requires IsSigned(value, 8)
      modifies this
      ensures bytes == old(bytes) + LE(Wrap(value, 8), 1)
    {
      SerializeU8(value);
    }

    method SerializeI16(value: int)
      requires IsSigned(value, 16)
      modifies this
      ensures bytes == old(bytes) + LE(Wrap(value, 16), 2)
    {
      SerializeU16(value);
    }

    method SerializeI32(value: int)
      requires IsSigned(value, 32)
      modifies this
      ensures bytes == old(bytes) + LE(Wrap(value, 32), 4)
    {
      SerializeU32(value);
    }

    method SerializeI64(value: int)
      requires IsSigned(value, 64)
      modifies this
      ensures bytes == old(bytes) + LE(Wrap(value, 64), 8)
    {
      SerializeU64(value);
    }

    /** A negative value is moved up by 2^128 and written as a `u128`: its
      * 128-bit two's complement image. */
    method SerializeI128(value: int)
      requires IsSigned(value, 128)
      modifies this
      ensures bytes == old(bytes) + LE(Wrap(value, 128), 16)
    {
      UnsignedImage(value, 128);
      if value >= 0 {
        SerializeU128(value);
      } else {
        SerializeU128(value + Pow2(128));
      }
    }

    /** A `long` length, as a `u64`. */
    method SerializeLen(value: int)
      requires IsSigned(value, 64)
      modifies this
      ensures bytes == old(bytes) + LE(Wrap(value, 64), 8)
    {
      SerializeU64(value);
    }

    /** An `int` variant index, as a `u32`. */
    method SerializeVariantIndex(value: int)
      requires IsSigned(value, 32)
      modifies this
      ensures bytes == old(bytes) + LE(Wrap(value, 32), 4)
    {
      SerializeU32(value);
    }

    method SerializeOptionTag(value: bool)
      modifies this
      ensures bytes == old(bytes) + [BoolByte(value)]
    {
      bytes := bytes + [if value then 1 else 0];
    }

    /** The stream's size: the bytes written so far. */
    method GetBufferOffset() returns (r: nat)
      ensures r == |bytes|
    {
      return |bytes|;
    }

    /** Bincode leaves map entries in insertion order. */
    method SortMapEntries(offsets: seq<nat>)
      ensures bytes == old(bytes)
    {
    }

    method GetBytes() returns (r: seq<byte>)
      ensures r == bytes
    {
      return bytes;
    }
  }

  /** What the `i*` writers put down, the Java readers of the same width
    * (`get`, `getShort`, `getInt`, `getLong` and the reversed `BigInteger`)
    * read back. */
  lemma SignedRoundTrip(prefix: seq<byte>, value: int, n: nat, rest: seq<byte>)
    requires n in {1, 2, 4, 8, 16} && IsSigned(value, 8 * n)
    ensures SignedFixed(prefix + LE(Wrap(value, 8 * n), n) + rest, |prefix|, n) == Ok((value, |prefix| + n))
  {
    SignedFixedOfLE(prefix, value, n, rest);
  }

  /** The `u*` writers take the signed carrier of an unsigned value; what
    * they write reads back as that unsigned value. */
  lemma UnsignedRoundTrip(prefix: seq<byte>, value: nat, n: nat, rest: seq<byte>)
    requires n > 0 && IsUnsigned(value, 8 * n)
    ensures var carrier := ToSigned(value, 8 * n);
      IsSigned(carrier, 8 * n) &&
      Fixed(prefix + LE(Wrap(carrier, 8 * n), n) + rest, |prefix|, n) == Ok((value, |prefix| + n))
  {
    WrapSigned(value, 8 * n);
    FixedOfLE(prefix, value, n, rest);
  }

  /** A length written by `serialize_bytes` reads back with the bytes. */
  lemma BytesRoundTrip(prefix: seq<byte>, s: seq<byte>, rest: seq<byte>)
    requires |s| <= 0x7FFF_FFFF
    ensures var input := prefix + LE(|s|, 8) + s + rest;
      Fixed(input, |prefix|, 8) == Ok((|s|, |prefix| + 8)) &&
      Take(input, |prefix| + 8, |s|) == Ok((s, |prefix| + 8 + |s|))
  {
    Pow2Monotone(31, 64);
    Int32Bounds();
    FixedOfLE(prefix, |s|, 8, s + rest);
    assert prefix + LE(|s|, 8) + s + rest == prefix + LE(|s|, 8) + (s + rest);
    TakeOf(prefix + LE(|s|, 8), s, rest);
  }
}
