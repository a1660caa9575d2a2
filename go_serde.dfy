/**
  * The Go binary base (`serde/binary_serializer.go` and
  * `serde/binary_deserializer.go`): `BinarySerializer` and
  * `BinaryDeserializer`, which the Go bincode and BCS runtimes embed. The
  * length writer and reader are callbacks that the embedding type supplies.
  */
module GoSerde {
  import opened Wire

  /** `n` zero bytes, the content of `make([]byte, n)`. */
  function Zeros(n: nat): (r: seq<byte>)
    ensures |r| == n && forall i :: 0 <= i < n ==> r[i] == 0
  {
    if n == 0 then [] else Zeros(n - 1) + [0]
  }

  /** `bytes.Buffer.Read` into a fresh slice of `n` zero bytes, its count
    * ignored: an empty buffer gives end-of-file unless `n` is 0; otherwise
    * whatever is left, up to `n` bytes, is copied in and the rest of the
    * slice stays zero. */
  function ReadPadded(input: seq<byte>, pos: nat, n: nat): (r: Result<(seq<byte>, nat)>)
    ensures r.Err? <==> pos >= |input| && n > 0
    ensures r.Ok? ==> |r.value.0| == n && pos <= r.value.1
    ensures r.Ok? && pos <= |input| ==> r.value.1 <= |input|
  {
    if pos >= |input| then
      (if n == 0 then Ok(([], pos)) else Err(TruncatedInput))
    else
      var k := if pos + n <= |input| then n else |input| - pos;
      Ok((input[pos..pos + k] + Zeros(n - k), pos + k))
  }

  /** With enough input left, the padded read is the exact read. */
  lemma ReadPaddedExact(input: seq<byte>, pos: nat, n: nat)
    requires pos + n <= |input|
    ensures ReadPadded(input, pos, n) == Take(input, pos, n)
  {
    if pos < |input| {
      assert input[pos..pos + n] + Zeros(0) == input[pos..pos + n];
    } else {
      assert n == 0 && input[pos..pos + n] == [];
    }
  }

  /** Short of input but not at its end, the padded read still succeeds:
    * the remaining bytes, then zeros up to the declared length, and the
    * whole input consumed. Only an empty remainder is an error. */
  lemma ReadPaddedShort(input: seq<byte>, pos: nat, n: nat)
    requires pos <= |input| < pos + n
    ensures Take(input, pos, n).Err?
    ensures ReadPadded(input, pos, n).Ok? <==> pos < |input|
    ensures pos < |input| ==>
      var (s, next) := ReadPadded(input, pos, n).value;
      |s| == n && next == |input| && s[..|input| - pos] == input[pos..] &&
      forall i :: |input| - pos <= i < n ==> s[i] == 0
  {
    if pos < |input| {
      var s := input[pos..] + Zeros(n - (|input| - pos));
      assert input[pos..pos + (|input| - pos)] == input[pos..];
      assert ReadPadded(input, pos, n) == Ok((s, |input| as nat));
      assert s[..|input| - pos] == input[pos..];
      forall i | |input| - pos <= i < n ensures s[i] == 0 {
        assert s[i] == Zeros(n - (|input| - pos))[i - (|input| - pos)];
      }
    }
  }

  /** The declared length of 2 over the single byte 7 reads as 7, 0. */
  lemma ReadPaddedExample()
    ensures ReadPadded([7], 0, 2) == Ok(([7, 0], 1))
  {
    var input: seq<byte> := [7];
    assert Zeros(1) == Zeros(0) + [0] == [0];
    assert input[0..1] + Zeros(1) == [7, 0];
    assert ReadPadded(input, 0, 2) == Ok((input[0..1] + Zeros(1), 1));
  }

  class BinarySerializer {
    /** `Buffer`, the output written so far. */
    var bytes: seq<byte>

    constructor ()
      ensures bytes == []
    {
      bytes := [];
    }

    /** The content, whole. The embedding serializer's length callback runs
      * first and its error is dropped, so this always succeeds. */
    method SerializeBytes(value: seq<byte>) returns (r: Result<()>)
      modifies this
      ensures r == Ok(()) && bytes == old(bytes) + value
    {
      bytes := bytes + value;
      return Ok(());
    }

    /** A Go string is its bytes. */
    method SerializeStr(value: seq<byte>) returns (r: Result<()>)
      modifies this
      ensures r == Ok(()) && bytes == old(bytes) + value
    {
      r := SerializeBytes(value);
    }

    /** char, f32 and f64 return "unimplemented" and write nothing. */
    method SerializeUnsupported() returns (r: Result<()>)
      ensures r == Err(NotImplemented)
    {
      return Err(NotImplemented);
    }

    method SerializeBool(value: bool)
      modifies this
      ensures bytes == old(bytes) + [BoolByte(value)]
    {
      bytes := bytes + [if value then 1 else 0];
    }

    method SerializeU8(value: nat)
      requires IsUnsigned(value, 8)
      modifies this
      ensures bytes == old(bytes) + LE(value, 1)
    {
      ByteAtByte(value);
      bytes := bytes + [value];
    }

    method SerializeU16(value: nat)
      requires IsUnsigned(value, 16)
      modifies this
      ensures bytes == old(bytes) + LE(value, 2)
    {
      LEBytes(value);
      bytes := bytes + [ByteAt(value, 0), ByteAt(value, 1)];
    }

    method SerializeU32(value: nat)
      requires IsUnsigned(value, 32)
      modifies this
      ensures bytes == old(bytes) + LE(value, 4)
    {
      LEBytes(value);
      bytes := bytes + [ByteAt(value, 0), ByteAt(value, 1), ByteAt(value, 2), ByteAt(value, 3)];
    }

    method SerializeU64(value: nat)
      requires IsUnsigned(value, 64)
      modifies this
      ensures bytes == old(bytes) + LE(value, 8)
    {
      LEBytes(value);
      bytes := bytes + [ByteAt(value, 0), ByteAt(value, 1), ByteAt(value, 2), ByteAt(value, 3),
                        ByteAt(value, 4), ByteAt(value, 5), ByteAt(value, 6), ByteAt(value, 7)];
    }

    /** The low word, then the high word: the 16-byte image of the value. */
    method SerializeU128(value: Uint128)
      requires value.Valid()
      modifies this
      ensures bytes == old(bytes) + LE(value.Value(), 16)
    {
      Pow2Values();
      Uint128Image(value);
      SerializeU64(value.low);
      SerializeU64(value.high);
    }

    /** The signed writers cast to the unsigned type of the same width. */
    method SerializeI8(value: int)
      requires IsSigned(value, 8)
      modifies this
      ensures bytes == old(bytes) + LE(Wrap(value, 8), 1)
    {
      SerializeU8(Wrap(value, 8));
    }

    method SerializeI16(value: int)
      requires IsSigned(value, 16)
      modifies this
      ensures bytes == old(bytes) + LE(Wrap(value, 16), 2)
    {
      SerializeU16(Wrap(value, 16));
    }

    method SerializeI32(value: int)
      requires IsSigned(value, 32)
      modifies this
      ensures bytes == old(bytes) + LE(Wrap(value, 32), 4)
    {
      SerializeU32(Wrap(value, 32));
    }

    method SerializeI64(value: int)
      requires IsSigned(value, 64)
      modifies this
      ensures bytes == old(bytes) + LE(Wrap(value, 64), 8)
    {
      SerializeU64(Wrap(value, 64));
    }

    /** The low word, then the signed high word: the 16-byte two's
      * complement image of the value. */
    method SerializeI128(value: Int128)
      requires value.Valid()
      modifies this
      ensures bytes == old(bytes) + LE(Wrap(value.Value(), 128), 16)
    {
      Pow2Values();
      Int128Image(value);
      SerializeU64(value.low);
      SerializeI64(value.high);
    }

    method SerializeOptionTag(value: bool)
      modifies this
      ensures bytes == old(bytes) + [BoolByte(value)]
    {
      SerializeBool(value);
    }

    /** The number of bytes written so far. */
    method GetBufferOffset() returns (r: nat)
      ensures r == |bytes|
    {
      return |bytes|;
    }
  }

  class BinaryDeserializer {
    /** `Input`, the whole input. */
    const input: seq<byte>
    /** How much of `Buffer` has been consumed: `Buffer` holds `input[pos..]`. */
    var pos: nat

    constructor (bytes: seq<byte>)
      ensures input == bytes && pos == 0 && Valid()
    {
      input := bytes;
      pos := 0;
    }

    /** The buffer never runs past the input. */
    predicate Valid()
      reads this
    {
      pos <= |input|
    }

    /** `Buffer.ReadByte`: end-of-file, without consuming, when the buffer is
      * empty. */
    method ReadByte() returns (r: Result<byte>)
      requires Valid()
      modifies this
      ensures Valid()
      ensures r.Ok? <==> old(pos) < |input|
      ensures r.Ok? ==> r.value == input[old(pos)] && pos == old(pos) + 1
      ensures r.Err? ==> r.error == TruncatedInput && pos == old(pos)
    {
      if pos == |input| {
        return Err(TruncatedInput);
      }
      r := Ok(input[pos]);
      pos := pos + 1;
    }

    /** The `for i := 0; i < 8*n; i += 8` loop of the readers:
      * `ret | T(b) << i`, low byte first. */
    method ReadLE(n: nat) returns (r: Result<nat>)
      requires Valid()
      modifies this
      ensures Valid()
      ensures Matches(r, Fixed(input, old(pos), n), pos)
    {
      ghost var start := pos;
      var ret := 0;
      var i := 0;
      while i < n
        invariant 0 <= i <= n && pos == start + i <= |input|
        invariant ret == FromLE(input[start..start + i])
      {
        var b :- ReadByte();
        FromLESnoc(input[start..start + i], b);
        SliceSnoc(input, start, start + i);
        ret := ret + b * Pow2(8 * i);
        i := i + 1;
      }
      return Ok(ret);
    }

    /** `len` is what the embedding deserializer's length callback returned;
      * its error is passed on, otherwise `Buffer.Read` fills a slice of
      * that length. */
    method DeserializeBytes(len: Result<nat>) returns (r: Result<seq<byte>>)
      requires Valid()
      modifies this
      ensures Valid()
      ensures len.Err? ==> r == Err(len.error) && pos == old(pos)
      ensures len.Ok? ==> Matches(r, ReadPadded(input, old(pos), len.value), pos)
    {
      var n :- len;
      if pos == |input| {
        if n == 0 {
          return Ok([]);
        }
        return Err(TruncatedInput);
      }
      var k := if pos + n <= |input| then n else |input| - pos;
      var ret := input[pos..pos + k] + Zeros(n - k);
      pos := pos + k;
      return Ok(ret);
    }

    /** `string(bytes)`: the bytes as they are. */
    method DeserializeStr(len: Result<nat>) returns (r: Result<seq<byte>>)
      requires Valid()
      modifies this
      ensures Valid()
      ensures len.Err? ==> r == Err(len.error) && pos == old(pos)
      ensures len.Ok? ==> Matches(r, ReadPadded(input, old(pos), len.value), pos)
    {
      r := DeserializeBytes(len);
    }

    /** Only 0 and 1 are booleans. */
    method DeserializeBool() returns (r: Result<bool>)
      requires Valid()
      modifies this
      ensures Valid()
      ensures Matches(r, ReadBool(input, old(pos), Strict), pos)
    {
      var b :- ReadByte();
      if b == 0 {
        return Ok(false);
      } else if b == 1 {
        return Ok(true);
      }
      return Err(InvalidBool);
    }

    /** char, f32 and f64 return "unimplemented". */
    method DeserializeUnsupported() returns (r: Result<()>)
      ensures r == Err(NotImplemented)
    {
      return Err(NotImplemented);
    }

    method DeserializeU8() returns (r: Result<nat>)
      requires Valid()
      modifies this
      ensures Valid()
      ensures Matches(r, Fixed(input, old(pos), 1), pos)
    {
      var b :- ReadByte();
      assert input[old(pos)..old(pos) + 1] == [b];
      assert FromLE([b]) == b + 256 * FromLE([]);
      return Ok(b);
    }

    method DeserializeU16() returns (r: Result<nat>)
      requires Valid()
      modifies this
      ensures Valid()
      ensures Matches(r, Fixed(input, old(pos), 2), pos)
    {
      r := ReadLE(2);
    }

    method DeserializeU32() returns (r: Result<nat>)
      requires Valid()
      modifies this
      ensures Valid()
      ensures Matches(r, Fixed(input, old(pos), 4), pos)
    {
      r := ReadLE(4);
    }

    method DeserializeU64() returns (r: Result<nat>)
      requires Valid()
      modifies this
      ensures Valid()
      ensures Matches(r, Fixed(input, old(pos), 8), pos)
    {
      r := ReadLE(8);
    }

    /** The low word, then the high word. */
    method DeserializeU128() returns (r: Result<Uint128>)
      requires Valid()
      modifies this
      ensures Valid()
      ensures Matches(r, Fixed128(input, old(pos)), pos)
    {
      var low :- DeserializeU64();
      var high :- DeserializeU64();
      return Ok(Uint128(high, low));
    }

    /** The signed readers cast the unsigned value of the same width. */
    method DeserializeI8() returns (r: Result<int>)
      requires Valid()
      modifies this
      ensures Valid()
      ensures Matches(r, SignedFixed(input, old(pos), 1), pos)
    {
      var u :- DeserializeU8();
      return Ok(ToSigned(u, 8));
    }

    method DeserializeI16() returns (r: Result<int>)
      requires Valid()
      modifies this
      ensures Valid()
      ensures Matches(r, SignedFixed(input, old(pos), 2), pos)
    {
      var u :- DeserializeU16();
      return Ok(ToSigned(u, 16));
    }

    method DeserializeI32() returns (r: Result<int>)
      requires Valid()
      modifies this
      ensures Valid()
      ensures Matches(r, SignedFixed(input, old(pos), 4), pos)
    {
      var u :- DeserializeU32();
      return Ok(ToSigned(u, 32));
    }

    method DeserializeI64() returns (r: Result<int>)
      requires Valid()
      modifies this
      ensures Valid()
      ensures Matches(r, SignedFixed(input, old(pos), 8), pos)
    {
      var u :- DeserializeU64();
      return Ok(ToSigned(u, 64));
    }

    /** The low word, then the signed high word. */
    method DeserializeI128() returns (r: Result<Int128>)
      requires Valid()
      modifies this
      ensures Valid()
      ensures Matches(r, SignedFixed128(input, old(pos)), pos)
    {
      var low :- DeserializeU64();
      var high :- DeserializeI64();
      return Ok(Int128(high, low));
    }

    method DeserializeOptionTag() returns (r: Result<bool>)
      requires Valid()
      modifies this
      ensures Valid()
      ensures Matches(r, ReadBool(input, old(pos), Strict), pos)
    {
      r := DeserializeBool();
    }

    /** `len(Input) - Buffer.Len()`: the number of bytes consumed. */
    method GetBufferOffset() returns (r: nat)
      requires Valid()
      ensures r == pos
    {
      return |input| - (|input| - pos);
    }
  }
}
