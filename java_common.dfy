/**
  * What the Java runtimes share: the two `java.math.BigInteger` conversions
  * they use for 128-bit integers (the byte-array constructor and
  * `toByteArray`), the signed carriers of unsigned values, and the ULEB128
  * arithmetic of the Java LCS decoders, which shift each digit as a 32-bit
  * `int` (the `Int32Shift` dialect).
  */
module JavaCommon {
  import opened Wire
  import opened Uleb128

  /** `bs` back to front. */
  function Reverse(bs: seq<byte>): (r: seq<byte>)
    ensures |r| == |bs|
    ensures forall i :: 0 <= i < |bs| ==> r[i] == bs[|bs| - 1 - i]
  {
    if |bs| == 0 then [] else Reverse(bs[1..]) + [bs[0]]
  }

  /** The unsigned integer whose big-endian image is `bs`. */
  function FromBE(bs: seq<byte>): nat
  {
    if |bs| == 0 then 0 else FromBE(bs[..|bs| - 1]) * 256 + bs[|bs| - 1]
  }

  /** Reading the reversed bytes big-endian is reading the bytes
    * little-endian. */
  lemma {:induction false} FromBEReverse(bs: seq<byte>)
    ensures FromBE(Reverse(bs)) == FromLE(bs)
  {
    if |bs| > 0 {
      var r := Reverse(bs);
      assert r == Reverse(bs[1..]) + [bs[0]];
      assert r[..|r| - 1] == Reverse(bs[1..]);
      FromBEReverse(bs[1..]);
    }
  }

  /** `new BigInteger(bs)`: the integer whose big-endian two's complement
    * image is `bs`. */
  function BigIntegerOf(bs: seq<byte>): int
    requires |bs| > 0
  {
    ToSigned(FromBE(bs), 8 * |bs|)
  }

  /** The length of `toByteArray()` for a non-negative value: the fewest
    * bytes whose two's complement holds `v` with the sign bit clear. */
  function ByteLength(v: nat): (n: nat)
    ensures n >= 1 && v < Pow2(8 * n - 1)
    ensures n > 1 ==> Pow2(8 * n - 9) <= v
    decreases v
  {
    if v < 0x80 then
      ByteBounds();
      1
    else
      var k := ByteLength(v / 256);
      ByteBounds();
      Pow2Add(8, 8 * k - 1);
      if k > 1 then
        Pow2Add(8, 8 * k - 9);
        1 + k
      else
        1 + k
  }

  lemma ByteBounds()
    ensures Pow2(7) == 0x80 && Pow2(8) == 0x100
  {
    assert Pow2(7) == 0x80;
    assert Pow2(8) == 2 * Pow2(7);
  }

  /** `toByteArray()` of a non-negative value: its big-endian image in
    * `ByteLength(v)` bytes. */
  function ToByteArray(v: nat): (r: seq<byte>)
    ensures |r| == ByteLength(v)
    ensures forall i :: 0 <= i < |r| ==> r[i] == ByteAt(v, |r| - 1 - i)
  {
    Reverse(LE(v, ByteLength(v)))
  }

  /** A byte above the top of a value is zero. */
  lemma ByteAtAbove(v: nat, i: nat)
    requires v < Pow2(8 * i)
    ensures ByteAt(v, i) == 0
  {
    DivModUnique(v, Pow2(8 * i), 0, v);
  }

  /** The two conversions are inverse: the constructor gives back the value
    * `toByteArray` was called on. */
  lemma BigIntegerOfToByteArray(v: nat)
    ensures BigIntegerOf(ToByteArray(v)) == v
  {
    var n := ByteLength(v);
    var r := ToByteArray(v);
    assert r == Reverse(LE(v, n)) && |r| == n;
    FromBEReverse(LE(v, n));
    Pow2Monotone(8 * n - 1, 8 * n);
    FromLEOfLE(v, n);
    assert FromBE(r) == v;
    assert v < Pow2(8 * n - 1);
    assert ToSigned(v, 8 * n) == v;
  }

  /** For a 128-bit unsigned value `toByteArray` has at most 17 bytes, and
    * the 17th, in front, is the zero sign byte: the 16 bytes behind it are
    * the whole value. */
  lemma ToByteArrayOf128(v: nat)
    requires IsUnsigned(v, 128)
    ensures |ToByteArray(v)| <= 17
    ensures |ToByteArray(v)| == 17 ==> ToByteArray(v)[0] == 0
    ensures |ToByteArray(v)| < 16 ==> v < Pow2(8 * |ToByteArray(v)|)
  {
    ToByteArrayOfWidth(v, 16);
  }

  lemma ToByteArrayOfWidth(v: nat, k: nat)
    requires v < Pow2(8 * k)
    ensures |ToByteArray(v)| <= k + 1
    ensures |ToByteArray(v)| == k + 1 ==> ToByteArray(v)[0] == 0
    ensures |ToByteArray(v)| < k ==> v < Pow2(8 * |ToByteArray(v)|)
  {
    var n := ByteLength(v);
    if n > k + 1 {
      Pow2Monotone(8 * k, 8 * n - 9);
      assert false;
    }
    if n == k + 1 {
      ByteAtAbove(v, k);
    }
    Pow2Monotone(8 * n - 1, 8 * n);
  }

  /** Java has no unsigned integers: the unsigned readers return the signed
    * value of the same bits, whose `8 * n`-bit pattern is the unsigned
    * value. */
  lemma SignedCarrier(input: seq<byte>, pos: nat, n: nat)
    requires n > 0 && SignedFixed(input, pos, n).Ok?
    ensures Fixed(input, pos, n).Ok?
    ensures Wrap(SignedFixed(input, pos, n).value.0, 8 * n) == Fixed(input, pos, n).value.0
    ensures SignedFixed(input, pos, n).value.1 == Fixed(input, pos, n).value.1
  {
    FixedBound(input, pos, n);
    WrapSigned(Fixed(input, pos, n).value.0, 8 * n);
  }

  /** Reading the 16 bytes of an `i128` and adding 2^128 to a negative
    * result gives the unsigned reading of the same bytes. */
  lemma UnsignedOfSigned128(input: seq<byte>, pos: nat)
    requires SignedFixed(input, pos, 16).Ok?
    ensures var s := SignedFixed(input, pos, 16).value.0;
      Fixed(input, pos, 16) == Ok((if s >= 0 then s else s + Pow2(128), pos + 16))
  {
    UnsignedOfSigned(input, pos, 16);
  }

  lemma UnsignedOfSigned(input: seq<byte>, pos: nat, n: nat)
    requires n > 0 && SignedFixed(input, pos, n).Ok?
    ensures var s := SignedFixed(input, pos, n).value.0;
      Fixed(input, pos, n) == Ok((if s >= 0 then s else s + Pow2(8 * n), pos + n))
  {
    FixedBound(input, pos, n);
    assert Pow2(8 * n) == 2 * Pow2(8 * n - 1);
  }

  /** The ULEB128 dialect of the decoders whose only range test is
    * `value > Integer.MAX_VALUE`. */
  const Unguarded: Dialect := Int32Shift(false)
  /** The dialect of the decoders that also refuse a negative accumulator. */
  const Guarded: Dialect := Int32Shift(true)

  /** Every value the 32-bit-shift decoders accept is a Java `int`, so the
    * closing `(int) value` cast keeps it; with the negativity test it is
    * also non-negative. */
  lemma {:induction false} Int32ShiftRange(rejectNegative: bool, input: seq<byte>, pos: nat, shift: nat, value: int)
    requires shift % 7 == 0 && 0 <= value < Weight(shift)
    requires Loop(Int32Shift(rejectNegative), input, pos, shift, value).Ok?
    ensures var v := Loop(Int32Shift(rejectNegative), input, pos, shift, value).value.0;
      -0x8000_0000 <= v <= MaxI32 && (rejectNegative ==> v >= 0)
    decreases 32 - shift
  {
    var d := Int32Shift(rejectNegative);
    var out := Loop(d, input, pos, shift, value);
    if shift < 32 {
      ReadStep(d, input, pos, shift, value, out);
      var digit := input[pos] % 0x80;
      var acc := value + Shifted(d, digit, shift);
      DigitStep(d, input, pos, shift, value, out, acc);
      if digit != input[pos] {
        if shift < 28 {
          assert 0 <= acc;
          Int32ShiftRange(rejectNegative, input, pos + 1, shift + 7, acc);
        }
      }
    }
  }

  /** A decoder reading the ULEB128 image of a whole Java `int` taken as
    * unsigned, the way the Java writers emit it: every non-negative `int`
    * comes back, and a negative one too unless the negativity test refuses
    * it. */
  lemma Int32ShiftRoundTrip(rejectNegative: bool, value: int, input: seq<byte>, pos: nat)
    requires IsSigned(value, 32) && At(Encode(Wrap(value, 32)), input, pos)
    ensures Decode(Int32Shift(rejectNegative), input, pos) ==
      if rejectNegative && value < 0 then Err(VarintOverflow)
      else Ok((value, pos + |Encode(Wrap(value, 32))|))
  {
    Int32Bounds();
    SignedWrap(value, 32);
    var u := Wrap(value, 32);
    if value >= 0 {
      assert u == value <= MaxI32;
      DecodeEncode(Int32Shift(rejectNegative), u, input, pos);
    } else {
      assert u == value + 0x1_0000_0000;
      NegativeRoundTrip(rejectNegative, value, input, pos);
    }
  }

  /** The bounds of a Java `int`. */
  lemma Int32Bounds()
    ensures Pow2(31) == 0x8000_0000 && Pow2(32) == 0x1_0000_0000
  {
    Pow2Values();
  }

  /** The negative half of Int32ShiftRoundTrip: five bytes, the last digit
    * between 8 and 15, whose shift by 28 sets the sign bit. */
  lemma NegativeRoundTrip(rejectNegative: bool, value: int, input: seq<byte>, pos: nat)
    requires -0x8000_0000 <= value < 0 && At(Encode(value + 0x1_0000_0000), input, pos)
    ensures |Encode(value + 0x1_0000_0000)| == 5
    ensures Decode(Int32Shift(rejectNegative), input, pos) ==
      if rejectNegative then Err(VarintOverflow) else Ok((value, pos + 5))
  {
    var d0, d1, d2, d3, d4 := FiveDigits(value + 0x1_0000_0000);
    var e := [d0 + 0x80, d1 + 0x80, d2 + 0x80, d3 + 0x80, d4];
    assert input[pos..pos + 5] == e;
    assert input[pos] == e[0] && input[pos + 1] == e[1] && input[pos + 2] == e[2];
    assert input[pos + 3] == e[3] && input[pos + 4] == e[4];
    FiveByteLoop(rejectNegative, input, pos, d0, d1, d2, d3, d4);
  }

  /** The decoding loop over five bytes whose last digit `d4` is 8 to 15. */
  lemma FiveByteLoop(rejectNegative: bool, input: seq<byte>, pos: nat, d0: nat, d1: nat, d2: nat, d3: nat, d4: nat)
    requires d0 < 0x80 && d1 < 0x80 && d2 < 0x80 && d3 < 0x80 && 8 <= d4 < 16 && pos + 5 <= |input|
    requires input[pos] == d0 + 0x80 && input[pos + 1] == d1 + 0x80 && input[pos + 2] == d2 + 0x80
    requires input[pos + 3] == d3 + 0x80 && input[pos + 4] == d4
    ensures var value := d0 + d1 * 0x80 + d2 * 0x4000 + d3 * 0x20_0000 + (d4 as int - 16) * 0x1000_0000;
      Decode(Int32Shift(rejectNegative), input, pos) ==
        if rejectNegative then Err(VarintOverflow) else Ok((value, pos + 5))
  {
    var d := Int32Shift(rejectNegative);
    var a1 := d0;
    var a2 := a1 + d1 * 0x80;
    var a3 := a2 + d2 * 0x4000;
    var a4 := a3 + d3 * 0x20_0000;
    FlaggedDigit(rejectNegative, input, pos, 0, 0, d0, a1);
    FlaggedDigit(rejectNegative, input, pos + 1, 7, a1, d1, a2);
    FlaggedDigit(rejectNegative, input, pos + 2, 14, a2, d2, a3);
    FlaggedDigit(rejectNegative, input, pos + 3, 21, a3, d3, a4);
    LoopStep(d, input, pos + 4, 28, a4);
    SignDigit(rejectNegative, d4);
  }

  /** One pass of the Java readers' ULEB128 loop over byte `x`, stated in
    * the loop's own terms: `x & 0x7F`, the `int` shift, and `digit == x`
    * for the last byte. */
  lemma JavaStep(rejectNegative: bool, input: seq<byte>, pos: nat, shift: nat, value: int, out: Result<(int, nat)>, x: byte, acc: int)
    requires shift % 7 == 0 && shift < 32 && Loop(Int32Shift(rejectNegative), input, pos, shift, value) == out
    requires pos < |input| && x == input[pos] && acc == value + Int32Of((x % 0x80) * Weight(shift))
    ensures (shift + 7) % 7 == 0 && shift + 7 <= 35
    ensures rejectNegative && 0 <= value < Weight(shift) ==> acc < Weight(shift + 7)
    ensures Rejected(Int32Shift(rejectNegative), acc) ==> out == Err(VarintOverflow)
    ensures !Rejected(Int32Shift(rejectNegative), acc) && x % 0x80 == x && shift > 0 && x % 0x80 == 0 ==>
      out == Err(NonCanonicalVarint)
    ensures !Rejected(Int32Shift(rejectNegative), acc) && x % 0x80 == x && !(shift > 0 && x % 0x80 == 0) ==>
      out == Ok((acc, pos + 1))
    ensures !Rejected(Int32Shift(rejectNegative), acc) && x % 0x80 != x ==>
      Loop(Int32Shift(rejectNegative), input, pos + 1, shift + 7, acc) == out
  {
    Int32ShiftWraps(rejectNegative, x % 0x80, shift);
    DigitStep(Int32Shift(rejectNegative), input, pos, shift, value, out, acc);
    if x < 0x80 {
      DivModUnique(x as int, 0x80, 0, x as int);
    } else {
      DivModUnique(x as int, 0x80, 1, x as int - 0x80);
    }
  }

  /** A fifth digit of 8 to 15 lands on the sign bit of the `int`. */
  lemma SignDigit(rejectNegative: bool, digit: nat)
    requires 8 <= digit < 16
    ensures digit % 0x80 == digit
    ensures Shifted(Int32Shift(rejectNegative), digit, 28) == (digit as int - 16) * 0x1000_0000
  {
    DivModUnique(digit, 16, 0, digit);
    DivModUnique(digit, 0x80, 0, digit);
  }

  /** A byte with the continuation flag and digit `digit`, below the fifth,
    * moves the loop on. */
  lemma FlaggedDigit(rejectNegative: bool, input: seq<byte>, pos: nat, shift: nat, value: int, digit: nat, acc: int)
    requires shift % 7 == 0 && shift < 28 && pos < |input| && digit < 0x80 && input[pos] == digit + 0x80
    requires acc == value + digit * Weight(shift) && 0 <= acc <= MaxI32
    ensures Loop(Int32Shift(rejectNegative), input, pos, shift, value) ==
      Loop(Int32Shift(rejectNegative), input, pos + 1, shift + 7, acc)
  {
    assert input[pos] % 0x80 == digit;
    Continue(Int32Shift(rejectNegative), input, pos, shift, value, acc);
  }

  /** The five ULEB128 digits of a 32-bit value at or above 2^31. */
  lemma FiveDigits(u: nat) returns (d0: nat, d1: nat, d2: nat, d3: nat, d4: nat)
    requires 0x8000_0000 <= u < 0x1_0000_0000
    ensures d0 < 0x80 && d1 < 0x80 && d2 < 0x80 && d3 < 0x80 && 8 <= d4 < 16
    ensures Encode(u) == [d0 + 0x80, d1 + 0x80, d2 + 0x80, d3 + 0x80, d4]
    ensures u == d0 + d1 * 0x80 + d2 * 0x4000 + d3 * 0x20_0000 + d4 * 0x1000_0000
  {
    var u1 := u / 0x80;
    var u2 := u1 / 0x80;
    var u3 := u2 / 0x80;
    d0, d1, d2, d3, d4 := u % 0x80, u1 % 0x80, u2 % 0x80, u3 % 0x80, u3 / 0x80;
    assert u == d0 + 0x80 * u1;
    assert u1 == d1 + 0x80 * u2;
    assert u2 == d2 + 0x80 * u3;
    assert u3 == d3 + 0x80 * d4;
    assert Encode(d4) == [d4];
    assert Encode(u3) == [d3 + 0x80] + Encode(d4);
    assert Encode(u2) == [d2 + 0x80] + Encode(u3);
    assert Encode(u1) == [d1 + 0x80] + Encode(u2);
    assert Encode(u) == [d0 + 0x80] + Encode(u1);
  }

  /** A byte run behind a ULEB128 length, as the Java LCS `deserialize_bytes`
    * reads it: a length outside [0, 2^31 - 1] is refused before any byte is
    * taken, and the buffer's `get` takes all the bytes or fails. */
  function LcsBytes(d: Dialect, input: seq<byte>, pos: nat): Result<(seq<byte>, nat)>
  {
    var (n, next) :- Decode(d, input, pos);
    if n < 0 || n > MaxI32 then Err(LengthTooLarge) else Take(input, next, n)
  }

  /** A byte run written as its ULEB128 length and then the bytes reads back
    * whole. */
  lemma LcsBytesOfWritten(d: Dialect, prefix: seq<byte>, s: seq<byte>, rest: seq<byte>)
    requires d.Int32Shift? && |s| <= MaxI32
    ensures LcsBytes(d, prefix + Encode(|s|) + s + rest, |prefix|) ==
      Ok((s, |prefix| + |Encode(|s|)| + |s|))
  {
    var input := prefix + Encode(|s|) + s + rest;
    assert input[|prefix|..|prefix| + |Encode(|s|)|] == Encode(|s|);
    DecodeEncode(d, |s|, input, |prefix|);
    assert input == (prefix + Encode(|s|)) + s + rest;
    TakeOf(prefix + Encode(|s|), s, rest);
  }
}
