/**
  * Unsigned LEB128 (section 7.6 of DWARF version 4) as the runtimes use it for
  * lengths and variant indices: seven data bits per byte, least significant
  * group first, bit 0x80 set on every byte but the last.
  *
  * The decoders of the runtimes share one loop (at most five bytes, shifts 0,
  * 7, 14, 21, 28) and differ in the arithmetic of one step, captured here by a
  * `Dialect`.
  */
module Uleb128 {
  import opened Wire

  const MaxU32: int := 0xFFFF_FFFF
  const MaxI32: int := 0x7FFF_FFFF

  /** The ULEB128 image of `v`. */
  function Encode(v: nat): (r: seq<byte>)
    ensures |r| >= 1
    decreases v
  {
    if v < 0x80 then [v] else [v % 0x80 + 0x80] + Encode(v / 0x80)
  }

  /** How one decoding step shifts a digit and bounds the accumulator.
    * Wide: the digit is shifted in 64-bit arithmetic (no loss) and the
    * accumulator may not exceed `ceiling` (C++ and Go: 2^32 - 1).
    * Int32Shift: the digit is shifted as a 32-bit signed `int` (Java, and the
    * C++ LCS runtime, which does not widen the digit first), which wraps and
    * is then sign-extended into the 64-bit accumulator; the accumulator may
    * not exceed 2^31 - 1 and, if `rejectNegative`, may not be negative either
    * (see Int32ShiftBound for why this is also the C++ test against
    * 2^32 - 1). */
  datatype Dialect = Wide(ceiling: nat) | Int32Shift(rejectNegative: bool)

  /** The largest value a dialect promises to accept. */
  function Ceiling(d: Dialect): int
  {
    match d
    case Wide(c) => c
    case Int32Shift(_) => MaxI32
  }

  /** 2^shift for the shifts of the loop: 0, 7, 14, 21, 28, and 35 where it
    * stops. */
  function Weight(shift: nat): nat
    requires shift % 7 == 0
  {
    if shift == 0 then 1
    else if shift == 7 then 0x80
    else if shift == 14 then 0x4000
    else if shift == 21 then 0x20_0000
    else if shift == 28 then 0x1000_0000
    else 0x8_0000_0000
  }

  lemma WeightIsPow2(shift: nat)
    requires shift % 7 == 0 && shift <= 35
    ensures Weight(shift) == Pow2(shift)
  {
    Pow2Values();
  }

  /** The term a digit adds at a shift. Adding it is the same as the sources'
    * bitwise or, because the accumulator holds only bits below `shift`.
    * With a 32-bit `int` only the fifth digit can leave it: its low four
    * bits land in bits 28 to 31 and bit 31 is the sign (see Int32ShiftWraps). */
  function Shifted(d: Dialect, digit: nat, shift: nat): int
    requires shift % 7 == 0
  {
    match d
    case Wide(_) => digit * Weight(shift)
    case Int32Shift(_) =>
      if shift < 28 then digit * Weight(shift)
      else if digit % 16 < 8 then (digit % 16) * 0x1000_0000
      else (digit % 16 - 16) * 0x1000_0000
  }

  /** The signed 32-bit `int` holding the low 32 bits of `x`. */
  function Int32Of(x: int): int
  {
    var u := x % 0x1_0000_0000;
    if u < 0x8000_0000 then u else u - 0x1_0000_0000
  }

  /** The Int32Shift step is `digit << shift` on a 32-bit `int`. */
  lemma Int32ShiftWraps(rejectNegative: bool, digit: nat, shift: nat)
    requires digit < 0x80 && shift % 7 == 0 && shift < 32
    ensures Shifted(Int32Shift(rejectNegative), digit, shift) == Int32Of(digit * Weight(shift))
  {
    if shift == 28 {
      var x := digit * 0x1000_0000;
      assert x == (digit / 16) * 0x1_0000_0000 + (digit % 16) * 0x1000_0000;
      DivModUnique(x, 0x1_0000_0000, digit / 16, (digit % 16) * 0x1000_0000);
    } else {
      assert digit * Weight(shift) < 0x1000_0000;
      DivModUnique(digit * Weight(shift), 0x1_0000_0000, 0, digit * Weight(shift));
    }
  }

  /** The overflow test after each step. */
  predicate Rejected(d: Dialect, acc: int)
  {
    match d
    case Wide(c) => acc > c
    case Int32Shift(rejectNegative) => acc > MaxI32 || (rejectNegative && acc < 0)
  }

  /** The decoding loop from byte `pos` at `shift` with accumulator `value`:
    * the decoded value and the position after the last byte read. */
  function Loop(d: Dialect, input: seq<byte>, pos: nat, shift: nat, value: int): Result<(int, nat)>
    requires shift % 7 == 0
    decreases 32 - shift
  {
    if shift >= 32 then Err(VarintOverflow)
    else if pos >= |input| then Err(TruncatedInput)
    else
      var b := input[pos];
      var digit := b % 0x80;
      var acc := value + Shifted(d, digit, shift);
      if Rejected(d, acc) then Err(VarintOverflow)
      else if digit == b then
        if shift > 0 && digit == 0 then Err(NonCanonicalVarint) else Ok((acc, pos + 1))
      else Loop(d, input, pos + 1, shift + 7, acc)
  }

  /** Decoding a ULEB128 that starts at byte `pos` of `input`. */
  function Decode(d: Dialect, input: seq<byte>, pos: nat): Result<(int, nat)>
  {
    Loop(d, input, pos, 0, 0)
  }

  /** The value part of a decoding outcome. */
  function ValueOf(r: Result<(int, nat)>): Result<int>
  {
    match r
    case Ok((v, _)) => Ok(v)
    case Err(e) => Err(e)
  }

  /** A reader's outcome `r` is the value part of the decoding outcome `d`. */
  predicate Reports(r: Result<nat>, d: Result<(int, nat)>)
  {
    (r.Ok? <==> d.Ok?) && (r.Ok? ==> r.value == d.value.0) && (r.Err? ==> r.error == d.error)
  }

  /** `s` sits in `input` at `pos`. */
  predicate At(s: seq<byte>, input: seq<byte>, pos: nat)
  {
    pos + |s| <= |input| && input[pos..pos + |s|] == s
  }

  lemma MulMonotone(a: nat, b: nat, p: nat)
    requires a <= b
    ensures a * p <= b * p
  {
  }

  lemma SplitDigit(v: nat, p: nat)
    ensures v * p == (v % 0x80) * p + (v / 0x80) * (0x80 * p)
  {
    assert v == (v / 0x80) * 0x80 + v % 0x80;
    assert v * p == ((v / 0x80) * 0x80) * p + (v % 0x80) * p;
  }

  lemma DigitBelow(value: nat, digit: nat, p: nat)
    requires value < p && digit < 0x80
    ensures value + digit * p < 0x80 * p
  {
    MulMonotone(digit, 0x7F, p);
  }

  /** A digit term within the dialect's ceiling is shifted without loss. */
  lemma ShiftedExact(d: Dialect, digit: nat, shift: nat)
    requires shift % 7 == 0 && digit * Weight(shift) <= Ceiling(d) <= MaxU32
    ensures Shifted(d, digit, shift) == digit * Weight(shift)
  {
    if d.Int32Shift? && shift == 28 {
      assert digit < 8;
    }
  }

  /** A non-negative accumulator is rejected exactly above the ceiling. */
  lemma RejectedAbove(d: Dialect, acc: int)
    requires acc >= 0
    ensures Rejected(d, acc) <==> acc > Ceiling(d)
  {
  }

  /** Shift 35 is never reached by a value within 32 bits. */
  lemma ShiftBound(shift: nat, v: nat)
    requires shift % 7 == 0 && v > 0 && v * Weight(shift) <= MaxU32
    ensures shift <= 28
  {
    if shift > 28 {
      MulMonotone(1, v, Weight(shift));
    }
  }

  /** One step of the loop on a byte, when the step is not rejected. */
  lemma LoopStep(d: Dialect, input: seq<byte>, pos: nat, shift: nat, value: int)
    requires shift % 7 == 0 && shift < 32
    ensures pos >= |input| ==> Loop(d, input, pos, shift, value) == Err(TruncatedInput)
    ensures pos < |input| ==> var acc := value + Shifted(d, input[pos] % 0x80, shift);
      Loop(d, input, pos, shift, value) ==
        if Rejected(d, acc) then Err(VarintOverflow)
        else if input[pos] < 0x80 then
          (if shift > 0 && input[pos] == 0 then Err(NonCanonicalVarint) else Ok((acc, pos + 1)))
        else Loop(d, input, pos + 1, shift + 7, acc)
  {
  }

  /** What one pass of a reader's loop learns about the outcome `out` of
    * the decoding from the byte at `pos`, in the order the readers test:
    * running out of input, the ceiling, the terminating digit. `acc` is the
    * accumulator after adding the digit of the byte read. */
  lemma ReadStep(d: Dialect, input: seq<byte>, pos: nat, shift: nat, value: int, out: Result<(int, nat)>)
    requires shift % 7 == 0 && shift < 32 && Loop(d, input, pos, shift, value) == out
    ensures pos >= |input| ==> out == Err(TruncatedInput)
  {
    LoopStep(d, input, pos, shift, value);
  }

  lemma DigitStep(d: Dialect, input: seq<byte>, pos: nat, shift: nat, value: int, out: Result<(int, nat)>, acc: int)
    requires shift % 7 == 0 && shift < 32 && Loop(d, input, pos, shift, value) == out
    requires pos < |input| && acc == value + Shifted(d, input[pos] % 0x80, shift)
    ensures (shift + 7) % 7 == 0 && shift + 7 <= 35
    ensures d.Wide? && 0 <= value < Weight(shift) ==> 0 <= acc < Weight(shift + 7)
    ensures d.Int32Shift? && 0 <= value < Weight(shift) ==> acc < Weight(shift + 7) && acc <= MaxI32
    ensures Rejected(d, acc) ==> out == Err(VarintOverflow)
    ensures !Rejected(d, acc) && input[pos] % 0x80 == input[pos] && shift > 0 && input[pos] == 0 ==> out == Err(NonCanonicalVarint)
    ensures !Rejected(d, acc) && input[pos] % 0x80 == input[pos] && !(shift > 0 && input[pos] == 0) ==>
      out.Ok? && out.value.0 == acc && out.value.1 == pos + 1
    ensures !Rejected(d, acc) && input[pos] % 0x80 != input[pos] ==> Loop(d, input, pos + 1, shift + 7, acc) == out
  {
    LoopStep(d, input, pos, shift, value);
    if 0 <= value < Weight(shift) {
      if d.Wide? {
        DigitBelow(value, input[pos] % 0x80, Weight(shift));
        WeightStep(shift);
      } else {
        Int32ShiftBound(d.rejectNegative, value, input[pos] % 0x80, shift);
      }
    }
  }

  /** `DigitStep` for a 64-bit accumulator, with the digit term written as
    * the readers compute it. */
  lemma WideStep(c: nat, input: seq<byte>, pos: nat, shift: nat, value: nat, out: Result<(int, nat)>, acc: int)
    requires shift % 7 == 0 && shift < 32 && value < Weight(shift) && Loop(Wide(c), input, pos, shift, value) == out
    requires pos < |input| && acc == value + (input[pos] % 0x80) * Weight(shift)
    ensures (shift + 7) % 7 == 0 && shift + 7 <= 35 && 0 <= acc < Weight(shift + 7)
    ensures acc > c ==> out == Err(VarintOverflow)
    ensures acc <= c && input[pos] % 0x80 == input[pos] && shift > 0 && input[pos] == 0 ==> out == Err(NonCanonicalVarint)
    ensures acc <= c && input[pos] % 0x80 == input[pos] && !(shift > 0 && input[pos] == 0) ==>
      out.Ok? && out.value.0 == acc && out.value.1 == pos + 1
    ensures acc <= c && input[pos] % 0x80 != input[pos] ==> Loop(Wide(c), input, pos + 1, shift + 7, acc) == out
  {
    DigitStep(Wide(c), input, pos, shift, value, out, acc);
  }

  /** A non-rejected Int32Shift step stays below 2^31, so a non-negative
    * accumulator never reaches the C++ test against 2^32 - 1: only a negative
    * one, which sign-extends past it, fails there. */
  lemma Int32ShiftBound(rejectNegative: bool, value: nat, digit: nat, shift: nat)
    requires shift % 7 == 0 && shift < 32 && value < Weight(shift) && digit < 0x80
    ensures var acc := value + Shifted(Int32Shift(rejectNegative), digit, shift);
      acc <= MaxI32 && acc < Weight(shift + 7)
  {
    if shift < 28 {
      DigitBelow(value, digit, Weight(shift));
      WeightStep(shift);
    }
  }

  /** Past the fifth digit the loop gives up. */
  lemma ReadEnd(d: Dialect, input: seq<byte>, pos: nat, shift: nat, value: int, out: Result<(int, nat)>)
    requires shift % 7 == 0 && shift >= 32 && Loop(d, input, pos, shift, value) == out
    ensures out == Err(VarintOverflow)
  {
  }

  /** The first step of reading back an encoding: the digit term is exact and
    * within the ceiling. */
  lemma FirstDigit(d: Dialect, input: seq<byte>, pos: nat, shift: nat, value: nat, v: nat)
    requires Ceiling(d) <= MaxU32
    requires shift % 7 == 0 && value < Weight(shift)
    requires value + v * Weight(shift) <= Ceiling(d)
    requires shift > 0 ==> v > 0
    requires At(Encode(v), input, pos)
    ensures shift < 32 && pos < |input| && input[pos] % 0x80 == v % 0x80
    ensures input[pos] < 0x80 <==> v < 0x80
    ensures Shifted(d, v % 0x80, shift) == (v % 0x80) * Weight(shift)
    ensures !Rejected(d, value + (v % 0x80) * Weight(shift))
  {
    var p := Weight(shift);
    if v > 0 {
      ShiftBound(shift, v);
    }
    assert input[pos] == Encode(v)[0];
    var digit := v % 0x80;
    MulMonotone(digit, v, p);
    ShiftedExact(d, digit, shift);
    RejectedAbove(d, value + digit * p);
  }

  /** Reading back a one-byte encoding. */
  lemma LastDigit(d: Dialect, input: seq<byte>, pos: nat, shift: nat, value: nat, v: nat)
    requires Ceiling(d) <= MaxU32
    requires shift % 7 == 0 && value < Weight(shift)
    requires value + v * Weight(shift) <= Ceiling(d)
    requires shift > 0 ==> v > 0
    requires At(Encode(v), input, pos) && v < 0x80
    ensures Loop(d, input, pos, shift, value).Ok?
    ensures Loop(d, input, pos, shift, value).value.0 == value + v * Weight(shift)
    ensures Loop(d, input, pos, shift, value).value.1 == pos + |Encode(v)|
  {
    assert Encode(v) == [v];
    assert input[pos] == v;
    FirstDigit(d, input, pos, shift, value, v);
    Stop(d, input, pos, shift, value);
  }

  /** Reading a continued digit moves the loop to the rest of the encoding. */
  lemma NextDigit(d: Dialect, input: seq<byte>, pos: nat, shift: nat, value: nat, v: nat) returns (acc: nat)
    requires Ceiling(d) <= MaxU32
    requires shift % 7 == 0 && value < Weight(shift)
    requires value + v * Weight(shift) <= Ceiling(d)
    requires shift > 0 ==> v > 0
    requires At(Encode(v), input, pos) && v >= 0x80
    ensures acc < Weight(shift + 7) && acc + (v / 0x80) * Weight(shift + 7) == value + v * Weight(shift)
    ensures v / 0x80 > 0 && (shift + 7) % 7 == 0
    ensures At(Encode(v / 0x80), input, pos + 1) && pos + |Encode(v)| == pos + 1 + |Encode(v / 0x80)|
    ensures Loop(d, input, pos, shift, value) == Loop(d, input, pos + 1, shift + 7, acc)
  {
    FirstDigit(d, input, pos, shift, value, v);
    LoopStep(d, input, pos, shift, value);
    var p := Weight(shift);
    var digit := v % 0x80;
    acc := value + digit * p;
    var rest := Encode(v / 0x80);
    assert Encode(v) == [digit + 0x80] + rest;
    assert input[pos + 1..pos + 1 + |rest|] == Encode(v)[1..];
    WeightStep(shift);
    DigitBelow(value, digit, p);
    SplitDigit(v, p);
  }

  /** A terminating digit that is not rejected ends the loop. */
  lemma Stop(d: Dialect, input: seq<byte>, pos: nat, shift: nat, value: int)
    requires shift % 7 == 0 && shift < 32 && pos < |input| && input[pos] < 0x80
    requires !Rejected(d, value + Shifted(d, input[pos] % 0x80, shift))
    ensures Loop(d, input, pos, shift, value) ==
      if shift > 0 && input[pos] == 0 then Err(NonCanonicalVarint)
      else Ok((value + Shifted(d, input[pos], shift), pos + 1))
  {
  }

  /** The loop reads back an encoding sitting at `pos`, from any step;
    * `total` is the value the loop is expected to reach. */
  lemma {:induction false} LoopEncode(d: Dialect, input: seq<byte>, pos: nat, shift: nat, value: nat, v: nat, total: nat)
    requires Ceiling(d) <= MaxU32
    requires shift % 7 == 0 && value < Weight(shift)
    requires total == value + v * Weight(shift) && total <= Ceiling(d)
    requires shift > 0 ==> v > 0
    requires At(Encode(v), input, pos)
    ensures Loop(d, input, pos, shift, value).Ok?
    ensures Loop(d, input, pos, shift, value).value.0 == total
    ensures Loop(d, input, pos, shift, value).value.1 == pos + |Encode(v)|
    decreases v
  {
    if v < 0x80 {
      LastDigit(d, input, pos, shift, value, v);
    } else {
      var acc := NextDigit(d, input, pos, shift, value, v);
      LoopEncode(d, input, pos + 1, shift + 7, acc, v / 0x80, total);
    }
  }

  /** Round trip: every value up to the dialect's ceiling (at most 2^32 - 1)
    * decodes from its encoding, consuming exactly that encoding. */
  lemma DecodeEncode(d: Dialect, v: nat, input: seq<byte>, pos: nat)
    requires v <= Ceiling(d) <= MaxU32
    requires At(Encode(v), input, pos)
    ensures Decode(d, input, pos) == Ok((v, pos + |Encode(v)|))
  {
    LoopEncode(d, input, pos, 0, 0, v, v);
  }

  /** A length prefix: the decoded value, refused when it is negative
    * (possible only in the Int32Shift dialect without the negativity test)
    * or above `max`. */
  function DecodeLength(d: Dialect, input: seq<byte>, pos: nat, max: nat): Result<(nat, nat)>
  {
    var (v, next) :- Decode(d, input, pos);
    if v < 0 || v > max then Err(LengthTooLarge) else Ok((v, next))
  }

  /** A run of bytes behind a ULEB128 length prefix. */
  function LengthPrefixed(d: Dialect, input: seq<byte>, pos: nat, max: nat): Result<(seq<byte>, nat)>
  {
    var (n, next) :- DecodeLength(d, input, pos, max);
    Take(input, next, n)
  }

  /** Round trip of a length-prefixed run: the writers' `Encode(|s|) + s`
    * reads back as `s`, consuming exactly those bytes. */
  lemma LengthPrefixedOfEncode(d: Dialect, max: nat, prefix: seq<byte>, s: seq<byte>, rest: seq<byte>)
    requires |s| <= max && |s| <= Ceiling(d) <= MaxU32
    ensures LengthPrefixed(d, prefix + Encode(|s|) + s + rest, |prefix|, max) ==
      Ok((s, |prefix| + |Encode(|s|)| + |s|))
  {
    var e := Encode(|s|);
    var input := prefix + e + s + rest;
    assert input[|prefix|..|prefix| + |e|] == e;
    DecodeEncode(d, |s|, input, |prefix|);
    assert input == (prefix + e) + s + rest;
    TakeOf(prefix + e, s, rest);
  }

  lemma WeightStep(shift: nat)
    requires shift % 7 == 0 && shift <= 28
    ensures Weight(shift + 7) == 0x80 * Weight(shift)
  {
  }

  /** One accepted step of the Wide loop. */
  lemma AcceptedStep(c: nat, input: seq<byte>, pos: nat, shift: nat, value: nat)
    requires shift % 7 == 0 && value < Weight(shift)
    requires Loop(Wide(c), input, pos, shift, value).Ok?
    ensures shift < 32 && pos < |input|
    ensures value + (input[pos] % 0x80) * Weight(shift) <= c
    ensures value + (input[pos] % 0x80) * Weight(shift) < Weight(shift + 7)
    ensures input[pos] < 0x80 ==>
      Loop(Wide(c), input, pos, shift, value) == Ok((value + input[pos] * Weight(shift), pos + 1)) &&
      (shift > 0 ==> input[pos] > 0)
    ensures input[pos] >= 0x80 ==>
      Loop(Wide(c), input, pos, shift, value) ==
        Loop(Wide(c), input, pos + 1, shift + 7, value + (input[pos] % 0x80) * Weight(shift))
  {
    WeightStep(shift);
    DigitBelow(value, input[pos] % 0x80, Weight(shift));
  }

  /** A continued digit in front of an encoding of a positive value. */
  lemma EncodeCons(digit: nat, w: nat, p: nat)
    requires digit < 0x80 && w > 0
    ensures Encode(digit + 0x80 * w) == [digit + 0x80] + Encode(w)
    ensures (digit + 0x80 * w) * p == digit * p + w * (0x80 * p)
  {
    var v := digit + 0x80 * w;
    assert v % 0x80 == digit && v / 0x80 == w;
  }

  /** The Wide loop's outcome from a step is the encoding of `v`. */
  predicate DecodedAs(c: nat, input: seq<byte>, pos: nat, shift: nat, value: nat, v: nat)
    requires shift % 7 == 0
  {
    var r := Loop(Wide(c), input, pos, shift, value);
    r.Ok? && r.value.0 == value + v * Weight(shift) <= c && r.value.1 == pos + |Encode(v)|
    && At(Encode(v), input, pos) && (shift > 0 ==> v > 0)
  }

  lemma Regroup(value: nat, digit: nat, w: nat, shift: nat)
    requires shift % 7 == 0 && shift <= 28
    ensures value + (digit + 0x80 * w) * Weight(shift) == value + digit * Weight(shift) + w * Weight(shift + 7)
  {
    WeightStep(shift);
  }

  /** A continued digit in front of what the rest of the loop decodes. */
  lemma CanonicalStep(c: nat, input: seq<byte>, pos: nat, shift: nat, value: nat, w: nat) returns (v: nat)
    requires shift % 7 == 0 && value < Weight(shift)
    requires Loop(Wide(c), input, pos, shift, value).Ok?
    requires pos < |input| && input[pos] >= 0x80
    requires DecodedAs(c, input, pos + 1, shift + 7, value + (input[pos] % 0x80) * Weight(shift), w)
    ensures DecodedAs(c, input, pos, shift, value, v)
  {
    AcceptedStep(c, input, pos, shift, value);
    var digit := input[pos] % 0x80;
    v := digit + 0x80 * w;
    ContinuedAt(input, pos, w);
    Regroup(value, digit, w, shift);
  }

  /** The bytes of a continued digit followed by the encoding of `w`. */
  lemma ContinuedAt(input: seq<byte>, pos: nat, w: nat)
    requires pos < |input| && input[pos] >= 0x80 && w > 0 && At(Encode(w), input, pos + 1)
    ensures var v := input[pos] % 0x80 + 0x80 * w;
      At(Encode(v), input, pos) && |Encode(v)| == 1 + |Encode(w)| && v > 0
  {
    var b := input[pos];
    var digit := b % 0x80;
    var e := Encode(w);
    assert b == digit + 0x80;
    EncodeCons(digit, w, 1);
    assert input[pos..pos + 1 + |e|] == [b] + input[pos + 1..pos + 1 + |e|];
  }

  /** A terminating digit is the one-byte encoding of itself. */
  lemma CanonicalLast(c: nat, input: seq<byte>, pos: nat, shift: nat, value: nat) returns (v: nat)
    requires shift % 7 == 0 && value < Weight(shift)
    requires Loop(Wide(c), input, pos, shift, value).Ok?
    requires pos < |input| && input[pos] < 0x80
    ensures DecodedAs(c, input, pos, shift, value, v)
  {
    AcceptedStep(c, input, pos, shift, value);
    v := input[pos];
    assert Encode(v) == [v];
  }

  /** What the Wide loop accepts from any step is an encoding. */
  lemma {:induction false} LoopCanonical(c: nat, input: seq<byte>, pos: nat, shift: nat, value: nat) returns (v: nat)
    requires shift % 7 == 0 && value < Weight(shift)
    requires Loop(Wide(c), input, pos, shift, value).Ok?
    ensures DecodedAs(c, input, pos, shift, value, v)
    decreases 32 - shift
  {
    AcceptedStep(c, input, pos, shift, value);
    var b := input[pos];
    if b < 0x80 {
      v := CanonicalLast(c, input, pos, shift, value);
    } else {
      var w := LoopCanonical(c, input, pos + 1, shift + 7, value + (b % 0x80) * Weight(shift));
      v := CanonicalStep(c, input, pos, shift, value, w);
    }
  }

  /** Canonicity: every accepted input is the encoding of its value, so each
    * value has exactly one accepted encoding. */
  lemma DecodeCanonical(c: nat, input: seq<byte>, pos: nat)
    requires Decode(Wide(c), input, pos).Ok?
    ensures var (v, next) := Decode(Wide(c), input, pos).value;
      0 <= v <= c && next == pos + |Encode(v)| && At(Encode(v), input, pos)
  {
    var v := LoopCanonical(c, input, pos, 0, 0);
  }

  /** The Wide decoder accepts exactly the inputs that start with the
    * encoding of a value within its ceiling. */
  lemma AcceptsExactlyEncodings(c: nat, input: seq<byte>, pos: nat)
    requires c <= MaxU32
    ensures Decode(Wide(c), input, pos).Ok? <==> exists v: nat :: v <= c && At(Encode(v), input, pos)
  {
    if Decode(Wide(c), input, pos).Ok? {
      DecodeCanonical(c, input, pos);
      var v := Decode(Wide(c), input, pos).value.0;
      assert v <= c && At(Encode(v), input, pos);
    }
    if exists v: nat :: v <= c && At(Encode(v), input, pos) {
      var v: nat :| v <= c && At(Encode(v), input, pos);
      DecodeEncode(Wide(c), v, input, pos);
    }
  }

  /** Every byte of an encoding but the last carries the continuation bit,
    * and a value below 2^32 takes at most five bytes. */
  lemma {:induction false} EncodeShape(v: nat, k: nat)
    requires 0 < k && v < Pow2(7 * k)
    ensures |Encode(v)| <= k
    ensures Encode(v)[|Encode(v)| - 1] < 0x80
    ensures forall i :: 0 <= i < |Encode(v)| - 1 ==> Encode(v)[i] >= 0x80
  {
    if v >= 0x80 {
      Pow2Add(7, 7 * (k - 1));
      Pow2Values();
      if k == 1 {
        assert false;
      }
      assert 7 * k == 7 + 7 * (k - 1);
      assert v / 0x80 < Pow2(7 * (k - 1));
      EncodeShape(v / 0x80, k - 1);
    }
  }

  lemma EncodeU32Shape(v: nat)
    requires v <= MaxU32
    ensures 1 <= |Encode(v)| <= 5
  {
    Pow2Values();
    EncodeShape(v, 5);
  }

  /** A zero terminating digit after the first byte is refused. */
  lemma RejectsZeroTerminator()
    ensures Decode(Wide(MaxU32), [0x80, 0x00], 0) == Err(NonCanonicalVarint)
  {
  }

  /** A value of 2^32 or more is refused. */
  lemma RejectsOverflow()
    ensures Decode(Wide(MaxU32), [0xff, 0xff, 0xff, 0xff, 0x10], 0) == Err(VarintOverflow)
  {
  }

  /** A fifth byte with the continuation bit is refused. */
  lemma RejectsSixthByte()
    ensures Decode(Wide(MaxU32), [0x80, 0x80, 0x80, 0x80, 0x80, 0x00], 0) == Err(VarintOverflow)
  {
  }

  /** Running out of input is refused. */
  lemma RejectsTruncated()
    ensures Decode(Wide(MaxU32), [0x80, 0x80], 0) == Err(TruncatedInput)
  {
  }

  /** A continued digit that is not rejected hands over to the next step. */
  lemma Continue(d: Dialect, input: seq<byte>, pos: nat, shift: nat, value: int, acc: int)
    requires shift % 7 == 0 && shift < 32 && pos < |input| && input[pos] >= 0x80
    requires acc == value + Shifted(d, input[pos] % 0x80, shift) && !Rejected(d, acc)
    ensures Loop(d, input, pos, shift, value) == Loop(d, input, pos + 1, shift + 7, acc)
  {
  }

  /** A terminating digit that is not rejected ends the loop. */
  lemma Finish(d: Dialect, input: seq<byte>, pos: nat, shift: nat, value: int, acc: int)
    requires shift % 7 == 0 && shift < 32 && pos < |input| && 0 < input[pos] < 0x80
    requires acc == value + Shifted(d, input[pos], shift) && !Rejected(d, acc)
    ensures Loop(d, input, pos, shift, value) == Ok((acc, pos + 1))
  {
  }

  /** The 32-bit shift drops the high bits of a fifth digit, so an
    * over-long encoding of 0 is accepted, unlike in the Wide dialect. */
  lemma Int32ShiftAcceptsOverlongZero(rejectNegative: bool)
    ensures Decode(Int32Shift(rejectNegative), [0x80, 0x80, 0x80, 0x80, 0x10], 0) == Ok((0, 5))
    ensures Decode(Wide(MaxU32), [0x80, 0x80, 0x80, 0x80, 0x10], 0) == Err(VarintOverflow)
    ensures Encode(0) == [0]
  {
    var d := Int32Shift(rejectNegative);
    var s := [0x80, 0x80, 0x80, 0x80, 0x10];
    Continue(d, s, 0, 0, 0, 0);
    Continue(d, s, 1, 7, 0, 0);
    Continue(d, s, 2, 14, 0, 0);
    Continue(d, s, 3, 21, 0, 0);
    assert Shifted(d, 0x10, 28) == 0;
    Finish(d, s, 4, 28, 0, 0);
    assert Shifted(Wide(MaxU32), 0x10, 28) == 0x1_0000_0000;
  }

  /** The same wrap lets 2^32 + 2^28 - 1 through as 2^28 - 1. */
  lemma Int32ShiftAcceptsWrappedDigit(rejectNegative: bool)
    ensures Decode(Int32Shift(rejectNegative), [0xff, 0xff, 0xff, 0xff, 0x10], 0) == Ok((0xfff_ffff, 5))
  {
    var d := Int32Shift(rejectNegative);
    var s := [0xff, 0xff, 0xff, 0xff, 0x10];
    Continue(d, s, 0, 0, 0, 0x7f);
    Continue(d, s, 1, 7, 0x7f, 0x3fff);
    Continue(d, s, 2, 14, 0x3fff, 0x1f_ffff);
    Continue(d, s, 3, 21, 0x1f_ffff, 0xfff_ffff);
    assert Shifted(d, 0x10, 28) == 0;
    Finish(d, s, 4, 28, 0xfff_ffff, 0xfff_ffff);
  }

  /** Without the negativity test a fifth digit of 8 to 15 yields a negative
    * value: 2^32 - 1 comes back as -1. With the test it is refused. */
  lemma Int32ShiftAcceptsNegative(rejectNegative: bool)
    ensures Decode(Int32Shift(rejectNegative), [0xff, 0xff, 0xff, 0xff, 0x0f], 0) ==
      if rejectNegative then Err(VarintOverflow) else Ok((-1, 5))
  {
    var d := Int32Shift(rejectNegative);
    var s := [0xff, 0xff, 0xff, 0xff, 0x0f];
    Continue(d, s, 0, 0, 0, 0x7f);
    Continue(d, s, 1, 7, 0x7f, 0x3fff);
    Continue(d, s, 2, 14, 0x3fff, 0x1f_ffff);
    Continue(d, s, 3, 21, 0x1f_ffff, 0xfff_ffff);
    assert Shifted(d, 0x0f, 28) == -0x1000_0000;
    if !rejectNegative {
      Finish(d, s, 4, 28, 0xfff_ffff, -1);
    }
  }
}
