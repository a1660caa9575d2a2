/**
  * Vocabulary shared by every runtime of the binary formats (BCS, LCS and
  * bincode): bytes, powers of two, fixed-width little-endian words, two's
  * complement, the 128-bit integer pair, and the error kinds the runtimes
  * raise.
  */
module Wire {

  /** One octet of a serialized buffer. */
  type byte = x: int | 0 <= x < 256

  /** The failures the runtimes raise or return, by kind. */
  datatype Error =
    | TruncatedInput            // a read past the end of the input
    | LengthTooLarge            // a length above the format's ceiling
    | IncorrectLength           // a negative length handed to a writer
    | VarintOverflow            // a ULEB128 value above its ceiling or too many digits
    | NonCanonicalVarint        // a ULEB128 with a zero terminating digit
    | KeysOutOfOrder            // map keys not strictly increasing
    | ContainerTooDeep          // the container-depth budget is exhausted
    | NotImplemented            // f32, f64 and char in these formats
    | InvalidBool               // a bool byte other than 0 or 1
    | WrongOptionTag            // an option tag other than 0 or 1
    | UnexpectedVariantIndex    // a variant index outside the enum
    | InvalidUtf8               // string bytes that are not UTF-8
    | UnexpectedValue           // a value that does not fit the declared type

  datatype Result<T> = Ok(value: T) | Err(error: Error)
  {
    predicate IsFailure() { Err? }

    function PropagateFailure<U>(): Result<U>
      requires Err?
    {
      Err(error)
    }

    function Extract(): T
      requires Ok?
    {
      value
    }
  }

  function Pow2(k: nat): (r: int)
    ensures r >= 1
  {
    if k == 0 then 1 else 2 * Pow2(k - 1)
  }

  lemma {:induction false} Pow2Add(a: nat, b: nat)
    ensures Pow2(a + b) == Pow2(a) * Pow2(b)
  {
    if b > 0 {
      Pow2Add(a, b - 1);
      assert Pow2(a + b) == 2 * Pow2(a + b - 1);
    }
  }

  /** The powers of two the runtimes' widths need. */
  lemma Pow2Values()
    ensures Pow2(7) == 0x80 && Pow2(8) == 0x100 && Pow2(14) == 0x4000
    ensures Pow2(16) == 0x1_0000 && Pow2(21) == 0x20_0000 && Pow2(28) == 0x1000_0000
    ensures Pow2(31) == 0x8000_0000 && Pow2(32) == 0x1_0000_0000 && Pow2(35) == 0x8_0000_0000
    ensures Pow2(63) == 0x8000_0000_0000_0000 && Pow2(64) == 0x1_0000_0000_0000_0000
  {
    assert Pow2(7) == 0x80;
    assert Pow2(8) == 0x100;
    Pow2Add(7, 7);
    Pow2Add(8, 8);
    Pow2Add(14, 7);
    Pow2Add(14, 14);
    Pow2Add(16, 16);
    Pow2Add(28, 3);
    Pow2Add(28, 7);
    Pow2Add(32, 31);
    Pow2Add(32, 32);
  }

  lemma {:induction false} Pow2Monotone(a: nat, b: nat)
    requires a <= b
    ensures Pow2(a) <= Pow2(b)
  {
    if a < b {
      Pow2Monotone(a, b - 1);
    }
  }

  /** `v` fits an unsigned integer of `bits` bits. */
  predicate IsUnsigned(v: int, bits: nat)
  {
    0 <= v < Pow2(bits)
  }

  /** `v` fits a two's complement integer of `bits` bits. */
  predicate IsSigned(v: int, bits: nat)
    requires bits > 0
  {
    -Pow2(bits - 1) <= v < Pow2(bits - 1)
  }

  /** The unsigned integer with the same low `bits` bits as `v`: the C and Go
    * cast to an unsigned type, and two's complement for signed values. */
  function Wrap(v: int, bits: nat): (r: nat)
    ensures r < Pow2(bits)
  {
    v % Pow2(bits)
  }

  /** The two's complement reading of the unsigned pattern `u`. */
  function ToSigned(u: nat, bits: nat): int
    requires bits > 0
  {
    if u < Pow2(bits - 1) then u else u - Pow2(bits)
  }

  lemma SignedWrap(v: int, bits: nat)
    requires bits > 0 && IsSigned(v, bits)
    ensures ToSigned(Wrap(v, bits), bits) == v
    ensures v >= 0 ==> Wrap(v, bits) == v
    ensures v < 0 ==> Wrap(v, bits) == v + Pow2(bits)
  {
    var P := Pow2(bits);
    assert P == 2 * Pow2(bits - 1);
    if v >= 0 {
      DivModUnique(v, P, 0, v);
    } else {
      DivModUnique(v, P, -1, v + P);
    }
  }

  lemma WrapSigned(u: nat, bits: nat)
    requires bits > 0 && u < Pow2(bits)
    ensures IsSigned(ToSigned(u, bits), bits)
    ensures Wrap(ToSigned(u, bits), bits) == u
  {
    var P := Pow2(bits);
    assert P == 2 * Pow2(bits - 1);
    if u < Pow2(bits - 1) {
      DivModUnique(u, P, 0, u);
    } else {
      DivModUnique(u - P, P, -1, u);
    }
  }

  /** Byte `i` of `v` counted from the least significant end: `(uint8_t)(v >> 8*i)`. */
  function ByteAt(v: nat, i: nat): byte
  {
    (v / Pow2(8 * i)) % 256
  }

  /** The `n`-byte little-endian image of `v` (higher bytes are cut off). */
  function LE(v: nat, n: nat): (r: seq<byte>)
    ensures |r| == n
  {
    seq(n, i requires 0 <= i < n => ByteAt(v, i))
  }

  /** The unsigned integer whose little-endian image is `bs`. */
  function FromLE(bs: seq<byte>): nat
  {
    if |bs| == 0 then 0 else bs[0] + 256 * FromLE(bs[1..])
  }

  lemma {:induction false} FromLEBound(bs: seq<byte>)
    ensures FromLE(bs) < Pow2(8 * |bs|)
  {
    if |bs| > 0 {
      FromLEBound(bs[1..]);
      Pow2Add(8, 8 * (|bs| - 1));
      assert Pow2(8) == 256;
    }
  }

  lemma MulAtLeast(x: int, d: int)
    requires d > 0
    ensures x >= 1 ==> x * d >= d
    ensures x <= -1 ==> x * d <= -d
  {
  }

  /** The quotient and remainder are the only ones with the remainder in range. */
  lemma DivModUnique(v: int, d: int, q: int, r: int)
    requires d > 0 && v == q * d + r && 0 <= r < d
    ensures v / d == q && v % d == r
  {
    var q', r' := v / d, v % d;
    assert (q - q') * d == r' - r;
    MulAtLeast(q - q', d);
  }

  lemma RegroupDigits(a: int, b: int, q2: int, r2: int, r: int)
    requires a > 0 && b > 0 && 0 <= r < a && 0 <= r2 < b
    ensures (q2 * b + r2) * a + r == q2 * (a * b) + (r2 * a + r)
    ensures 0 <= r2 * a + r < a * b
  {
    assert (q2 * b + r2) * a == q2 * b * a + r2 * a;
    assert r2 * a <= (b - 1) * a;
  }

  lemma DivDiv(v: nat, a: nat, b: nat)
    requires a > 0 && b > 0
    ensures v / (a * b) == (v / a) / b
  {
    var q, r := v / a, v % a;
    var q2, r2 := q / b, q % b;
    RegroupDigits(a, b, q2, r2, r);
    DivModUnique(v, a * b, q2, r2 * a + r);
  }

  lemma LETail(v: nat, n: nat)
    requires n > 0
    ensures LE(v, n)[0] == v % 256
    ensures LE(v, n)[1..] == LE(v / 256, n - 1)
  {
    forall i | 0 <= i < n - 1
      ensures LE(v, n)[1..][i] == LE(v / 256, n - 1)[i]
    {
      Pow2Add(8, 8 * i);
      assert Pow2(8) == 256;
      DivDiv(v, 256, Pow2(8 * i));
      assert 8 * (i + 1) == 8 + 8 * i;
    }
  }

  /** Reading back an image gives the value, when the value fits. */
  lemma {:induction false} FromLEOfLE(v: nat, n: nat)
    requires v < Pow2(8 * n)
    ensures FromLE(LE(v, n)) == v
  {
    if n == 0 {
      assert v == 0;
    } else {
      LETail(v, n);
      Pow2Add(8, 8 * (n - 1));
      assert Pow2(8) == 256;
      assert 8 * n == 8 + 8 * (n - 1);
      FromLEOfLE(v / 256, n - 1);
    }
  }

  /** Writing the value read from `bs` gives back `bs`. */
  lemma {:induction false} LEOfFromLE(bs: seq<byte>)
    ensures LE(FromLE(bs), |bs|) == bs
  {
    if |bs| > 0 {
      var v := FromLE(bs);
      LETail(v, |bs|);
      assert v % 256 == bs[0] && v / 256 == FromLE(bs[1..]);
      LEOfFromLE(bs[1..]);
      assert LE(v, |bs|) == [bs[0]] + bs[1..];
    }
  }

  /** Two images side by side are the image of the combined value: the
    * 128-bit integers written as their low word then their high word. */
  lemma {:induction false} LEConcat(lo: nat, hi: nat, m: nat, n: nat)
    requires lo < Pow2(8 * m)
    ensures LE(lo, m) + LE(hi, n) == LE(lo + hi * Pow2(8 * m), m + n)
  {
    if m > 0 {
      var v := lo + hi * Pow2(8 * m);
      Pow2Add(8, 8 * (m - 1));
      assert Pow2(8) == 256;
      assert 8 * m == 8 + 8 * (m - 1);
      var p := Pow2(8 * (m - 1));
      assert v == lo % 256 + 256 * (lo / 256 + hi * p);
      assert v % 256 == lo % 256 && v / 256 == lo / 256 + hi * p;
      LETail(lo, m);
      LETail(v, m + n);
      LEConcat(lo / 256, hi, m - 1, n);
      assert LE(lo, m) == [lo % 256] + LE(lo / 256, m - 1);
      assert LE(v, m + n) == [v % 256] + LE(v / 256, m + n - 1);
    }
  }

  /** The 128-bit unsigned integer as the runtimes carry it: two 64-bit words. */
  datatype Uint128 = Uint128(high: nat, low: nat)
  {
    predicate Valid() { high < Pow2(64) && low < Pow2(64) }
    function Value(): nat { high * Pow2(64) + low }
  }

  /** The 128-bit signed integer: a signed high word and an unsigned low word. */
  datatype Int128 = Int128(high: int, low: nat)
  {
    predicate Valid() { IsSigned(high, 64) && low < Pow2(64) }
    function Value(): int { high * Pow2(64) + low }
  }

  /** Two base-`p` digits stay below `p * p`. */
  lemma MulLe(a: int, b: int, p: int)
    requires a <= b && p >= 0
    ensures a * p <= b * p
  {
    assert b * p - a * p == (b - a) * p;
  }

  lemma TwoDigits(h: int, l: int, p: int)
    requires p > 0 && 0 <= h < p && 0 <= l < p
    ensures 0 <= h * p + l < p * p
  {
    MulLe(h, p - 1, p);
    MulLe(0, h, p);
    assert (p - 1) * p == p * p - p;
  }

  /** A signed high digit keeps the pair inside the signed range. */
  lemma SignedTwoDigits(h: int, l: int, half: int)
    requires half > 0 && -half <= h < half && 0 <= l < 2 * half
    ensures -half * (2 * half) <= h * (2 * half) + l < half * (2 * half)
    ensures h >= 0 <==> h * (2 * half) + l >= 0
  {
    var p := 2 * half;
    MulLe(h, half - 1, p);
    assert (half - 1) * p == half * p - p;
    MulLe(-half, h, p);
    if h < 0 {
      MulLe(h, -1, p);
    } else {
      MulLe(0, h, p);
    }
  }

  /** Writing the low word then the high word gives the 16-byte
    * little-endian image of the whole unsigned value. */
  lemma Uint128Image(x: Uint128)
    requires x.Valid()
    ensures LE(x.low, 8) + LE(x.high, 8) == LE(x.Value(), 16)
    ensures IsUnsigned(x.Value(), 128)
  {
    LEConcat(x.low, x.high, 8, 8);
    Pow2Add(64, 64);
    TwoDigits(x.high, x.low, Pow2(64));
  }

  /** Writing the low word then the high word's two's complement gives the
    * 16-byte two's complement image of the whole signed value. */
  lemma Int128Image(x: Int128)
    requires x.Valid()
    ensures LE(x.low, 8) + LE(Wrap(x.high, 64), 8) == LE(Wrap(x.Value(), 128), 16)
    ensures IsSigned(x.Value(), 128)
  {
    var m := 8;
    assert 8 * m == 64 && 16 * m == 128 && 2 * m == 16;
    SignedPairImage(x.high, x.low, m);
  }

  lemma SignedPairRange(high: int, low: nat, m: nat)
    requires m > 0 && IsSigned(high, 8 * m) && low < Pow2(8 * m)
    ensures IsSigned(high * Pow2(8 * m) + low, 16 * m)
    ensures high >= 0 <==> high * Pow2(8 * m) + low >= 0
    ensures Pow2(16 * m) == Pow2(8 * m) * Pow2(8 * m)
  {
    var P := Pow2(8 * m);
    var H := Pow2(8 * m - 1);
    Pow2Add(8 * m, 8 * m);
    Pow2Add(8 * m - 1, 8 * m);
    assert 8 * m - 1 + 8 * m == 16 * m - 1;
    assert Pow2(16 * m - 1) == H * P;
    assert P == 2 * H;
    SignedTwoDigits(high, low, H);
  }

  lemma SignedPairImage(high: int, low: nat, m: nat)
    requires m > 0 && IsSigned(high, 8 * m) && low < Pow2(8 * m)
    ensures LE(low, m) + LE(Wrap(high, 8 * m), m) == LE(Wrap(high * Pow2(8 * m) + low, 16 * m), 2 * m)
    ensures IsSigned(high * Pow2(8 * m) + low, 16 * m)
  {
    var P := Pow2(8 * m);
    var v := high * P + low;
    SignedPairRange(high, low, m);
    SignedWrap(high, 8 * m);
    SignedWrap(v, 16 * m);
    var h := Wrap(high, 8 * m);
    LEConcat(low, h, m, m);
    if high < 0 {
      ShiftHigh(high, low, P);
      assert h * P + low == Wrap(v, 16 * m);
    } else {
      assert h * P + low == Wrap(v, 16 * m);
    }
  }

  lemma ShiftHigh(h: int, l: int, p: int)
    ensures (h + p) * p + l == (h * p + l) + p * p
  {
  }

  /** Appending a byte adds it at the next weight: `ret |= b << 8*i`. */
  lemma {:induction false} FromLESnoc(bs: seq<byte>, b: byte)
    ensures FromLE(bs + [b]) == FromLE(bs) + b * Pow2(8 * |bs|)
  {
    if |bs| == 0 {
      assert bs + [b] == [b] && [b][1..] == [];
    } else {
      var t := bs[1..];
      var p := Pow2(8 * |t|);
      assert (bs + [b])[1..] == t + [b];
      FromLESnoc(t, b);
      Pow2Add(8, 8 * |t|);
      Pow2Values();
      assert 8 * |bs| == 8 + 8 * |t|;
      ShiftDigit(bs[0], FromLE(t), b, p);
    }
  }

  /** The arithmetic step of `FromLESnoc`, apart from the sequences. */
  lemma ShiftDigit(low: int, rest: int, b: int, p: int)
    ensures low + 256 * (rest + b * p) == (low + 256 * rest) + b * (256 * p)
  {
  }

  /** What a result carries back to a caller: the value of a successful
    * parse `d` with the cursor left at its end position, or its error. */
  predicate Matches<T(==)>(r: Result<T>, d: Result<(T, nat)>, pos: nat)
  {
    (r.Ok? <==> d.Ok?) &&
    (r.Ok? ==> r.value == d.value.0 && pos == d.value.1) &&
    (r.Err? ==> r.error == d.error)
  }

  /** The unsigned integer in the `n` bytes at `pos`, low byte first, and the
    * position after them; truncation when fewer than `n` bytes remain. */
  function Fixed(input: seq<byte>, pos: nat, n: nat): Result<(nat, nat)>
  {
    if pos + n <= |input| then Ok((FromLE(input[pos..pos + n]), pos + n)) else Err(TruncatedInput)
  }

  /** The same bytes read as a two's complement integer. */
  function SignedFixed(input: seq<byte>, pos: nat, n: nat): Result<(int, nat)>
    requires n > 0
  {
    var (u, next) :- Fixed(input, pos, n);
    Ok((ToSigned(u, 8 * n), next))
  }

  /** A 128-bit unsigned integer: the low word, then the high word. */
  function Fixed128(input: seq<byte>, pos: nat): Result<(Uint128, nat)>
  {
    var (low, mid) :- Fixed(input, pos, 8);
    var (high, next) :- Fixed(input, mid, 8);
    Ok((Uint128(high, low), next))
  }

  /** A 128-bit signed integer: the unsigned low word, then the signed high word. */
  function SignedFixed128(input: seq<byte>, pos: nat): Result<(Int128, nat)>
  {
    var (low, mid) :- Fixed(input, pos, 8);
    var (high, next) :- SignedFixed(input, mid, 8);
    Ok((Int128(high, low), next))
  }

  /** Every value read fits its width. */
  lemma FixedBound(input: seq<byte>, pos: nat, n: nat)
    requires Fixed(input, pos, n).Ok?
    ensures Fixed(input, pos, n).value.0 < Pow2(8 * n)
  {
    FromLEBound(input[pos..pos + n]);
  }

  /** Reading an image written at `pos` gives back the value and moves past it. */
  lemma FixedOfLE(prefix: seq<byte>, v: nat, n: nat, rest: seq<byte>)
    requires v < Pow2(8 * n)
    ensures Fixed(prefix + LE(v, n) + rest, |prefix|, n) == Ok((v, |prefix| + n))
  {
    assert (prefix + LE(v, n) + rest)[|prefix|..|prefix| + n] == LE(v, n);
    FromLEOfLE(v, n);
  }

  /** The same for the two's complement image of a signed value. */
  lemma SignedFixedOfLE(prefix: seq<byte>, v: int, n: nat, rest: seq<byte>)
    requires n > 0 && IsSigned(v, 8 * n)
    ensures SignedFixed(prefix + LE(Wrap(v, 8 * n), n) + rest, |prefix|, n) == Ok((v, |prefix| + n))
  {
    FixedOfLE(prefix, Wrap(v, 8 * n), n, rest);
    SignedWrap(v, 8 * n);
  }

  /** A 128-bit unsigned integer written low word first reads back. */
  lemma Fixed128OfLE(prefix: seq<byte>, x: Uint128, rest: seq<byte>)
    requires x.Valid()
    ensures Fixed128(prefix + LE(x.low, 8) + LE(x.high, 8) + rest, |prefix|) == Ok((x, |prefix| + 16))
  {
    Pow2Values();
    var input := prefix + LE(x.low, 8) + LE(x.high, 8) + rest;
    assert input == prefix + LE(x.low, 8) + (LE(x.high, 8) + rest);
    FixedOfLE(prefix, x.low, 8, LE(x.high, 8) + rest);
    assert input == (prefix + LE(x.low, 8)) + LE(x.high, 8) + rest;
    FixedOfLE(prefix + LE(x.low, 8), x.high, 8, rest);
  }

  /** A 128-bit signed integer written low word first reads back. */
  lemma SignedFixed128OfLE(prefix: seq<byte>, x: Int128, rest: seq<byte>)
    requires x.Valid()
    ensures SignedFixed128(prefix + LE(x.low, 8) + LE(Wrap(x.high, 64), 8) + rest, |prefix|) == Ok((x, |prefix| + 16))
  {
    Pow2Values();
    var h := LE(Wrap(x.high, 64), 8);
    var input := prefix + LE(x.low, 8) + h + rest;
    assert input == prefix + LE(x.low, 8) + (h + rest);
    FixedOfLE(prefix, x.low, 8, h + rest);
    assert input == (prefix + LE(x.low, 8)) + h + rest;
    assert 8 * 8 == 64;
    SignedFixedOfLE(prefix + LE(x.low, 8), x.high, 8, rest);
  }

  /** The bytes the writers emit for `(uint8_t)(v >> 8*i)`, i = 0, 1, ...:
    * the little-endian images of each width. */
  lemma LEBytes(v: nat)
    ensures LE(v, 1) == [ByteAt(v, 0)]
    ensures LE(v, 2) == [ByteAt(v, 0), ByteAt(v, 1)]
    ensures LE(v, 4) == [ByteAt(v, 0), ByteAt(v, 1), ByteAt(v, 2), ByteAt(v, 3)]
    ensures LE(v, 8) == [ByteAt(v, 0), ByteAt(v, 1), ByteAt(v, 2), ByteAt(v, 3),
                         ByteAt(v, 4), ByteAt(v, 5), ByteAt(v, 6), ByteAt(v, 7)]
  {
  }

  /** A byte is its own one-byte image. */
  lemma ByteAtByte(v: byte)
    ensures ByteAt(v, 0) == v && LE(v, 1) == [v]
  {
    assert Pow2(0) == 1;
  }

  /** Widening a slice by one element appends that element. */
  lemma SliceSnoc<T>(s: seq<T>, lo: nat, hi: nat)
    requires lo <= hi < |s|
    ensures s[lo..hi + 1] == s[lo..hi] + [s[hi]]
  {
  }

  /** The `n` bytes at `pos` and the position after them; truncation when
    * fewer remain. */
  function Take(input: seq<byte>, pos: nat, n: nat): (r: Result<(seq<byte>, nat)>)
    ensures r.Ok? <==> pos + n <= |input|
    ensures r.Ok? ==> |r.value.0| == n && r.value.1 == pos + n
    ensures r.Err? ==> r.error == TruncatedInput
  {
    if pos + n <= |input| then Ok((input[pos..pos + n], pos + n)) else Err(TruncatedInput)
  }

  /** Bytes written at `pos` are taken back whole. */
  lemma TakeOf(prefix: seq<byte>, s: seq<byte>, rest: seq<byte>)
    ensures Take(prefix + s + rest, |prefix|, |s|) == Ok((s, |prefix| + |s|))
  {
    assert (prefix + s + rest)[|prefix|..|prefix| + |s|] == s;
  }

  /** The byte every writer emits for a bool: 1 for true, 0 for false. */
  function BoolByte(b: bool): byte
  {
    if b then 1 else 0
  }

  /** How a reader turns a byte into a bool: only 0 and 1 (`Strict`), any
    * non-zero byte is true (`Nonzero`), or only 1 is true (`EqualsOne`). */
  datatype BoolRule = Strict | Nonzero | EqualsOne

  /** The bool at `pos` under `rule`, and the position after it. */
  function ReadBool(input: seq<byte>, pos: nat, rule: BoolRule): Result<(bool, nat)>
  {
    if pos >= |input| then Err(TruncatedInput)
    else
      var b := input[pos];
      match rule
      case Strict =>
        if b == 0 then Ok((false, pos + 1))
        else if b == 1 then Ok((true, pos + 1))
        else Err(InvalidBool)
      case Nonzero => Ok((b != 0, pos + 1))
      case EqualsOne => Ok((b == 1, pos + 1))
  }

  /** Under every rule a written bool reads back; the rules differ only on
    * bytes other than 0 and 1, where `Strict` alone fails. */
  lemma ReadBoolOf(prefix: seq<byte>, v: bool, rest: seq<byte>, rule: BoolRule)
    ensures ReadBool(prefix + [BoolByte(v)] + rest, |prefix|, rule) == Ok((v, |prefix| + 1))
  {
    assert (prefix + [BoolByte(v)] + rest)[|prefix|] == BoolByte(v);
  }

  /** The rules agree exactly on the bytes a writer emits. */
  lemma ReadBoolRules(input: seq<byte>, pos: nat)
    requires pos < |input|
    ensures ReadBool(input, pos, Strict).Ok? <==> input[pos] <= 1
    ensures input[pos] <= 1 ==>
      ReadBool(input, pos, Strict) == ReadBool(input, pos, Nonzero) == ReadBool(input, pos, EqualsOne)
    ensures input[pos] > 1 ==>
      ReadBool(input, pos, Nonzero) == Ok((true, pos + 1)) && ReadBool(input, pos, EqualsOne) == Ok((false, pos + 1))
  {
  }
}
