/**
  * The Java LCS deserializer of the `com.facebook.lcs` package
  * (`LcsDeserializer.java`). It extends the `com.facebook.serde` base
  * deserializer, modelled here as the `base` whose buffer it reads, and adds
  * the ULEB128 lengths and variant indices and the strict key order. Its
  * ULEB128 loop shifts each digit as a 32-bit `int` and tests only against
  * `Integer.MAX_VALUE` (the `Unguarded` dialect).
  */
module JavaFacebookLcs {
  import opened Wire
  import opened Uleb128
  import opened LexOrder
  import opened JavaCommon
  import JavaFacebookSerde

  class LcsDeserializer {
    /** The base class part: the buffer and its readers. */
    const base: JavaFacebookSerde.BinaryDeserializer

    constructor (input: seq<byte>)
      ensures fresh(base) && base.input == input && base.pos == 0
    {
      base := new JavaFacebookSerde.BinaryDeserializer(input);
    }

    /** Up to five digits, low first; `digit << shift` is an `int`,
      * sign-extended into the `long` accumulator, and an accumulator above
      * 2^31 - 1 throws. The result may be negative (see
      * JavaCommon.Int32ShiftRoundTrip); it always fits the `int` it is cast
      * to (JavaCommon.Int32ShiftRange). */
    method DeserializeUleb128AsU32() returns (r: Result<int>)
      modifies base
      ensures r == ValueOf(Decode(Unguarded, base.input, old(base.pos)))
      ensures r.Ok? ==> base.pos == Decode(Unguarded, base.input, old(base.pos)).value.1
    {
      ghost var out := Decode(Unguarded, base.input, base.pos);
      var value: int := 0;
      var shift := 0;
      while shift < 32
        invariant shift % 7 == 0 && shift <= 35
        invariant Loop(Unguarded, base.input, base.pos, shift, value) == out
        decreases 32 - shift
      {
        ReadStep(Unguarded, base.input, base.pos, shift, value, out);
        var x :- base.GetByte();
        var digit := x % 0x80;
        var acc := value + Int32Of(digit * Weight(shift));
        JavaStep(false, base.input, base.pos - 1, shift, value, out, x, acc);
        value := acc;
        if value > MaxI32 {
          return Err(VarintOverflow);
        }
        if digit == x {
          if shift > 0 && digit == 0 {
            return Err(NonCanonicalVarint);
          }
          return Ok(value);
        }
        shift := shift + 7;
      }
      ReadEnd(Unguarded, base.input, base.pos, shift, value, out);
      return Err(VarintOverflow);
    }

    /** The ULEB128 value with no further ceiling. */
    method DeserializeLen() returns (r: Result<int>)
      modifies base
      ensures r == ValueOf(Decode(Unguarded, base.input, old(base.pos)))
      ensures r.Ok? ==> base.pos == Decode(Unguarded, base.input, old(base.pos)).value.1
    {
      r := DeserializeUleb128AsU32();
    }

    method DeserializeVariantIndex() returns (r: Result<int>)
      modifies base
      ensures r == ValueOf(Decode(Unguarded, base.input, old(base.pos)))
      ensures r.Ok? ==> base.pos == Decode(Unguarded, base.input, old(base.pos)).value.1
    {
      r := DeserializeUleb128AsU32();
    }

    /** The base's `deserialize_bytes` with this length reader. */
    method DeserializeBytes() returns (r: Result<seq<byte>>)
      modifies base
      ensures Matches(r, LcsBytes(Unguarded, base.input, old(base.pos)), base.pos)
    {
      var len := DeserializeLen();
      r := base.DeserializeBytes(len);
    }

    method DeserializeStr() returns (r: Result<seq<byte>>)
      modifies base
      ensures Matches(r, LcsBytes(Unguarded, base.input, old(base.pos)), base.pos)
    {
      var len := DeserializeLen();
      r := base.DeserializeStr(len);
    }

    /** `compare_bytes(...) >= 0` throws: keys must strictly increase. */
    method CheckThatKeySlicesAreIncreasing(key1: (nat, nat), key2: (nat, nat)) returns (r: Result<()>)
      requires key1.0 <= key1.1 <= |base.input| && key2.0 <= key2.1 <= |base.input|
      ensures r.Ok? <==> KeysIncreasing(base.input, key1, key2)
      ensures r.Err? ==> r.error == KeysOutOfOrder
    {
      if !Less(base.input[key1.0..key1.1], base.input[key2.0..key2.1]) {
        return Err(KeysOutOfOrder);
      }
      return Ok(());
    }
  }
}
