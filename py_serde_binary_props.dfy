/**
  * What the `serde_binary` engine promises, stated on `Written` and
  * `Parsed`: only dataclasses spend the container-depth budget, primitives
  * read back what was written, and malformed tags, indices and booleans
  * are refused.
  */
module PySerdeBinaryProps {
  import opened Wire
  import Utf8
  import opened PyTypes
  import opened PySerdeBinary

  /** `d` dataclasses nested one in another around a unit field. */
  function NestT(d: nat): Type
  {
    if d == 0 then Unit else Struct([NestT(d - 1)])
  }

  function NestV(d: nat): Value
  {
    if d == 0 then NoneV else StructV([NestV(d - 1)])
  }

  /** A budget allows `d` levels. */
  predicate Fits(budget: Option<nat>, d: nat)
  {
    budget.None? || d <= budget.value
  }

  /** A single field is written as its value alone. */
  lemma OneField(h: Hooks, out: seq<byte>, budget: Option<nat>, v: Value, t: Type)
    ensures WrittenFields(h, out, budget, [v], [t]) == Written(h, out, budget, v, t)
  {
    assert [v][1..] == [] && [t][1..] == [];
  }

  /** A single field is read as its value alone. */
  lemma OneFieldRead(h: ReadHooks, input: seq<byte>, pos: nat, budget: Option<nat>, t: Type, result: seq<Value>)
    requires pos <= |input| && h.Valid()
    ensures Parsed(h, input, pos, budget, t).Ok? ==>
      ParsedFields(h, input, pos, budget, [t], result) ==
        Ok((result + [Parsed(h, input, pos, budget, t).value.0], Parsed(h, input, pos, budget, t).value.1))
    ensures Parsed(h, input, pos, budget, t).Err? ==>
      ParsedFields(h, input, pos, budget, [t], result) == Err(Parsed(h, input, pos, budget, t).error)
  {
    assert [t][1..] == [];
  }

  /** `d` nested dataclasses serialize (to nothing) exactly when the budget
    * allows `d` levels; otherwise the depth error is raised. */
  lemma {:induction false} NestedWrite(h: Hooks, out: seq<byte>, budget: Option<nat>, d: nat)
    ensures Written(h, out, budget, NestV(d), NestT(d)) == if Fits(budget, d) then Ok(out) else Err(ContainerTooDeep)
    decreases d
  {
    if d > 0 {
      assert Written(h, out, budget, NestV(d), NestT(d)) == WrittenStruct(h, out, budget, [NestV(d - 1)], [NestT(d - 1)]);
      var inner := Enter(budget);
      if inner.Ok? {
        NestedWrite(h, out, inner.value, d - 1);
        OneField(h, out, inner.value, NestV(d - 1), NestT(d - 1));
        assert Fits(inner.value, d - 1) <==> Fits(budget, d);
      }
    }
  }

  /** `d` nested dataclasses deserialize exactly when the budget allows `d`
    * levels, and consume nothing. */
  lemma {:induction false} NestedRead(h: ReadHooks, input: seq<byte>, pos: nat, budget: Option<nat>, d: nat)
    requires pos <= |input| && h.Valid()
    ensures Parsed(h, input, pos, budget, NestT(d)) == if Fits(budget, d) then Ok((NestV(d), pos)) else Err(ContainerTooDeep)
    decreases d
  {
    if d > 0 {
      var inner := Enter(budget);
      if inner.Ok? {
        NestedRead(h, input, pos, inner.value, d - 1);
        OneFieldRead(h, input, pos, inner.value, NestT(d - 1), []);
        assert Fits(inner.value, d - 1) <==> Fits(budget, d);
        assert [] + [NestV(d - 1)] == [NestV(d - 1)];
      }
    }
  }

  /** The budget is given back after each dataclass: two `n`-deep values
    * side by side in a tuple fit a budget of `n`. */
  lemma SiblingsShareBudget(h: Hooks, rh: ReadHooks, out: seq<byte>, input: seq<byte>, pos: nat, n: nat)
    requires pos <= |input| && rh.Valid()
    ensures Written(h, out, Some(n), TupleV([NestV(n), NestV(n)]), TupleOf([NestT(n), NestT(n)])) == Ok(out)
    ensures Parsed(rh, input, pos, Some(n), TupleOf([NestT(n), NestT(n)])) == Ok((TupleV([NestV(n), NestV(n)]), pos))
  {
    SiblingsWrite(h, out, n);
    SiblingsRead(rh, input, pos, n);
  }

  lemma SiblingsWrite(h: Hooks, out: seq<byte>, n: nat)
    ensures WrittenFields(h, out, Some(n), [NestV(n), NestV(n)], [NestT(n), NestT(n)]) == Ok(out)
  {
    NestedWrite(h, out, Some(n), n);
    OneField(h, out, Some(n), NestV(n), NestT(n));
    var ts := [NestT(n), NestT(n)];
    var vs := [NestV(n), NestV(n)];
    assert ts[1..] == [NestT(n)] && vs[1..] == [NestV(n)];
  }

  lemma SiblingsRead(rh: ReadHooks, input: seq<byte>, pos: nat, n: nat)
    requires pos <= |input| && rh.Valid()
    ensures ParsedFields(rh, input, pos, Some(n), [NestT(n), NestT(n)], []) == Ok(([NestV(n), NestV(n)], pos))
  {
    NestedRead(rh, input, pos, Some(n), n);
    OneFieldRead(rh, input, pos, Some(n), NestT(n), [NestV(n)]);
    var ts := [NestT(n), NestT(n)];
    assert ts[1..] == [NestT(n)];
    assert [] + [NestV(n)] == [NestV(n)];
    assert [NestV(n)] + [NestV(n)] == [NestV(n), NestV(n)];
  }

  /** Sequences and options spend no depth: a list holding an `n`-deep
    * value, and an option of one, fit a budget of `n`. */
  lemma ContainersSpendNoDepth(h: Hooks, out: seq<byte>, n: nat, prefix: seq<byte>)
    requires n > 0 && h.len(1) == Ok(prefix)
    ensures Written(h, out, Some(n), ListV([NestV(n)]), SeqOf(NestT(n))) == Ok(out + prefix)
    ensures Written(h, out, Some(n), NestV(n), OptionOf(NestT(n))) == Ok(out + [1])
  {
    NestedWrite(h, out + prefix, Some(n), n);
    NestedWrite(h, out + [1], Some(n), n);
    var items := [NestV(n)];
    assert items[1..] == [];
    assert WrittenItems(h, out + prefix, Some(n), items, SeqOf(NestT(n))) == Ok(out + prefix);
  }

  /** `deserialize_bool` succeeds exactly on the bytes 0 and 1, and reads
    * back what `serialize_bool` wrote. */
  lemma BoolRoundTrip(h: Hooks, rh: ReadHooks, out: seq<byte>, budget: Option<nat>, x: bool, rest: seq<byte>)
    requires rh.Valid()
    ensures Written(h, out, budget, BoolV(x), Bool) == Ok(out + [BoolByte(x)])
    ensures Parsed(rh, out + [BoolByte(x)] + rest, |out|, budget, Bool) == Ok((BoolV(x), |out| + 1))
  {
    ReadBoolOf(out, x, rest, Strict);
  }

  lemma BoolBytes(rh: ReadHooks, input: seq<byte>, pos: nat, budget: Option<nat>)
    requires pos <= |input| && rh.Valid()
    ensures Parsed(rh, input, pos, budget, Bool).Ok? <==> pos < |input| && input[pos] <= 1
    ensures pos < |input| && input[pos] > 1 ==> Parsed(rh, input, pos, budget, Bool) == Err(InvalidBool)
    ensures pos == |input| ==> Parsed(rh, input, pos, budget, Bool) == Err(TruncatedInput)
  {
  }

  /** Integers are written with `to_bytes` exactly when in range, and
    * `from_bytes` at the same width reads them back. */
  lemma IntRoundTrip(h: Hooks, rh: ReadHooks, out: seq<byte>, budget: Option<nat>, x: int, w: Width, signed: bool, rest: seq<byte>)
    requires rh.Valid()
    ensures Written(h, out, budget, IntV(x), Int(w, signed)).Ok? <==> InRange(x, w, signed)
    ensures InRange(x, w, signed) ==>
      var buf := Written(h, out, budget, IntV(x), Int(w, signed)).value;
      |buf| == |out| + Bytes(w) &&
      Parsed(rh, buf + rest, |out|, budget, Int(w, signed)) == Ok((IntV(x), |buf|))
  {
    if InRange(x, w, signed) {
      var bytes := ToBytes(x, w, signed).value;
      LaxIntOfToBytes(x, w, signed, []);
      assert bytes + [] == bytes;
      var input := out + bytes + rest;
      assert input[|out|..|out| + Bytes(w)] == bytes;
      assert Split(bytes, Bytes(w)).0 == bytes;
    }
  }

  /** A short input is refused rather than read as a smaller integer. */
  lemma IntTooShort(rh: ReadHooks, input: seq<byte>, pos: nat, budget: Option<nat>, w: Width, signed: bool)
    requires pos <= |input| && rh.Valid() && |input| - pos < Bytes(w)
    ensures Parsed(rh, input, pos, budget, Int(w, signed)) == Err(TruncatedInput)
  {
  }

  /** The length hooks agree on `n` in front of `tail`: what `len` writes
    * for `n`, the reading hook reads back as `n`, consuming exactly it. */
  predicate LenRoundTrip(h: Hooks, rh: ReadHooks, n: nat, tail: seq<byte>)
  {
    h.len(n).Ok? && rh.len(h.len(n).value + tail) == Ok((n, |h.len(n).value|))
  }

  /** Bytes are the length prefix and the content; when the length hooks
    * agree, exactly that many bytes are read back. */
  lemma BytesRoundTrip(h: Hooks, rh: ReadHooks, out: seq<byte>, budget: Option<nat>, bytes: seq<byte>, rest: seq<byte>)
    requires rh.Valid() && LenRoundTrip(h, rh, |bytes|, bytes + rest)
    ensures Written(h, out, budget, BytesV(bytes), ByteString) == Ok(out + h.len(|bytes|).value + bytes)
    ensures Parsed(rh, out + h.len(|bytes|).value + bytes + rest, |out|, budget, ByteString) ==
      Ok((BytesV(bytes), |out + h.len(|bytes|).value + bytes|))
  {
    ReadsBack(h, rh, out, bytes, rest);
  }

  /** The read half of the bytes round trip. */
  lemma ReadsBack(h: Hooks, rh: ReadHooks, out: seq<byte>, bytes: seq<byte>, rest: seq<byte>)
    requires rh.Valid() && LenRoundTrip(h, rh, |bytes|, bytes + rest)
    ensures ParsedBytes(rh, out + h.len(|bytes|).value + bytes + rest, |out|) == Ok((bytes, |out + h.len(|bytes|).value + bytes|))
  {
    var prefix := h.len(|bytes|).value;
    var input := out + prefix + bytes + rest;
    assert input[|out|..] == prefix + (bytes + rest);
    assert input[|out| + |prefix|..|out| + |prefix| + |bytes|] == bytes;
  }

  /** Strings are their UTF-8 bytes behind the length prefix and read
    * back. */
  lemma StrRoundTrip(h: Hooks, rh: ReadHooks, out: seq<byte>, budget: Option<nat>, s: string, rest: seq<byte>)
    requires rh.Valid() && LenRoundTrip(h, rh, |Utf8.Encode(s)|, Utf8.Encode(s) + rest)
    ensures Written(h, out, budget, StrV(s), Str) == Ok(out + h.len(|Utf8.Encode(s)|).value + Utf8.Encode(s))
    ensures Parsed(rh, out + h.len(|Utf8.Encode(s)|).value + Utf8.Encode(s) + rest, |out|, budget, Str) ==
      Ok((StrV(s), |out + h.len(|Utf8.Encode(s)|).value + Utf8.Encode(s)|))
  {
    ReadsBack(h, rh, out, Utf8.Encode(s), rest);
    Utf8.DecodeEncode(s);
  }

  /** `deserialize_bytes` never reads past the input: a length beyond what
    * remains is "Input is too short". */
  lemma BytesTooShort(rh: ReadHooks, input: seq<byte>, pos: nat, budget: Option<nat>, n: nat, used: nat)
    requires pos <= |input| && rh.Valid()
    requires rh.len(input[pos..]) == Ok((n, used)) && n > |input| - pos - used
    ensures Parsed(rh, input, pos, budget, ByteString) == Err(TruncatedInput)
  {
  }

  /** An option is the tag 0, or the tag 1 and the value; any other tag is
    * refused. */
  lemma OptionTags(h: Hooks, rh: ReadHooks, out: seq<byte>, input: seq<byte>, pos: nat, budget: Option<nat>, v: Value, t: Type)
    requires pos < |input| && rh.Valid()
    ensures Written(h, out, budget, NoneV, OptionOf(t)) == Ok(out + [0])
    ensures v != NoneV ==> Written(h, out, budget, v, OptionOf(t)) == Written(h, out + [1], budget, v, t)
    ensures input[pos] == 0 ==> Parsed(rh, input, pos, budget, OptionOf(t)) == Ok((NoneV, pos + 1))
    ensures input[pos] == 1 ==> Parsed(rh, input, pos, budget, OptionOf(t)) == Parsed(rh, input, pos + 1, budget, t)
    ensures input[pos] > 1 ==> Parsed(rh, input, pos, budget, OptionOf(t)) == Err(WrongOptionTag)
  {
  }

  /** A variant index outside `VARIANTS` is refused in both directions. */
  lemma VariantIndexOutOfRange(h: Hooks, rh: ReadHooks, out: seq<byte>, input: seq<byte>, pos: nat, budget: Option<nat>,
                               vs: seq<Type>, index: nat, fields: seq<Value>, used: nat)
    requires pos <= |input| && rh.Valid() && index >= |vs|
    ensures h.variantIndex(index).Ok? ==> Written(h, out, budget, VariantV(index, fields), Enum(vs)) == Err(UnexpectedVariantIndex)
    ensures rh.variantIndex(input[pos..]) == Ok((index, used)) ==> Parsed(rh, input, pos, budget, Enum(vs)) == Err(UnexpectedVariantIndex)
  {
  }

  /** The serializer records, before each entry, the buffer's length: one
    * offset per entry, the first at the buffer's length when the entries
    * start. */
  lemma {:induction false} EntryOffsets(h: Hooks, out: seq<byte>, budget: Option<nat>, entries: seq<(Value, Value)>, t: Type, offsets: seq<nat>)
    requires t.MapOf? && WrittenEntries(h, out, budget, entries, t, offsets).Ok?
    ensures var written := WrittenEntries(h, out, budget, entries, t, offsets).value.1;
      |written| == |offsets| + |entries| && written[..|offsets|] == offsets &&
      (|entries| > 0 ==> written[|offsets|] == |out|)
    decreases |entries|
  {
    if |entries| > 0 {
      var afterKey := Written(h, out, budget, entries[0].0, t.key).value;
      var afterValue := Written(h, afterKey, budget, entries[0].1, t.value).value;
      EntryOffsets(h, afterValue, budget, entries[1..], t, offsets + [|out|]);
      var written := WrittenEntries(h, out, budget, entries, t, offsets).value.1;
      assert written[..|offsets| + 1] == offsets + [|out|];
      assert written[..|offsets|] == (offsets + [|out|])[..|offsets|];
    }
  }

  /** A length or index reader taking one byte, for the examples below. */
  function OneByte(s: seq<byte>): Result<(nat, nat)>
  {
    if |s| == 0 then Err(TruncatedInput) else Ok((s[0] as nat, 1))
  }

  /** Reading hooks whose key check refuses every pair of slices, as a
    * subclass's check of strictly increasing keys would for some pair. */
  function RefusingHooks(): ReadHooks
  {
    ReadHooks(OneByte, OneByte, (input, previous, current) => Err(KeysOutOfOrder))
  }

  /** Reading hooks whose key check answers `False` without raising. */
  function AnsweringHooks(): ReadHooks
  {
    ReadHooks(OneByte, OneByte, (input, previous, current) => Ok(false))
  }

  function ByteKeys(): Type
  {
    MapOf(Int(W8, false), Unit)
  }

  lemma ExampleHooksValid()
    ensures RefusingHooks().Valid() && AnsweringHooks().Valid()
  {
  }

  /** A `uint8` key is its byte. */
  lemma ByteKey(h: ReadHooks, input: seq<byte>, pos: nat, budget: Option<nat>)
    requires pos < |input| && h.Valid()
    ensures Parsed(h, input, pos, budget, Int(W8, false)) == Ok((IntV(input[pos] as int), pos + 1))
  {
    var bytes := input[pos..pos + 1];
    assert bytes[1..] == [];
    assert FromBytes(bytes, false) == FromLE(bytes) == input[pos] as int;
  }

  /** One `Dict[uint8, unit]` entry: its key byte, and the key check when
    * there is a previous key. */
  lemma ByteEntry(h: ReadHooks, input: seq<byte>, pos: nat, previous: Option<(nat, nat)>)
    requires pos < |input| && h.Valid()
    ensures
      var next: nat := pos + 1;
      var entry: Result<((Value, Value, (nat, nat)), nat)> := Ok(((IntV(input[pos] as int), NoneV, (pos, next)), next));
      var check := if previous.Some? then h.keySlicesIncreasing(input, previous.value, (pos, next)) else Ok(true);
      ParsedEntry(h, input, pos, None, ByteKeys(), previous) == if check.Ok? then entry else Err(check.error)
  {
    ByteKey(h, input, pos, None);
  }

  /** A dict is its length and then its entries. */
  lemma MapParsed(h: ReadHooks, input: seq<byte>, pos: nat, budget: Option<nat>, t: Type, n: nat, p: nat,
                  entries: Result<(seq<(Value, Value)>, nat)>)
    requires pos <= |input| && h.Valid() && t.MapOf? && ReadWith(h.len, input, pos) == Ok((n, p))
    requires ParsedEntries(h, input, p, budget, t, n, None, []) == entries
    ensures entries.Ok? ==> Parsed(h, input, pos, budget, t) == Ok((MapV(entries.value.0), entries.value.1))
    ensures entries.Err? ==> Parsed(h, input, pos, budget, t) == Err(entries.error)
  {
  }

  /** The key check starts at the second entry: a one-entry dict is read
    * even when every check would fail, a two-entry one is not. */
  lemma CheckFromSecondEntry()
    ensures Parsed(RefusingHooks(), [1, 7], 0, None, ByteKeys()) == Ok((MapV([(IntV(7), NoneV)]), 2))
    ensures Parsed(RefusingHooks(), [2, 7, 8], 0, None, ByteKeys()) == Err(KeysOutOfOrder)
  {
    var one: seq<byte> := [1, 7];
    var two: seq<byte> := [2, 7, 8];
    OneEntryUnchecked();
    MapParsed(RefusingHooks(), one, 0, None, ByteKeys(), 1, 1, Ok(([(IntV(7), NoneV)], 2)));
    SecondEntryChecked();
    MapParsed(RefusingHooks(), two, 0, None, ByteKeys(), 2, 1, Err(KeysOutOfOrder));
  }

  lemma OneEntryUnchecked()
    ensures ReadWith(RefusingHooks().len, [1, 7], 0) == Ok((1, 1))
    ensures ParsedEntries(RefusingHooks(), [1, 7], 1, None, ByteKeys(), 1, None, []) == Ok(([(IntV(7), NoneV)], 2))
  {
    var h := RefusingHooks();
    var one: seq<byte> := [1, 7];
    var entry := [(IntV(7), NoneV)];
    assert one[0..] == one;
    ByteEntry(h, one, 1, None);
    assert Put([], IntV(7), NoneV) == entry;
    assert ParsedEntries(h, one, 2, None, ByteKeys(), 0, Some((1, 2)), entry) == Ok((entry, 2));
  }

  lemma SecondEntryChecked()
    ensures ReadWith(RefusingHooks().len, [2, 7, 8], 0) == Ok((2, 1))
    ensures ParsedEntries(RefusingHooks(), [2, 7, 8], 1, None, ByteKeys(), 2, None, []) == Err(KeysOutOfOrder)
  {
    var h := RefusingHooks();
    var two: seq<byte> := [2, 7, 8];
    assert two[0..] == two;
    ByteEntry(h, two, 1, None);
    ByteEntry(h, two, 2, Some((1, 2)));
    assert Put([], IntV(7), NoneV) == [(IntV(7), NoneV)];
    assert ParsedEntries(h, two, 2, None, ByteKeys(), 1, Some((1, 2)), [(IntV(7), NoneV)]) == Err(KeysOutOfOrder);
  }

  /** The key check's answer is dropped: a key check that answers `False` instead of
    * raising lets keys in decreasing order through. */
  lemma CheckAnswerDropped()
    ensures Parsed(AnsweringHooks(), [2, 8, 7], 0, None, ByteKeys()) == Ok((MapV([(IntV(8), NoneV), (IntV(7), NoneV)]), 3))
  {
    var input: seq<byte> := [2, 8, 7];
    DecreasingKeysRead();
    MapParsed(AnsweringHooks(), input, 0, None, ByteKeys(), 2, 1, Ok(([(IntV(8), NoneV), (IntV(7), NoneV)], 3)));
  }

  lemma DecreasingKeysRead()
    ensures ReadWith(AnsweringHooks().len, [2, 8, 7], 0) == Ok((2, 1))
    ensures ParsedEntries(AnsweringHooks(), [2, 8, 7], 1, None, ByteKeys(), 2, None, []) == Ok(([(IntV(8), NoneV), (IntV(7), NoneV)], 3))
  {
    var h := AnsweringHooks();
    var input: seq<byte> := [2, 8, 7];
    var first := [(IntV(8), NoneV)];
    var both := [(IntV(8), NoneV), (IntV(7), NoneV)];
    assert input[0..] == input;
    ByteEntry(h, input, 1, None);
    ByteEntry(h, input, 2, Some((1, 2)));
    LastEntry(h, input, first, both);
    assert Put([], IntV(8), NoneV) == first;
  }

  lemma LastEntry(h: ReadHooks, input: seq<byte>, first: seq<(Value, Value)>, both: seq<(Value, Value)>)
    requires h == AnsweringHooks() && input == [2, 8, 7]
    requires first == [(IntV(8), NoneV)] && both == [(IntV(8), NoneV), (IntV(7), NoneV)]
    ensures ParsedEntries(h, input, 2, None, ByteKeys(), 1, Some((1, 2)), first) == Ok((both, 3))
  {
    ByteEntry(h, input, 2, Some((1, 2)));
    LookupAbsent(first, IntV(7));
    assert Put(first, IntV(7), NoneV) == both;
    assert ParsedEntries(h, input, 3, None, ByteKeys(), 0, Some((2, 3)), both) == Ok((both, 3));
  }
}
