/**
  * What the Python bincode runtime promises about `serialize` and
  * `deserialize` taken together: every value of its type within the limits
  * of the format reads back from its bytes, whatever follows them. Unlike
  * LCS, a dict reads back in any insertion order.
  */
module PyBincodeRoundTrip {
  import opened Wire
  import Utf8
  import opened PyTypes
  import opened PyBincode

  /** `decode_length` is the lax `uint64` decoder. */
  lemma LengthIsLaxInt(content: seq<byte>)
    ensures LaxInt(content, W64, false) == (DecodeLength(content).0, DecodeLength(content).1)
  {
  }

  /** `decode_variant_index` is the lax `uint32` decoder. */
  lemma IndexIsLaxInt(content: seq<byte>)
    ensures LaxInt(content, W32, false) == (DecodeVariantIndex(content).0, DecodeVariantIndex(content).1)
  {
  }

  /** A length reads back from its eight bytes. */
  lemma LengthRoundTrip(n: nat, rest: seq<byte>)
    requires n <= MaxLength
    ensures EncodeLength(n).Ok? && DecodeLength(EncodeLength(n).value + rest) == (n, rest)
  {
    Pow2Values();
    LaxIntOfToBytes(n, W64, false, rest);
    LengthIsLaxInt(EncodeLength(n).value + rest);
  }

  /** A variant index reads back from its four bytes. */
  lemma IndexRoundTrip(index: nat, rest: seq<byte>)
    requires index <= MaxIndex
    ensures EncodeVariantIndex(index).Ok? && DecodeVariantIndex(EncodeVariantIndex(index).value + rest) == (index, rest)
  {
    Pow2Values();
    LaxIntOfToBytes(index, W32, false, rest);
    IndexIsLaxInt(EncodeVariantIndex(index).value + rest);
  }

  /** A length on fewer than eight bytes takes what there is. */
  lemma ShortLength()
    ensures DecodeLength([]) == (0, [])
    ensures DecodeLength([5]) == (5, [])
  {
    assert FromLE([5]) == 5 by {
      assert [5 as byte][1..] == [];
    }
  }

  lemma Assoc(a: seq<byte>, b: seq<byte>, c: seq<byte>)
    ensures a + b + c == a + (b + c)
  {
  }

  lemma SplitAppend(a: seq<byte>, b: seq<byte>)
    ensures Split(a + b, |a|) == (a, b)
  {
    assert (a + b)[..|a|] == a && (a + b)[|a|..] == b;
  }

  /** A string reads back from what the (corrected) `encode_str` writes. */
  lemma StrRoundTrip(s: string, rest: seq<byte>)
    requires |Utf8.Encode(s)| <= MaxLength
    ensures EncodeStr(s).Ok? && DecodeStr(EncodeStr(s).value + rest) == Ok((s, rest))
  {
    var bytes := Utf8.Encode(s);
    LengthRoundTrip(|bytes|, bytes + rest);
    var prefix := EncodeLength(|bytes|).value;
    assert EncodeStr(s).value == prefix + bytes;
    Assoc(prefix, bytes, rest);
    SplitAppend(bytes, rest);
    Utf8.DecodeEncode(s);
  }

  /** A byte string reads back from what `encode_bytes` writes. */
  lemma BytesRoundTrip(bytes: seq<byte>, rest: seq<byte>)
    requires |bytes| <= MaxLength
    ensures EncodeBytes(bytes).Ok? && DecodeBytes(EncodeBytes(bytes).value + rest) == (bytes, rest)
  {
    LengthRoundTrip(|bytes|, bytes + rest);
    var prefix := EncodeLength(|bytes|).value;
    assert EncodeBytes(bytes).value == prefix + bytes;
    Assoc(prefix, bytes, rest);
    SplitAppend(bytes, rest);
  }

  /** The bool's byte reads back as the bool. */
  lemma BoolRoundTrip(b: bool, rest: seq<byte>)
    ensures Deserialize([BoolByte(b)] + rest, Bool) == Ok((BoolV(b), rest))
  {
    var content := [BoolByte(b)] + rest;
    assert Split(content, 1) == ([BoolByte(b)], rest);
    assert FromLE([BoolByte(b)]) == BoolByte(b) by {
      assert [BoolByte(b)][1..] == [];
    }
  }

  /** Round trip: `deserialize(serialize(v, t) + rest, t)` gives back `v` and
    * `rest`, for every value of its type within the limits of the format. */
  lemma {:induction false} RoundTrip(v: Value, t: Type, rest: seq<byte>)
    requires Encodable(v, t)
    ensures Serialize(v, t).Ok? && Deserialize(Serialize(v, t).value + rest, t) == Ok((v, rest))
    decreases t, 3, 0
  {
    match t
    case Bool =>
      BoolRoundTrip(v.b, rest);
    case Int(w, signed) =>
      LaxIntOfToBytes(v.i, w, signed, rest);
    case F32 =>
      assert false;
    case F64 =>
      assert false;
    case Char =>
      assert false;
    case Unit =>
      assert Serialize(v, t).value + rest == rest;
    case Str =>
      StrRoundTrip(v.s, rest);
    case ByteString =>
      BytesRoundTrip(v.bytes, rest);
    case SeqOf(_) =>
      SeqRoundTrip(v, t, rest);
    case TupleOf(ts) =>
      FieldsRoundTrip(v.items, ts, rest);
    case OptionOf(_) =>
      OptionRoundTrip(v, t, rest);
    case MapOf(_, _) =>
      MapRoundTrip(v, t, rest);
    case Struct(fs) =>
      FieldsRoundTrip(v.fields, fs, rest);
    case Enum(_) =>
      EnumRoundTrip(v, t, rest);
  }

  lemma {:induction false} SeqRoundTrip(v: Value, t: Type, rest: seq<byte>)
    requires t.SeqOf? && Encodable(v, t)
    ensures Serialize(v, t).Ok? && Deserialize(Serialize(v, t).value + rest, t) == Ok((v, rest))
    decreases t, 2, 0
  {
    ItemsRoundTrip(v.items, t, rest);
    var body := SerializeItems(v.items, t).value;
    LengthRoundTrip(|v.items|, body + rest);
    var prefix := EncodeLength(|v.items|).value;
    assert Serialize(v, t) == Ok(prefix + body);
    Assoc(prefix, body, rest);
    ReadSeqOf(prefix + (body + rest), t, |v.items|, body + rest, v.items, rest);
  }

  /** How a list is read, when its length and its items read. */
  lemma ReadSeqOf(content: seq<byte>, t: Type, n: nat, mid: seq<byte>, items: seq<Value>, out: seq<byte>)
    requires t.SeqOf? && DecodeLength(content) == (n, mid) && ReadItems(mid, t, n) == Ok((items, out))
    ensures Deserialize(content, t) == Ok((ListV(items), out))
  {
  }

  /** The items of a list, one after the other. */
  lemma {:induction false} ItemsRoundTrip(items: seq<Value>, t: Type, rest: seq<byte>)
    requires t.SeqOf? && forall i :: 0 <= i < |items| ==> Encodable(items[i], t.item)
    ensures SerializeItems(items, t).Ok?
    ensures ReadItems(SerializeItems(items, t).value + rest, t, |items|) == Ok((items, rest))
    decreases t, 1, |items|
  {
    if |items| > 0 {
      ItemsRoundTrip(items[1..], t, rest);
      var tail := SerializeItems(items[1..], t).value;
      RoundTrip(items[0], t.item, tail + rest);
      var head := Serialize(items[0], t.item).value;
      assert SerializeItems(items, t) == Ok(head + tail);
      Assoc(head, tail, rest);
      ReadItemsCons(head + (tail + rest), t, |items| - 1, items[0], tail + rest, items[1..], rest);
      assert items == [items[0]] + items[1..];
    } else {
      assert SerializeItems(items, t).value + rest == rest && items == [];
    }
  }

  lemma ReadItemsCons(content: seq<byte>, t: Type, n: nat, head: Value, mid: seq<byte>, tail: seq<Value>, out: seq<byte>)
    requires t.SeqOf? && Deserialize(content, t.item) == Ok((head, mid)) && ReadItems(mid, t, n) == Ok((tail, out))
    ensures ReadItems(content, t, n + 1) == Ok(([head] + tail, out))
  {
  }

  /** The fields of a dataclass or the elements of a tuple, one after the
    * other. */
  lemma {:induction false} FieldsRoundTrip(items: seq<Value>, ts: seq<Type>, rest: seq<byte>)
    requires |items| == |ts| && forall i :: 0 <= i < |ts| ==> Encodable(items[i], ts[i])
    ensures SerializeFields(items, ts).Ok?
    ensures ReadFields(SerializeFields(items, ts).value + rest, ts) == Ok((items, rest))
    decreases ts
  {
    if |ts| > 0 {
      forall i | 0 <= i < |ts| - 1
        ensures Encodable(items[1..][i], ts[1..][i])
      {
        assert items[1..][i] == items[i + 1] && ts[1..][i] == ts[i + 1];
      }
      FieldsRoundTrip(items[1..], ts[1..], rest);
      var tail := SerializeFields(items[1..], ts[1..]).value;
      RoundTrip(items[0], ts[0], tail + rest);
      var head := Serialize(items[0], ts[0]).value;
      assert SerializeFields(items, ts) == Ok(head + tail);
      Assoc(head, tail, rest);
      ReadFieldsCons(head + (tail + rest), ts, items[0], tail + rest, items[1..], rest);
      assert items == [items[0]] + items[1..];
    } else {
      assert SerializeFields(items, ts).value + rest == rest && items == [];
    }
  }

  lemma ReadFieldsCons(content: seq<byte>, ts: seq<Type>, head: Value, mid: seq<byte>, tail: seq<Value>, out: seq<byte>)
    requires |ts| > 0 && Deserialize(content, ts[0]) == Ok((head, mid)) && ReadFields(mid, ts[1..]) == Ok((tail, out))
    ensures ReadFields(content, ts) == Ok(([head] + tail, out))
  {
  }

  /** `None` is the tag 0; any other value is the tag 1 and the value. */
  lemma {:induction false} OptionRoundTrip(v: Value, t: Type, rest: seq<byte>)
    requires t.OptionOf? && Encodable(v, t)
    ensures Serialize(v, t).Ok? && Deserialize(Serialize(v, t).value + rest, t) == Ok((v, rest))
    decreases t, 2, 0
  {
    if v.NoneV? {
      assert Serialize(v, t) == Ok([0]);
      ReadNone(rest, t);
    } else {
      RoundTrip(v, t.inner, rest);
      var body := Serialize(v, t.inner).value;
      assert Serialize(v, t) == Ok([1] + body);
      Assoc([1], body, rest);
      ReadSome(body + rest, t);
    }
  }

  /** The tag 0 alone. */
  lemma ReadNone(content: seq<byte>, t: Type)
    requires t.OptionOf?
    ensures Deserialize([0] + content, t) == Ok((NoneV, content))
  {
    assert Split([0] + content, 1) == ([0], content);
    assert FromLE([0]) == 0;
  }

  /** The tag 1, then the value. */
  lemma ReadSome(content: seq<byte>, t: Type)
    requires t.OptionOf?
    ensures Deserialize([1] + content, t) == Deserialize(content, t.inner)
  {
    assert Split([1] + content, 1) == ([1], content);
    assert FromLE([1]) == 1 by {
      assert [1 as byte][1..] == [];
    }
  }

  /** A variant: its index, then the fields of its dataclass. */
  lemma {:induction false} EnumRoundTrip(v: Value, t: Type, rest: seq<byte>)
    requires t.Enum? && Encodable(v, t)
    ensures Serialize(v, t).Ok? && Deserialize(Serialize(v, t).value + rest, t) == Ok((v, rest))
    decreases t, 2, 0
  {
    var fs := t.variants[v.index].fields;
    FieldsRoundTrip(v.fields, fs, rest);
    var body := SerializeFields(v.fields, fs).value;
    IndexRoundTrip(v.index, body + rest);
    var prefix := EncodeVariantIndex(v.index).value;
    assert Serialize(v, t) == Ok(prefix + body);
    Assoc(prefix, body, rest);
    ReadVariantOf(prefix + (body + rest), t, v.index, body + rest, v.fields, rest);
  }

  /** How a variant is read, when its index and its fields read. */
  lemma ReadVariantOf(content: seq<byte>, t: Type, index: nat, mid: seq<byte>, fields: seq<Value>, out: seq<byte>)
    requires t.Enum? && DecodeVariantIndex(content) == (index, mid) && index < |t.variants| && t.variants[index].Struct?
    requires ReadFields(mid, t.variants[index].fields) == Ok((fields, out))
    ensures Deserialize(content, t) == Ok((VariantV(index, fields), out))
  {
  }

  /** Every key and value of an encodable dict is encodable. */
  lemma EntryEncodable(es: seq<(Value, Value)>, t: Type, i: nat)
    requires t.MapOf? && Encodable(MapV(es), t) && i < |es|
    ensures Encodable(es[i].0, t.key) && Encodable(es[i].1, t.value)
  {
  }

  lemma TakeOneMore(es: seq<(Value, Value)>, i: nat)
    requires i < |es|
    ensures es[..i] + [(es[i].0, es[i].1)] == es[..i + 1]
  {
  }

  /** How one dict item is read and stored. */
  lemma ReadEntriesCons(content: seq<byte>, t: Type, n: nat, res: seq<(Value, Value)>,
                        key: Value, afterKey: seq<byte>, value: Value, afterValue: seq<byte>)
    requires t.MapOf? && Deserialize(content, t.key) == Ok((key, afterKey))
    requires Deserialize(afterKey, t.value) == Ok((value, afterValue))
    ensures ReadEntries(content, t, n + 1, res) == ReadEntries(afterValue, t, n, Put(res, key, value))
  {
  }

  /** Entry `i`'s bytes: its key's, then its value's, then the later
    * entries'. */
  lemma EntryBytes(es: seq<(Value, Value)>, t: Type, i: nat, rest: seq<byte>)
    requires t.MapOf? && i < |es| && SerializeEntries(es[i + 1..], t).Ok?
    requires Serialize(es[i].0, t.key).Ok? && Serialize(es[i].1, t.value).Ok?
    ensures SerializeEntries(es[i..], t).Ok?
    ensures SerializeEntries(es[i..], t).value + rest ==
      Serialize(es[i].0, t.key).value + (Serialize(es[i].1, t.value).value + (SerializeEntries(es[i + 1..], t).value + rest))
  {
    assert es[i..][0] == es[i] && es[i..][1..] == es[i + 1..];
  }

  /** Entry `i` reads back and is stored after the first `i`. */
  lemma EntryStep(es: seq<(Value, Value)>, t: Type, i: nat, tail: seq<byte>)
    requires t.MapOf? && Encodable(MapV(es), t) && i < |es|
    ensures Serialize(es[i].0, t.key).Ok? && Serialize(es[i].1, t.value).Ok?
    ensures var key := Serialize(es[i].0, t.key).value; var value := Serialize(es[i].1, t.value).value;
      ReadEntries(key + (value + tail), t, |es| - i, es[..i]) == ReadEntries(tail, t, |es| - i - 1, es[..i + 1])
    decreases t, 0, 0
  {
    EntryEncodable(es, t, i);
    RoundTrip(es[i].1, t.value, tail);
    var value := Serialize(es[i].1, t.value).value;
    RoundTrip(es[i].0, t.key, value + tail);
    var key := Serialize(es[i].0, t.key).value;
    ReadEntriesCons(key + (value + tail), t, |es| - i - 1, es[..i], es[i].0, value + tail, es[i].1, tail);
    LookupAbsent(es[..i], es[i].0);
    TakeOneMore(es, i);
  }

  /** Entry `i` and the ones after it read back, when the ones after it
    * do. */
  lemma EntriesCons(es: seq<(Value, Value)>, t: Type, i: nat, rest: seq<byte>)
    requires t.MapOf? && Encodable(MapV(es), t) && i < |es| && SerializeEntries(es[i + 1..], t).Ok?
    requires ReadEntries(SerializeEntries(es[i + 1..], t).value + rest, t, |es| - (i + 1), es[..i + 1]) == Ok((es, rest))
    ensures SerializeEntries(es[i..], t).Ok?
    ensures ReadEntries(SerializeEntries(es[i..], t).value + rest, t, |es| - i, es[..i]) == Ok((es, rest))
    decreases t, 0, 1
  {
    var tail := SerializeEntries(es[i + 1..], t).value;
    EntryStep(es, t, i, tail + rest);
    EntryBytes(es, t, i, rest);
  }

  /** The entries of an encodable dict, in insertion order, read back. */
  lemma EntriesRoundTrip(es: seq<(Value, Value)>, t: Type, rest: seq<byte>)
    requires t.MapOf? && Encodable(MapV(es), t)
    ensures SerializeEntries(es, t).Ok?
    ensures ReadEntries(SerializeEntries(es, t).value + rest, t, |es|, []) == Ok((es, rest))
    decreases t, 1, 0
  {
    forall i | 0 <= i < |es|
      ensures ConsAt(es, t, i, rest)
    {
      if SerializeEntries(es[i + 1..], t).Ok?
        && ReadEntries(SerializeEntries(es[i + 1..], t).value + rest, t, |es| - (i + 1), es[..i + 1]) == Ok((es, rest))
      {
        EntriesCons(es, t, i, rest);
      }
    }
    EntriesChain(es, t, 0, rest);
    assert es[0..] == es && es[..0] == [];
  }

  /** If the entries after the `i`-th read back after the first `i + 1`,
    * the entries from the `i`-th on read back after the first `i`. */
  predicate ConsAt(es: seq<(Value, Value)>, t: Type, i: nat, rest: seq<byte>)
    requires t.MapOf? && i < |es|
  {
    SerializeEntries(es[i + 1..], t).Ok?
      && ReadEntries(SerializeEntries(es[i + 1..], t).value + rest, t, |es| - (i + 1), es[..i + 1]) == Ok((es, rest))
    ==>
    SerializeEntries(es[i..], t).Ok?
      && ReadEntries(SerializeEntries(es[i..], t).value + rest, t, |es| - i, es[..i]) == Ok((es, rest))
  }

  /** The entries from the `i`-th on read back after the first `i`, when
    * each step from one entry to the next does. */
  lemma {:induction false} EntriesChain(es: seq<(Value, Value)>, t: Type, i: nat, rest: seq<byte>)
    requires t.MapOf? && i <= |es|
    requires forall j | i <= j < |es| :: ConsAt(es, t, j, rest)
    ensures SerializeEntries(es[i..], t).Ok?
    ensures ReadEntries(SerializeEntries(es[i..], t).value + rest, t, |es| - i, es[..i]) == Ok((es, rest))
    decreases |es| - i
  {
    if i == |es| {
      EntriesDone(es, t, rest);
    } else {
      EntriesChain(es, t, i + 1, rest);
      assert ConsAt(es, t, i, rest);
    }
  }

  /** No entries left: nothing is written, and the dict read so far is complete. */
  lemma EntriesDone(es: seq<(Value, Value)>, t: Type, rest: seq<byte>)
    requires t.MapOf?
    ensures SerializeEntries(es[|es|..], t) == Ok([])
    ensures ReadEntries([] + rest, t, 0, es[..|es|]) == Ok((es, rest))
  {
    assert es[|es|..] == [] && es[..|es|] == es && [] + rest == rest;
  }

  /** How a dict is read, when its length and its entries read. */
  lemma ReadMapOf(content: seq<byte>, t: Type, n: nat, mid: seq<byte>, es: seq<(Value, Value)>, out: seq<byte>)
    requires t.MapOf? && DecodeLength(content) == (n, mid) && ReadEntries(mid, t, n, []) == Ok((es, out))
    ensures Deserialize(content, t) == Ok((MapV(es), out))
  {
  }

  /** A dict: its length, then its items in insertion order. */
  lemma {:induction false} MapRoundTrip(v: Value, t: Type, rest: seq<byte>)
    requires t.MapOf? && Encodable(v, t)
    ensures Serialize(v, t).Ok? && Deserialize(Serialize(v, t).value + rest, t) == Ok((v, rest))
    decreases t, 2, 0
  {
    var es := v.entries;
    EntriesRoundTrip(es, t, rest);
    var body := SerializeEntries(es, t).value;
    LengthRoundTrip(|es|, body + rest);
    var prefix := EncodeLength(|es|).value;
    assert Serialize(v, t) == Ok(prefix + body);
    Assoc(prefix, body, rest);
    ReadMapOf(prefix + (body + rest), t, |es|, body + rest, es, rest);
  }
}
