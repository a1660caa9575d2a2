/**
  * What the Python LCS runtime promises about `serialize` and `deserialize`
  * taken together: every value of its type within the limits of the format
  * reads back from its bytes, whatever follows them, and the bytes of a dict
  * do not depend on the order its entries were inserted in.
  */
module PyLcsRoundTrip {
  import opened Wire
  import Uleb128
  import opened LexOrder
  import Utf8
  import opened PyTypes
  import opened PyLcs

  /** A string reads back from what the (corrected) `encode_str` writes. */
  lemma StrRoundTrip(s: string, rest: seq<byte>)
    requires |Utf8.Encode(s)| <= MaxLength
    ensures DecodeStr(EncodeStr(s) + rest) == Ok((s, rest))
  {
    var bytes := Utf8.Encode(s);
    var content := Uleb128.Encode(|bytes|) + (bytes + rest);
    assert EncodeStr(s) + rest == content;
    LengthRoundTrip(|bytes|, bytes + rest);
    assert Split(bytes + rest, |bytes|) == (bytes, rest);
    Utf8.DecodeEncode(s);
    DecodeStrStep(content, |bytes|, bytes + rest, bytes, rest, s);
  }

  /** `decode_str` is the length, the cut, then the UTF-8 decoding. */
  lemma DecodeStrStep(content: seq<byte>, n: nat, after: seq<byte>, head: seq<byte>, tail: seq<byte>, s: string)
    requires DecodeLength(content) == Ok((n, after)) && Split(after, n) == (head, tail)
    requires Utf8.Decode(head) == Ok(s)
    ensures DecodeStr(content) == Ok((s, tail))
  {
  }

  /** A byte string reads back from what `encode_bytes` writes. */
  lemma BytesRoundTrip(bytes: seq<byte>, rest: seq<byte>)
    requires |bytes| <= MaxLength
    ensures DecodeBytes(EncodeBytes(bytes) + rest) == Ok((bytes, rest))
  {
    assert EncodeBytes(bytes) + rest == Uleb128.Encode(|bytes|) + (bytes + rest);
    Uleb128RoundTrip(|bytes|, bytes + rest);
    assert Split(bytes + rest, |bytes|) == (bytes, rest);
  }

  /** The bool's byte reads back as the bool. */
  lemma BoolRoundTrip(b: bool, rest: seq<byte>)
    ensures Read([BoolByte(b)] + rest, Bool, Counted) == Ok((BoolV(b), rest))
  {
    var content := [BoolByte(b)] + rest;
    assert Split(content, 1) == ([BoolByte(b)], rest);
    assert FromLE([BoolByte(b)]) == BoolByte(b) by {
      assert [BoolByte(b)][1..] == [];
    }
  }

  /** Round trip: `deserialize(serialize(v, t) + rest, t)` gives back `v` and
    * `rest`, for every value of its type within the limits of the format. */
  lemma {:induction false} RoundTrip(v: Value, t: Type, rest: seq<byte>)
    requires Encodable(v, t)
    ensures Serialize(v, t).Ok? && Deserialize(Serialize(v, t).value + rest, t) == Ok((v, rest))
    decreases t, 3, 0
  {
    match t
    case Bool =>
      BoolRoundTrip(v.b, rest);
    case Int(w, signed) =>
      LaxIntOfToBytes(v.i, w, signed, rest);
    case F32 =>
      assert false;
    case F64 =>
      assert false;
    case Char =>
      assert false;
    case Unit =>
      assert Serialize(v, t).value + rest == rest;
    case Str =>
      StrRoundTrip(v.s, rest);
    case ByteString =>
      BytesRoundTrip(v.bytes, rest);
    case SeqOf(_) =>
      SeqRoundTrip(v, t, rest);
    case TupleOf(ts) =>
      FieldsRoundTrip(v.items, ts, rest);
    case OptionOf(_) =>
      OptionRoundTrip(v, t, rest);
    case MapOf(_, _) =>
      MapRoundTrip(v, t, rest);
    case Struct(fs) =>
      FieldsRoundTrip(v.fields, fs, rest);
    case Enum(_) =>
      EnumRoundTrip(v, t, rest);
  }

  lemma {:induction false} SeqRoundTrip(v: Value, t: Type, rest: seq<byte>)
    requires t.SeqOf? && Encodable(v, t)
    ensures Serialize(v, t).Ok? && Deserialize(Serialize(v, t).value + rest, t) == Ok((v, rest))
    decreases t, 2, 0
  {
    ItemsRoundTrip(v.items, t, rest);
    var body := SerializeItems(v.items, t).value;
    var prefix := Uleb128.Encode(|v.items|);
    SerializeSeq(v, t, body);
    assert prefix + body + rest == prefix + (body + rest);
    Uleb128RoundTrip(|v.items|, body + rest);
    ReadSeqOf(prefix + (body + rest), t, Counted, |v.items|, body + rest, v.items, rest);
  }

  /** How a list is read, when its length and its items read. */
  lemma ReadSeqOf(content: seq<byte>, t: Type, cut: KeyCut, n: nat, mid: seq<byte>, items: seq<Value>, out: seq<byte>)
    requires t.SeqOf? && DecodeLength(content) == Ok((n, mid)) && ReadItems(mid, t, n, cut) == Ok((items, out))
    ensures Read(content, t, cut) == Ok((ListV(items), out))
  {
  }

  /** `serialize` of a list: its length, then its items. */
  lemma SerializeSeq(v: Value, t: Type, body: seq<byte>)
    requires t.SeqOf? && v.ListV? && SerializeItems(v.items, t) == Ok(body)
    ensures Serialize(v, t) == Ok(Uleb128.Encode(|v.items|) + body)
  {
  }

  /** `serialize` of a list's first item, then of the others. */
  lemma SerializeItemsCons(items: seq<Value>, t: Type, head: seq<byte>, tail: seq<byte>)
    requires t.SeqOf? && |items| > 0
    requires Serialize(items[0], t.item) == Ok(head) && SerializeItems(items[1..], t) == Ok(tail)
    ensures SerializeItems(items, t) == Ok(head + tail)
  {
  }

  lemma {:induction false} ItemsRoundTrip(items: seq<Value>, t: Type, rest: seq<byte>)
    requires t.SeqOf? && forall i :: 0 <= i < |items| ==> Encodable(items[i], t.item)
    ensures SerializeItems(items, t).Ok?
    ensures ReadItems(SerializeItems(items, t).value + rest, t, |items|, Counted) == Ok((items, rest))
    decreases t, 1, |items|
  {
    if |items| > 0 {
      ItemsRoundTrip(items[1..], t, rest);
      var tail := SerializeItems(items[1..], t).value;
      RoundTrip(items[0], t.item, tail + rest);
      var head := Serialize(items[0], t.item).value;
      SerializeItemsCons(items, t, head, tail);
      assert head + tail + rest == head + (tail + rest);
      ReadItemsCons(head + (tail + rest), t, |items| - 1, Counted, items[0], tail + rest, items[1..], rest);
      assert items == [items[0]] + items[1..];
    } else {
      assert SerializeItems(items, t).value + rest == rest && items == [];
    }
  }

  lemma ReadItemsCons(content: seq<byte>, t: Type, n: nat, cut: KeyCut, head: Value, mid: seq<byte>, tail: seq<Value>, out: seq<byte>)
    requires t.SeqOf? && Read(content, t.item, cut) == Ok((head, mid)) && ReadItems(mid, t, n, cut) == Ok((tail, out))
    ensures ReadItems(content, t, n + 1, cut) == Ok(([head] + tail, out))
  {
  }

  /** The fields of a dataclass or the elements of a tuple, one after the
    * other. */
  lemma {:induction false} FieldsRoundTrip(items: seq<Value>, ts: seq<Type>, rest: seq<byte>)
    requires |items| == |ts| && forall i :: 0 <= i < |ts| ==> Encodable(items[i], ts[i])
    ensures SerializeFields(items, ts).Ok?
    ensures ReadFields(SerializeFields(items, ts).value + rest, ts, Counted) == Ok((items, rest))
    decreases ts
  {
    if |ts| > 0 {
      forall i | 0 <= i < |ts| - 1
        ensures Encodable(items[1..][i], ts[1..][i])
      {
        assert items[1..][i] == items[i + 1] && ts[1..][i] == ts[i + 1];
      }
      FieldsRoundTrip(items[1..], ts[1..], rest);
      var tail := SerializeFields(items[1..], ts[1..]).value;
      RoundTrip(items[0], ts[0], tail + rest);
      var head := Serialize(items[0], ts[0]).value;
      SerializeFieldsCons(items, ts, head, tail);
      assert head + tail + rest == head + (tail + rest);
      ReadFieldsCons(head + (tail + rest), ts, Counted, items[0], tail + rest, items[1..], rest);
      assert items == [items[0]] + items[1..];
    } else {
      assert SerializeFields(items, ts).value + rest == rest && items == [];
    }
  }

  lemma ReadFieldsCons(content: seq<byte>, ts: seq<Type>, cut: KeyCut, head: Value, mid: seq<byte>, tail: seq<Value>, out: seq<byte>)
    requires |ts| > 0 && Read(content, ts[0], cut) == Ok((head, mid)) && ReadFields(mid, ts[1..], cut) == Ok((tail, out))
    ensures ReadFields(content, ts, cut) == Ok(([head] + tail, out))
  {
  }

  /** `serialize` of an option: tag 0 for `None`, else tag 1 and the value. */
  lemma SerializeOption(v: Value, t: Type, body: seq<byte>)
    requires t.OptionOf? && (!v.NoneV? ==> Serialize(v, t.inner) == Ok(body))
    ensures Serialize(v, t) == Ok(if v.NoneV? then [0] else [1] + body)
  {
  }

  /** `serialize` of a tuple's first element, then of the rest. */
  lemma SerializeFieldsCons(items: seq<Value>, ts: seq<Type>, head: seq<byte>, tail: seq<byte>)
    requires 0 < |items| <= |ts|
    requires Serialize(items[0], ts[0]) == Ok(head) && SerializeFields(items[1..], ts[1..]) == Ok(tail)
    ensures SerializeFields(items, ts) == Ok(head + tail)
  {
  }

  lemma {:induction false} OptionRoundTrip(v: Value, t: Type, rest: seq<byte>)
    requires t.OptionOf? && Encodable(v, t)
    ensures Serialize(v, t).Ok? && Deserialize(Serialize(v, t).value + rest, t) == Ok((v, rest))
    decreases t, 2, 0
  {
    if v.NoneV? {
      SerializeOption(v, t, []);
      ReadNone(rest, t, Counted);
    } else {
      RoundTrip(v, t.inner, rest);
      var body := Serialize(v, t.inner).value;
      SerializeOption(v, t, body);
      assert [1] + body + rest == [1] + (body + rest);
      ReadSome(body + rest, t, Counted);
    }
  }

  /** The tag 0 alone. */
  lemma ReadNone(content: seq<byte>, t: Type, cut: KeyCut)
    requires t.OptionOf?
    ensures Read([0] + content, t, cut) == Ok((NoneV, content))
  {
    assert Split([0] + content, 1) == ([0], content);
    assert FromLE([0]) == 0;
  }

  /** The tag 1, then the value. */
  lemma ReadSome(content: seq<byte>, t: Type, cut: KeyCut)
    requires t.OptionOf?
    ensures Read([1] + content, t, cut) == Read(content, t.inner, cut)
  {
    assert Split([1] + content, 1) == ([1], content);
    assert FromLE([1]) == 1 by {
      assert [1 as byte][1..] == [];
    }
  }

  /** A variant: its index, then the fields of its dataclass. */
  lemma {:induction false} EnumRoundTrip(v: Value, t: Type, rest: seq<byte>)
    requires t.Enum? && Encodable(v, t)
    ensures Serialize(v, t).Ok? && Deserialize(Serialize(v, t).value + rest, t) == Ok((v, rest))
    decreases t, 2, 0
  {
    var fs := t.variants[v.index].fields;
    FieldsRoundTrip(v.fields, fs, rest);
    var body := SerializeFields(v.fields, fs).value;
    var prefix := Uleb128.Encode(v.index);
    assert Serialize(v, t) == Ok(prefix + body);
    assert prefix + body + rest == prefix + (body + rest);
    Uleb128RoundTrip(v.index, body + rest);
    ReadVariantOf(prefix + (body + rest), t, Counted, v.index, body + rest, v.fields, rest);
  }

  /** How a variant is read, when its index and its fields read. */
  lemma ReadVariantOf(content: seq<byte>, t: Type, cut: KeyCut, index: nat, mid: seq<byte>, fields: seq<Value>, out: seq<byte>)
    requires t.Enum? && LaxDecode(content) == Ok((index, mid)) && index < |t.variants| && t.variants[index].Struct?
    requires ReadFields(mid, t.variants[index].fields, cut) == Ok((fields, out))
    ensures Read(content, t, cut) == Ok((VariantV(index, fields), out))
  {
  }

  /** A dict item serialized as a `Tuple[K, V]`. */
  function EntryImage(e: (Value, Value), t: Type): seq<byte>
    requires t.MapOf?
  {
    Image(e.0, t.key) + Image(e.1, t.value)
  }

  /** The serialized items of a dict, in its insertion order. */
  function EntryImages(es: seq<(Value, Value)>, t: Type): (r: seq<seq<byte>>)
    requires t.MapOf?
    ensures |r| == |es| && forall i :: 0 <= i < |es| ==> r[i] == EntryImage(es[i], t)
  {
    if |es| == 0 then [] else [EntryImage(es[0], t)] + EntryImages(es[1..], t)
  }

  /** When every key and value serializes, the items are their images. */
  lemma {:induction false} SerializeEntriesOk(es: seq<(Value, Value)>, t: Type)
    requires t.MapOf?
    requires forall i :: 0 <= i < |es| ==> Serialize(es[i].0, t.key).Ok? && Serialize(es[i].1, t.value).Ok?
    ensures SerializeEntries(es, t) == Ok(EntryImages(es, t))
    decreases |es|
  {
    if |es| > 0 {
      assert forall i :: 0 <= i < |es| - 1 ==> es[1..][i] == es[i + 1];
      SerializeEntriesOk(es[1..], t);
    }
  }

  /** No key's bytes are a proper prefix of another's: a decoder reading
    * the longer one would stop early. */
  lemma PrefixFree(k1: Value, k2: Value, kt: Type)
    requires Encodable(k1, kt) && Encodable(k2, kt)
    ensures var s1 := Image(k1, kt); var s2 := Image(k2, kt);
      |s1| <= |s2| && s1 == s2[..|s1|] ==> s1 == s2
    decreases kt, 4, 0
  {
    var s1 := Image(k1, kt);
    var s2 := Image(k2, kt);
    if |s1| <= |s2| && s1 == s2[..|s1|] {
      var x := s2[|s1|..];
      assert s1 + x == s2 + [];
      RoundTrip(k1, kt, x);
      RoundTrip(k2, kt, []);
    }
  }

  /** Two entries of a dict in canonical order compare as their keys do:
    * the earlier one's bytes come first. */
  lemma EntryPairOrdered(es: seq<(Value, Value)>, t: Type, i: nat, j: nat)
    requires t.MapOf? && Encodable(MapV(es), t) && i < j < |es|
    ensures !Less(EntryImage(es[j], t), EntryImage(es[i], t))
    decreases t, 0, 0
  {
    var ki := Image(es[i].0, t.key);
    var kj := Image(es[j].0, t.key);
    assert Less(ki, kj) by {
      assert KeyImages(es, t.key)[i] == ki && KeyImages(es, t.key)[j] == kj;
    }
    EntryEncodable(es, t, i);
    EntryEncodable(es, t, j);
    PrefixFree(es[i].0, es[j].0, t.key);
    PrefixFree(es[j].0, es[i].0, t.key);
    LessIrreflexive(ki);
    assert !(|kj| <= |ki| && kj == ki[..|kj|]) && !(|ki| <= |kj| && ki == kj[..|ki|]);
    LessPrefixFree(kj, Image(es[j].1, t.value), ki, Image(es[i].1, t.value));
    LessAsymmetric(ki, kj);
  }

  /** A dict in canonical order writes its items already sorted. */
  lemma EntriesSorted(es: seq<(Value, Value)>, t: Type)
    requires t.MapOf? && Encodable(MapV(es), t)
    ensures Sorted(EntryImages(es, t))
    decreases t, 1, 0
  {
    var e := EntryImages(es, t);
    forall i, j | 0 <= i < j < |e|
      ensures !Less(e[j], e[i])
    {
      EntryPairOrdered(es, t, i, j);
    }
  }

  /** How one dict entry is read: its key, its value, and the test that its
    * key's bytes come after the previous key's. */
  lemma ReadEntriesCons(content: seq<byte>, t: Type, n: nat, previous: Option<seq<byte>>, res: seq<(Value, Value)>,
                        cut: KeyCut, key: Value, afterKey: seq<byte>, value: Value, afterValue: seq<byte>)
    requires t.MapOf? && Read(content, t.key, cut) == Ok((key, afterKey))
    requires Read(afterKey, t.value, cut) == Ok((value, afterValue))
    requires previous.None? || Less(previous.value, KeySlice(cut, content, afterKey))
    ensures ReadEntries(content, t, n + 1, previous, res, cut) ==
      ReadEntries(afterValue, t, n, Some(KeySlice(cut, content, afterKey)), Put(res, key, value), cut)
  {
  }

  /** Every key and value of an encodable dict is encodable. */
  lemma EntryEncodable(es: seq<(Value, Value)>, t: Type, i: nat)
    requires t.MapOf? && Encodable(MapV(es), t) && i < |es|
    ensures Encodable(es[i].0, t.key) && Encodable(es[i].1, t.value)
  {
  }

  lemma ConcatFrom(e: seq<seq<byte>>, i: nat)
    requires i < |e|
    ensures Concat(e[i..]) == e[i] + Concat(e[i + 1..])
  {
    assert e[i..][1..] == e[i + 1..];
  }

  /** The key preceding entry `i`, as the decoder remembers it. */
  function Previous(es: seq<(Value, Value)>, t: Type, i: nat): Option<seq<byte>>
    requires t.MapOf? && i <= |es|
  {
    if i == 0 then None else Some(Image(es[i - 1].0, t.key))
  }

  lemma TakeOneMore(es: seq<(Value, Value)>, i: nat)
    requires i < |es|
    ensures es[..i] + [(es[i].0, es[i].1)] == es[..i + 1]
  {
  }

  /** Entry `i`'s key and value read back from its item. */
  lemma EntryReads(es: seq<(Value, Value)>, t: Type, i: nat, tail: seq<byte>)
    requires t.MapOf? && Encodable(MapV(es), t) && i < |es|
    ensures var key := Image(es[i].0, t.key); var value := Image(es[i].1, t.value);
      Read(key + (value + tail), t.key, Counted) == Ok((es[i].0, value + tail)) &&
      Read(value + tail, t.value, Counted) == Ok((es[i].1, tail))
    decreases t, 0, 0
  {
    EntryEncodable(es, t, i);
    RoundTrip(es[i].0, t.key, Image(es[i].1, t.value) + tail);
    RoundTrip(es[i].1, t.value, tail);
  }

  /** Entry `i`'s key comes after the key before it. */
  lemma KeyAfterPrevious(es: seq<(Value, Value)>, t: Type, i: nat)
    requires t.MapOf? && Encodable(MapV(es), t) && i < |es|
    ensures Previous(es, t, i).None? || Less(Previous(es, t, i).value, Image(es[i].0, t.key))
  {
    if i > 0 {
      assert Less(KeyImages(es, t.key)[i - 1], KeyImages(es, t.key)[i]);
    }
  }

  /** Entry `i` reads back as itself and leaves the entries after it. */
  lemma EntryStep(es: seq<(Value, Value)>, t: Type, i: nat, rest: seq<byte>)
    requires t.MapOf? && Encodable(MapV(es), t) && i < |es|
    ensures ReadEntries(Concat(EntryImages(es, t)[i..]) + rest, t, |es| - i, Previous(es, t, i), es[..i], Counted) ==
      ReadEntries(Concat(EntryImages(es, t)[i + 1..]) + rest, t, |es| - i - 1, Previous(es, t, i + 1), es[..i + 1], Counted)
    decreases t, 0, 1
  {
    var key := Image(es[i].0, t.key);
    var value := Image(es[i].1, t.value);
    var tail := Concat(EntryImages(es, t)[i + 1..]) + rest;
    var content := Concat(EntryImages(es, t)[i..]) + rest;
    EntryContent(es, t, i, rest);
    EntryReads(es, t, i, tail);
    KeySliceCounted(key, value + tail);
    KeyAfterPrevious(es, t, i);
    ReadEntriesCons(content, t, |es| - i - 1, Previous(es, t, i), es[..i], Counted, es[i].0, value + tail, es[i].1, tail);
    KeyIsNew(es, t, i);
    TakeOneMore(es, i);
  }

  /** The bytes from entry `i` on: its key, its value, then the entries after it. */
  lemma EntryContent(es: seq<(Value, Value)>, t: Type, i: nat, rest: seq<byte>)
    requires t.MapOf? && i < |es|
    ensures Concat(EntryImages(es, t)[i..]) + rest
         == Image(es[i].0, t.key) + (Image(es[i].1, t.value) + (Concat(EntryImages(es, t)[i + 1..]) + rest))
  {
    var e := EntryImages(es, t);
    var key, value, c := Image(es[i].0, t.key), Image(es[i].1, t.value), Concat(e[i + 1..]);
    ConcatFrom(e, i);
    assert e[i] == EntryImage(es[i], t) == key + value;
    Reassociate(key, value, c, rest);
  }

  lemma Reassociate(a: seq<byte>, b: seq<byte>, c: seq<byte>, d: seq<byte>)
    ensures (a + b) + c + d == a + (b + (c + d))
  {
  }

  /** A key cut by the bytes its read consumed is exactly those bytes. */
  lemma KeySliceCounted(key: seq<byte>, after: seq<byte>)
    ensures KeySlice(Counted, key + after, after) == key
  {
    assert (key + after)[..|key|] == key;
  }

  /** An entry's key is not among the keys before it. */
  lemma KeyIsNew(es: seq<(Value, Value)>, t: Type, i: nat)
    requires t.MapOf? && Encodable(MapV(es), t) && i < |es|
    ensures Lookup(es[..i], es[i].0) == None
  {
    var ks := KeyImages(es, t.key);
    forall j | 0 <= j < i
      ensures es[..i][j].0 != es[i].0
    {
      assert Less(ks[j], ks[i]);
      LessIrreflexive(ks[i]);
    }
    LookupAbsent(es[..i], es[i].0);
  }

  /** The entries of an encodable dict read back, in insertion order. */
  lemma EntriesRead(es: seq<(Value, Value)>, t: Type, rest: seq<byte>)
    requires t.MapOf? && Encodable(MapV(es), t)
    ensures ReadEntries(Concat(EntryImages(es, t)) + rest, t, |es|, None, [], Counted) == Ok((es, rest))
    decreases t, 1, 0
  {
    forall i | 0 <= i < |es|
      ensures StepAt(es, t, i, rest)
    {
      EntryStep(es, t, i, rest);
    }
    EntriesChain(es, t, 0, rest);
    assert EntryImages(es, t)[0..] == EntryImages(es, t) && es[..0] == [];
  }

  /** Reading entry `i` takes the reader to entry `i + 1`. */
  predicate StepAt(es: seq<(Value, Value)>, t: Type, i: nat, rest: seq<byte>)
    requires t.MapOf? && i < |es|
  {
    ReadEntries(Concat(EntryImages(es, t)[i..]) + rest, t, |es| - i, Previous(es, t, i), es[..i], Counted) ==
      ReadEntries(Concat(EntryImages(es, t)[i + 1..]) + rest, t, |es| - i - 1, Previous(es, t, i + 1), es[..i + 1], Counted)
  }

  /** The entries from the `i`-th on read back, after the first `i`, when
    * each of them takes the reader to the next. */
  lemma {:induction false} EntriesChain(es: seq<(Value, Value)>, t: Type, i: nat, rest: seq<byte>)
    requires t.MapOf? && i <= |es|
    requires forall j | i <= j < |es| :: StepAt(es, t, j, rest)
    ensures ReadEntries(Concat(EntryImages(es, t)[i..]) + rest, t, |es| - i, Previous(es, t, i), es[..i], Counted) == Ok((es, rest))
    decreases |es| - i
  {
    if i == |es| {
      EntriesReadAll(es, t, rest);
    } else {
      assert StepAt(es, t, i, rest);
      EntriesChain(es, t, i + 1, rest);
    }
  }

  /** With every entry read, what is left is `rest` and the dict is complete. */
  lemma EntriesReadAll(es: seq<(Value, Value)>, t: Type, rest: seq<byte>)
    requires t.MapOf?
    ensures ReadEntries(Concat(EntryImages(es, t)[|es|..]) + rest, t, 0, Previous(es, t, |es|), es[..|es|], Counted) == Ok((es, rest))
  {
    assert EntryImages(es, t)[|es|..] == [];
    assert [] + rest == rest && es[..|es|] == es;
  }

  /** How a dict is read, when its length and its entries read. */
  lemma ReadMapOf(content: seq<byte>, t: Type, cut: KeyCut, n: nat, mid: seq<byte>, es: seq<(Value, Value)>, out: seq<byte>)
    requires t.MapOf? && DecodeLength(content) == Ok((n, mid)) && ReadEntries(mid, t, n, None, [], cut) == Ok((es, out))
    ensures Read(content, t, cut) == Ok((MapV(es), out))
  {
  }

  /** The length prefix of a list or a dict reads back. */
  lemma LengthRoundTrip(n: nat, rest: seq<byte>)
    requires n <= MaxLength
    ensures DecodeLength(Uleb128.Encode(n) + rest) == Ok((n, rest))
  {
    Uleb128RoundTrip(n, rest);
  }

  /** What `serialize` writes for a dict in canonical order: its length and
    * its items in insertion order, which sorting leaves where they are. */
  lemma SerializeMap(v: Value, t: Type)
    requires t.MapOf? && Encodable(v, t)
    ensures Serialize(v, t) == Ok(Uleb128.Encode(|v.entries|) + Concat(EntryImages(v.entries, t)))
    decreases t, 1, 1
  {
    var es := v.entries;
    forall i | 0 <= i < |es|
      ensures Serialize(es[i].0, t.key).Ok? && Serialize(es[i].1, t.value).Ok?
    {
      EntryEncodable(es, t, i);
      RoundTrip(es[i].0, t.key, []);
      RoundTrip(es[i].1, t.value, []);
    }
    SerializeEntriesOk(es, t);
    EntriesSorted(es, t);
    SortCanonical(EntryImages(es, t), EntryImages(es, t));
  }

  /** A dict in canonical order: its length, then its items. */
  lemma {:induction false} MapRoundTrip(v: Value, t: Type, rest: seq<byte>)
    requires t.MapOf? && Encodable(v, t)
    ensures Serialize(v, t).Ok? && Deserialize(Serialize(v, t).value + rest, t) == Ok((v, rest))
    decreases t, 2, 0
  {
    var es := v.entries;
    var e := EntryImages(es, t);
    SerializeMap(v, t);
    var prefix := Uleb128.Encode(|es|);
    var body := Concat(e);
    assert prefix + body + rest == prefix + (body + rest);
    LengthRoundTrip(|es|, body + rest);
    EntriesRead(es, t, rest);
    ReadMapOf(prefix + (body + rest), t, Counted, |es|, body + rest, es, rest);
  }

  /** A value reads back from its image. */
  lemma ImageReads(v: Value, t: Type, rest: seq<byte>)
    requires Encodable(v, t)
    ensures Read(Image(v, t) + rest, t, Counted) == Ok((v, rest))
  {
    RoundTrip(v, t, rest);
  }

  lemma Reassociate5(p: seq<byte>, a: seq<byte>, b: seq<byte>, c: seq<byte>, d: seq<byte>, e: seq<byte>)
    ensures p + a + b + c + d + e == p + (a + (b + (c + (d + e))))
  {
  }

  /** A refused entry makes the whole dict refused. */
  lemma ReadMapErr(content: seq<byte>, t: Type, cut: KeyCut, n: nat, mid: seq<byte>, e: Error)
    requires t.MapOf? && DecodeLength(content) == Ok((n, mid)) && ReadEntries(mid, t, n, None, [], cut) == Err(e)
    ensures Read(content, t, cut) == Err(e)
  {
  }

  /** A second key whose bytes are not above the first key's stops the read
    * of the entries with `KeysOutOfOrder`. */
  lemma SecondKeyRefused(content: seq<byte>, t: Type, k1: Value, v1: Value, k2: Value, v2: Value,
                         key1: seq<byte>, key2: seq<byte>, mid: seq<byte>, after: seq<byte>, out: seq<byte>)
    requires t.MapOf?
    requires Read(content, t.key, Counted) == Ok((k1, mid)) && KeySlice(Counted, content, mid) == key1
    requires Read(mid, t.value, Counted) == Ok((v1, after))
    requires Read(after, t.key, Counted).Ok? && KeySlice(Counted, after, Read(after, t.key, Counted).value.1) == key2
    requires Read(Read(after, t.key, Counted).value.1, t.value, Counted).Ok?
    requires !Less(key1, key2)
    ensures ReadEntries(content, t, 2, None, [], Counted) == Err(KeysOutOfOrder)
  {
    assert ReadEntries(content, t, 2, None, [], Counted) ==
           ReadEntries(after, t, 1, Some(key1), Put([], k1, v1), Counted);
  }

  /** The refusal, stated over the bytes each key and value is read from. */
  lemma RefusedBytes(t: Type, k1: Value, v1: Value, k2: Value, v2: Value,
                     key1: seq<byte>, key2: seq<byte>, body: seq<byte>, mid: seq<byte>, after: seq<byte>, tail: seq<byte>)
    requires t.MapOf? && body == key1 + mid && after == key2 + tail
    requires Read(body, t.key, Counted) == Ok((k1, mid)) && Read(mid, t.value, Counted) == Ok((v1, after))
    requires Read(after, t.key, Counted) == Ok((k2, tail)) && Read(tail, t.value, Counted).Ok?
    requires !Less(key1, key2)
    ensures Deserialize(Uleb128.Encode(2) + body, t) == Err(KeysOutOfOrder)
  {
    KeySliceCounted(key1, mid);
    KeySliceCounted(key2, tail);
    SecondKeyRefused(body, t, k1, v1, k2, v2, key1, key2, mid, after, tail);
    LengthRoundTrip(2, body);
    ReadMapErr(Uleb128.Encode(2) + body, t, Counted, 2, body, KeysOutOfOrder);
  }

  /** `deserialize` raises unless each key's bytes are strictly greater than
    * the previous key's: a dict of two entries whose second key is not
    * above the first (equal keys included) is refused, whatever the values
    * and whatever follows. */
  lemma KeysOutOfOrderRefused(k1: Value, v1: Value, k2: Value, v2: Value, t: Type, rest: seq<byte>)
    requires t.MapOf?
    requires Encodable(k1, t.key) && Encodable(v1, t.value) && Encodable(k2, t.key) && Encodable(v2, t.value)
    requires !Less(Image(k1, t.key), Image(k2, t.key))
    ensures Deserialize(Uleb128.Encode(2) + Image(k1, t.key) + Image(v1, t.value)
                        + Image(k2, t.key) + Image(v2, t.value) + rest, t) == Err(KeysOutOfOrder)
  {
    var key1, value1, key2, value2 := Image(k1, t.key), Image(v1, t.value), Image(k2, t.key), Image(v2, t.value);
    ImageReads(k1, t.key, value1 + (key2 + (value2 + rest)));
    ImageReads(v1, t.value, key2 + (value2 + rest));
    ImageReads(k2, t.key, value2 + rest);
    ImageReads(v2, t.value, rest);
    var tail := value2 + rest;
    var after := key2 + tail;
    var mid := value1 + after;
    var body := key1 + mid;
    Reassociate5(Uleb128.Encode(2), key1, value1, key2, value2, rest);
    RefusedBytes(t, k1, v1, k2, v2, key1, key2, body, mid, after, tail);
  }
}
