/**
  * The Python bincode runtime (`bincode/__init__.py`): the same walk over
  * the declared type as the LCS runtime, but lengths are 8-byte and variant
  * indices 4-byte little-endian integers with no ceiling, and dicts are
  * written in insertion order and read back without any order check. The
  * decoders are lax: a read past the end of the input yields fewer bytes.
  */
module PyBincode {
  import opened Wire
  import Utf8
  import opened PyTypes

  /** The largest length `to_bytes(8, "little")` accepts. */
  const MaxLength: nat := 0xFFFF_FFFF_FFFF_FFFF

  /** The largest variant index `to_bytes(4, "little")` accepts. */
  const MaxIndex: nat := 0xFFFF_FFFF

  /** `decode_length`: `from_bytes(content[:8])`, and `content[8:]`. */
  function DecodeLength(content: seq<byte>): (r: (nat, seq<byte>))
    ensures r.0 <= MaxLength && |r.1| <= |content|
  {
    var (head, rest) := Split(content, 8);
    FromLEBound(head);
    Pow2Values();
    Pow2Monotone(8 * |head|, 64);
    (FromLE(head), rest)
  }

  /** `decode_variant_index`: `from_bytes(content[:4])`, and `content[4:]`. */
  function DecodeVariantIndex(content: seq<byte>): (r: (nat, seq<byte>))
    ensures r.0 <= MaxIndex && |r.1| <= |content|
  {
    var (head, rest) := Split(content, 4);
    FromLEBound(head);
    Pow2Values();
    Pow2Monotone(8 * |head|, 32);
    (FromLE(head), rest)
  }

  /** `decode_str`: the length, then `content[0:strlen].decode()`. */
  function DecodeStr(content: seq<byte>): (r: Result<(string, seq<byte>)>)
    ensures r.Ok? ==> |r.value.1| <= |content|
  {
    var (n, rest) := DecodeLength(content);
    var (head, tail) := Split(rest, n);
    var s :- Utf8.Decode(head);
    Ok((s, tail))
  }

  /** `decode_bytes`: the length, then `content[:len]`. */
  function DecodeBytes(content: seq<byte>): (r: (seq<byte>, seq<byte>))
    ensures |r.1| <= |content|
  {
    var (n, rest) := DecodeLength(content);
    Split(rest, n)
  }

  /** `encode_length`: `to_bytes(8, "little")`, an `OverflowError` from
    * 2^64 on. */
  function EncodeLength(n: nat): (r: Result<seq<byte>>)
    ensures r.Ok? <==> n <= MaxLength
  {
    Pow2Values();
    ToBytes(n, W64, false)
  }

  /** `encode_variant_index`: `to_bytes(4, "little")`. */
  function EncodeVariantIndex(index: nat): (r: Result<seq<byte>>)
    ensures r.Ok? <==> index <= MaxIndex
  {
    Pow2Values();
    ToBytes(index, W32, false)
  }

  /** `encode_str` as it is written: the length prefix counts code points
    * (`len(value)`) while the bytes are UTF-8. */
  function EncodeStrAsWritten(s: string): Result<seq<byte>>
  {
    var prefix :- EncodeLength(|s|);
    Ok(prefix + Utf8.Encode(s))
  }

  /** `encode_str` with the prefix counting the UTF-8 bytes that follow it. */
  function EncodeStr(s: string): Result<seq<byte>>
  {
    var bytes := Utf8.Encode(s);
    var prefix :- EncodeLength(|bytes|);
    Ok(prefix + bytes)
  }

  /** `encode_bytes`. */
  function EncodeBytes(bytes: seq<byte>): Result<seq<byte>>
  {
    var prefix :- EncodeLength(|bytes|);
    Ok(prefix + bytes)
  }

  /** `serialize(obj, obj_type)` with the corrected `encode_str`, whose
    * prefix counts UTF-8 bytes (`EncodeStr`; the code as written is
    * `EncodeStrAsWritten`). A value whose shape does not match its declared
    * type is refused (the source's "Wrong Value for the type" and the
    * `OverflowError` of `to_bytes`). */
  function Serialize(v: Value, t: Type): Result<seq<byte>>
    decreases t, 2, 0
  {
    match t
    case Bool => if v.BoolV? then Ok([BoolByte(v.b)]) else Err(UnexpectedValue)
    case Int(w, signed) => if v.IntV? then ToBytes(v.i, w, signed) else Err(UnexpectedValue)
    case F32 => Err(NotImplemented)
    case F64 => Err(NotImplemented)
    case Char => Err(NotImplemented)
    case Unit => Ok([])
    case Str => if v.StrV? then EncodeStr(v.s) else Err(UnexpectedValue)
    case ByteString => if v.BytesV? then EncodeBytes(v.bytes) else Err(UnexpectedValue)
    case SeqOf(_) =>
      if !v.ListV? then Err(UnexpectedValue)
      else
        var prefix :- EncodeLength(|v.items|);
        var body :- SerializeItems(v.items, t);
        Ok(prefix + body)
    case TupleOf(ts) =>
      if v.TupleV? && |v.items| <= |ts| then SerializeFields(v.items, ts) else Err(UnexpectedValue)
    case OptionOf(inner) =>
      if v.NoneV? then Ok([0])
      else
        var body :- Serialize(v, inner);
        Ok([1] + body)
    case MapOf(_, _) =>
      if !v.MapV? then Err(UnexpectedValue)
      else
        var prefix :- EncodeLength(|v.entries|);
        var body :- SerializeEntries(v.entries, t);
        Ok(prefix + body)
    case Struct(fs) =>
      if v.StructV? && |v.fields| == |fs| then SerializeFields(v.fields, fs) else Err(UnexpectedValue)
    case Enum(vs) =>
      if !v.VariantV? then Err(UnexpectedValue)
      else
        var prefix :- EncodeVariantIndex(v.index);
        if v.index >= |vs| then Err(UnexpectedVariantIndex)
        else
          match vs[v.index]
          case Struct(fs) =>
            if |v.fields| != |fs| then Err(UnexpectedValue)
            else
              var body :- SerializeFields(v.fields, fs);
              Ok(prefix + body)
          case _ => Err(UnexpectedValue)
  }

  /** The items of a sequence, one after the other. */
  function SerializeItems(items: seq<Value>, t: Type): Result<seq<byte>>
    requires t.SeqOf?
    decreases t, 1, |items|
  {
    if |items| == 0 then Ok([])
    else
      var head :- Serialize(items[0], t.item);
      var tail :- SerializeItems(items[1..], t);
      Ok(head + tail)
  }

  /** The elements of a tuple or the fields of a dataclass, each with its
    * own type; a tuple value shorter than its type writes only its own
    * elements. */
  function SerializeFields(items: seq<Value>, ts: seq<Type>): Result<seq<byte>>
    requires |items| <= |ts|
    decreases ts
  {
    if |items| == 0 then Ok([])
    else
      var head :- Serialize(items[0], ts[0]);
      var tail :- SerializeFields(items[1..], ts[1..]);
      Ok(head + tail)
  }

  /** The items of a dict in insertion order, each as a `Tuple[K, V]`: its
    * key's bytes, then its value's. */
  function SerializeEntries(entries: seq<(Value, Value)>, t: Type): Result<seq<byte>>
    requires t.MapOf?
    decreases t, 1, |entries|
  {
    if |entries| == 0 then Ok([])
    else
      var key :- Serialize(entries[0].0, t.key);
      var value :- Serialize(entries[0].1, t.value);
      var tail :- SerializeEntries(entries[1..], t);
      Ok(key + value + tail)
  }

  /** `deserialize(content, obj_type)`: the value and the rest of the
    * input. */
  function Deserialize(content: seq<byte>, t: Type): (r: Result<(Value, seq<byte>)>)
    ensures r.Ok? ==> |r.value.1| <= |content|
    decreases t, 3, 0
  {
    match t
    case Bool =>
      var (b, rest) := LaxInt(content, W8, false);
      Ok((BoolV(b != 0), rest))
    case Int(w, signed) =>
      var (x, rest) := LaxInt(content, w, signed);
      Ok((IntV(x), rest))
    case F32 => Err(NotImplemented)
    case F64 => Err(NotImplemented)
    case Char => Err(NotImplemented)
    case Unit => Ok((NoneV, content))
    case Str =>
      var (s, rest) :- DecodeStr(content);
      Ok((StrV(s), rest))
    case ByteString =>
      var (bytes, rest) := DecodeBytes(content);
      Ok((BytesV(bytes), rest))
    case SeqOf(_) => ReadSeq(content, t)
    case TupleOf(ts) =>
      var (items, rest) :- ReadFields(content, ts);
      Ok((TupleV(items), rest))
    case OptionOf(_) => ReadOption(content, t)
    case MapOf(_, _) => ReadMap(content, t)
    case Struct(fs) =>
      var (items, rest) :- ReadFields(content, fs);
      Ok((StructV(items), rest))
    case Enum(_) => ReadEnum(content, t)
  }

  /** A list: its length, then that many items. */
  function ReadSeq(content: seq<byte>, t: Type): (r: Result<(Value, seq<byte>)>)
    requires t.SeqOf?
    ensures r.Ok? ==> |r.value.1| <= |content|
    decreases t, 2, 0
  {
    var (n, rest) := DecodeLength(content);
    var (items, rest2) :- ReadItems(rest, t, n);
    Ok((ListV(items), rest2))
  }

  /** An option: the tag byte (read laxly), then the value when it is 1. */
  function ReadOption(content: seq<byte>, t: Type): (r: Result<(Value, seq<byte>)>)
    requires t.OptionOf?
    ensures r.Ok? ==> |r.value.1| <= |content|
    decreases t, 2, 0
  {
    var (tag, rest) := LaxInt(content, W8, false);
    if tag == 0 then Ok((NoneV, rest))
    else if tag == 1 then
      var r :- Deserialize(rest, t.inner);
      Ok(r)
    else Err(WrongOptionTag)
  }

  /** A dict: its length, then that many `Tuple[K, V]` items, each stored
    * with `res[key] = value`. */
  function ReadMap(content: seq<byte>, t: Type): (r: Result<(Value, seq<byte>)>)
    requires t.MapOf?
    ensures r.Ok? ==> |r.value.1| <= |content|
    decreases t, 2, 0
  {
    var (n, rest) := DecodeLength(content);
    var (entries, rest2) :- ReadEntries(rest, t, n, []);
    Ok((MapV(entries), rest2))
  }

  /** An enum: the variant index (a `VARIANTS[index]` out of range is an
    * `IndexError`), then the variant's dataclass. */
  function ReadEnum(content: seq<byte>, t: Type): (r: Result<(Value, seq<byte>)>)
    requires t.Enum?
    ensures r.Ok? ==> |r.value.1| <= |content|
    decreases t, 2, 0
  {
    var (index, rest) := DecodeVariantIndex(content);
    if index >= |t.variants| then Err(UnexpectedVariantIndex)
    else
      var variant := t.variants[index];
      if variant.Struct? then
        var (items, rest2) :- ReadFields(rest, variant.fields);
        Ok((VariantV(index, items), rest2))
      else
        var r :- Deserialize(rest, variant);
        Ok(r)
  }

  /** `n` items of the sequence's item type. */
  function ReadItems(content: seq<byte>, t: Type, n: nat): (r: Result<(seq<Value>, seq<byte>)>)
    requires t.SeqOf?
    ensures r.Ok? ==> |r.value.0| == n && |r.value.1| <= |content|
    decreases t, 1, n
  {
    if n == 0 then Ok(([], content))
    else
      var (head, rest) :- Deserialize(content, t.item);
      var (tail, rest2) :- ReadItems(rest, t, n - 1);
      Ok(([head] + tail, rest2))
  }

  /** One value of each type in `ts`, in order. */
  function ReadFields(content: seq<byte>, ts: seq<Type>): (r: Result<(seq<Value>, seq<byte>)>)
    ensures r.Ok? ==> |r.value.0| == |ts| && |r.value.1| <= |content|
    decreases ts
  {
    if |ts| == 0 then Ok(([], content))
    else
      var (head, rest) :- Deserialize(content, ts[0]);
      var (tail, rest2) :- ReadFields(rest, ts[1..]);
      Ok(([head] + tail, rest2))
  }

  /** The remaining `n` entries of a dict after the entries `res`; a key
    * read again replaces its value and keeps its place. */
  function ReadEntries(content: seq<byte>, t: Type, n: nat, res: seq<(Value, Value)>): (r: Result<(seq<(Value, Value)>, seq<byte>)>)
    requires t.MapOf?
    ensures r.Ok? ==> |r.value.1| <= |content|
    decreases t, 1, n
  {
    if n == 0 then Ok((res, content))
    else
      var (key, afterKey) :- Deserialize(content, t.key);
      var (value, afterValue) :- Deserialize(afterKey, t.value);
      var r :- ReadEntries(afterValue, t, n - 1, Put(res, key, value));
      Ok(r)
  }

  /** The limits of the format on a value of type `t`: lengths (of a string,
    * in UTF-8 bytes) below 2^64 and variant indices below 2^32. */
  predicate Within(v: Value, t: Type)
    decreases t
  {
    match t
    case Str => v.StrV? ==> |Utf8.Encode(v.s)| <= MaxLength
    case ByteString => v.BytesV? ==> |v.bytes| <= MaxLength
    case SeqOf(item) =>
      v.ListV? ==> |v.items| <= MaxLength && forall i :: 0 <= i < |v.items| ==> Within(v.items[i], item)
    case TupleOf(ts) =>
      v.TupleV? ==> forall i :: 0 <= i < |v.items| && i < |ts| ==> Within(v.items[i], ts[i])
    case OptionOf(inner) => v.NoneV? || Within(v, inner)
    case MapOf(kt, vt) =>
      v.MapV? ==>
        |v.entries| <= MaxLength &&
        forall i :: 0 <= i < |v.entries| ==> Within(v.entries[i].0, kt) && Within(v.entries[i].1, vt)
    case Struct(fs) =>
      v.StructV? ==> forall i :: 0 <= i < |v.fields| && i < |fs| ==> Within(v.fields[i], fs[i])
    case Enum(vs) =>
      v.VariantV? ==>
        v.index <= MaxIndex &&
        (v.index < |vs| && vs[v.index].Struct? ==>
          forall i :: 0 <= i < |v.fields| && i < |vs[v.index].fields| ==>
            Within(v.fields[i], vs[v.index].fields[i]))
    case _ => true
  }

  /** A value of its type, within the limits of the format. */
  predicate Encodable(v: Value, t: Type)
  {
    HasType(v, t) && Within(v, t)
  }
}
