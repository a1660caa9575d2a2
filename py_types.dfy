/**
  * What the Python runtimes (`serde_binary`, `lcs`, `bincode`) serialize:
  * a declared type, which the sources read through `typing` introspection
  * and `dataclasses`, and a Python value of that type. The helpers here are
  * the Python built-ins the runtimes call on integers and dictionaries.
  */
module PyTypes {
  import opened Wire

  datatype Option<T> = None | Some(value: T)

  /** The integer widths of `serde_types`: `uint8` … `uint128`, `int8` …
    * `int128`. */
  datatype Width = W8 | W16 | W32 | W64 | W128

  function Bytes(w: Width): (n: nat)
    ensures n in {1, 2, 4, 8, 16}
  {
    match w
    case W8 => 1
    case W16 => 2
    case W32 => 4
    case W64 => 8
    case W128 => 16
  }

  /** A declared type. A struct is a dataclass, given by its field types in
    * declaration order; an enum lists the types of its `VARIANTS`, each of
    * which the generated code makes a dataclass. */
  datatype Type =
    | Bool
    | Int(width: Width, signed: bool)
    | F32 | F64 | Char
    | Unit
    | Str
    | ByteString
    | SeqOf(item: Type)
    | TupleOf(items: seq<Type>)
    | OptionOf(inner: Type)
    | MapOf(key: Type, value: Type)
    | Struct(fields: seq<Type>)
    | Enum(variants: seq<Type>)

  /** A Python value. `None` is both the unit value and an absent option; a
    * present option is the bare value. A dict is its items in insertion
    * order; a dataclass instance is its field values, and an enum variant
    * also carries its class's `INDEX`. */
  datatype Value =
    | BoolV(b: bool)
    | IntV(i: int)
    | NoneV
    | StrV(s: string)
    | BytesV(bytes: seq<byte>)
    | ListV(items: seq<Value>)
    | TupleV(items: seq<Value>)
    | MapV(entries: seq<(Value, Value)>)
    | StructV(fields: seq<Value>)
    | VariantV(index: nat, fields: seq<Value>)

  /** `x` fits the integer type. */
  predicate InRange(x: int, w: Width, signed: bool)
  {
    if signed then IsSigned(x, 8 * Bytes(w)) else IsUnsigned(x, 8 * Bytes(w))
  }

  /** `v` is a value of type `t`. There are no values of the float and char
    * types here: the runtimes refuse those types whatever the value. */
  predicate HasType(v: Value, t: Type)
    decreases t
  {
    match t
    case Bool => v.BoolV?
    case Int(w, signed) => v.IntV? && InRange(v.i, w, signed)
    case F32 => false
    case F64 => false
    case Char => false
    case Unit => v.NoneV?
    case Str => v.StrV?
    case ByteString => v.BytesV?
    case SeqOf(item) => v.ListV? && forall i :: 0 <= i < |v.items| ==> HasType(v.items[i], item)
    case TupleOf(ts) => v.TupleV? && |v.items| == |ts| && forall i :: 0 <= i < |ts| ==> HasType(v.items[i], ts[i])
    case OptionOf(inner) => v.NoneV? || HasType(v, inner)
    case MapOf(kt, vt) =>
      v.MapV? &&
      (forall i :: 0 <= i < |v.entries| ==> HasType(v.entries[i].0, kt) && HasType(v.entries[i].1, vt)) &&
      DistinctKeys(v.entries)
    case Struct(fs) => v.StructV? && |v.fields| == |fs| && forall i :: 0 <= i < |fs| ==> HasType(v.fields[i], fs[i])
    case Enum(vs) =>
      v.VariantV? && v.index < |vs| && vs[v.index].Struct? &&
      |v.fields| == |vs[v.index].fields| &&
      forall i :: 0 <= i < |v.fields| ==> HasType(v.fields[i], vs[v.index].fields[i])
  }

  /** A dict holds each key once. */
  predicate DistinctKeys(entries: seq<(Value, Value)>)
  {
    forall i, j :: 0 <= i < j < |entries| ==> entries[i].0 != entries[j].0
  }

  /** `d.get(key)`: the value the dict holds for `key`, if any. */
  function Lookup(entries: seq<(Value, Value)>, key: Value): Option<Value>
  {
    if |entries| == 0 then None
    else if entries[0].0 == key then Some(entries[0].1)
    else Lookup(entries[1..], key)
  }

  /** `res[key] = value`: a key already present keeps its place and takes
    * the new value; a new key goes at the end. */
  function Put(entries: seq<(Value, Value)>, key: Value, value: Value): (r: seq<(Value, Value)>)
    ensures Lookup(entries, key).Some? ==> |r| == |entries|
    ensures Lookup(entries, key).None? ==> r == entries + [(key, value)]
    decreases |entries|
  {
    if |entries| == 0 then [(key, value)]
    else if entries[0].0 == key then [(key, value)] + entries[1..]
    else
      assert entries == [entries[0]] + entries[1..];
      [entries[0]] + Put(entries[1..], key, value)
  }

  /** After `res[key] = value` the dict holds `value` for `key` and what it
    * held before for every other key. */
  lemma {:induction false} PutLookup(entries: seq<(Value, Value)>, key: Value, value: Value, other: Value)
    ensures Lookup(Put(entries, key, value), key) == Some(value)
    ensures other != key ==> Lookup(Put(entries, key, value), other) == Lookup(entries, other)
    decreases |entries|
  {
    if |entries| > 0 && entries[0].0 != key {
      PutLookup(entries[1..], key, value, other);
      assert Put(entries, key, value)[1..] == Put(entries[1..], key, value);
    }
  }

  /** A dict whose keys are distinct finds nothing for a key it does not
    * hold. */
  lemma {:induction false} LookupAbsent(entries: seq<(Value, Value)>, key: Value)
    requires forall i :: 0 <= i < |entries| ==> entries[i].0 != key
    ensures Lookup(entries, key) == None
    decreases |entries|
  {
    if |entries| > 0 {
      LookupAbsent(entries[1..], key);
    }
  }

  /** `int(x).to_bytes(n, "little", signed=signed)`: an `OverflowError`
    * when `x` does not fit. */
  function ToBytes(x: int, w: Width, signed: bool): (r: Result<seq<byte>>)
    ensures r.Ok? <==> InRange(x, w, signed)
    ensures r.Err? ==> r.error == UnexpectedValue
  {
    if InRange(x, w, signed) then Ok(LE(Wrap(x, 8 * Bytes(w)), Bytes(w))) else Err(UnexpectedValue)
  }

  /** `int.from_bytes(bs, "little", signed=signed)`, for any number of
    * bytes: no bytes are 0, and a signed reading takes the top bit of the
    * last byte as the sign. */
  function FromBytes(bs: seq<byte>, signed: bool): int
  {
    if signed && |bs| > 0 then ToSigned(FromLE(bs), 8 * |bs|) else FromLE(bs)
  }

  /** The first `n` bytes of `content` and what follows them, as Python's
    * `content[:n], content[n:]`: fewer when fewer remain. */
  function Split(content: seq<byte>, n: nat): (r: (seq<byte>, seq<byte>))
    ensures r.0 + r.1 == content && |r.0| == if n <= |content| then n else |content|
  {
    if n <= |content| then (content[..n], content[n..]) else (content, [])
  }

  /** The integer decoders of `primitive_decode_map`: `from_bytes` of
    * `content[:n]`, and `content[n:]`. */
  function LaxInt(content: seq<byte>, w: Width, signed: bool): (int, seq<byte>)
  {
    var (head, rest) := Split(content, Bytes(w));
    (FromBytes(head, signed), rest)
  }

  /** What `to_bytes` writes, `from_bytes` reads back. */
  lemma LaxIntOfToBytes(x: int, w: Width, signed: bool, rest: seq<byte>)
    requires InRange(x, w, signed)
    ensures LaxInt(ToBytes(x, w, signed).value + rest, w, signed) == (x, rest)
  {
    var n := Bytes(w);
    var bs := ToBytes(x, w, signed).value;
    assert (bs + rest)[..n] == bs && (bs + rest)[n..] == rest;
    if signed {
      SignedWrap(x, 8 * n);
      FromLEOfLE(Wrap(x, 8 * n), n);
    } else {
      DivModUnique(x, Pow2(8 * n), 0, x);
      FromLEOfLE(x, n);
    }
  }

  /** The readings are lax: a short input reads as the shorter integer, and
    * an empty one as 0, without an error. */
  lemma LaxIntShort()
    ensures LaxInt([], W32, false) == (0, [])
    ensures LaxInt([0xff], W16, true) == (-1, [])
    ensures LaxInt([0xff], W16, false) == (0xff, [])
  {
    Pow2Values();
    assert FromLE([0xff]) == 0xff by {
      assert [0xff][1..] == [];
    }
  }
}
