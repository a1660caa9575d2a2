/**
  * `serde_binary`, the engine the Python BCS and bincode runtimes share: a
  * `BinarySerializer` that appends to an output buffer and a
  * `BinaryDeserializer` that reads an input cursor, each with a
  * container-depth budget. How lengths and variant indices are written, how
  * map entries are sorted and how key order is checked are left to
  * subclasses; here they are the hooks a serializer or deserializer is built
  * with. The classes' methods are proved against the functions `Written`
  * and `Parsed`, which say what `serialize_any` and `deserialize_any` do.
  */
module PySerdeBinary {
  import opened Wire
  import Utf8
  import opened PyTypes

  /** What a subclass supplies to the serializer: `serialize_len`,
    * `serialize_variant_index` (the bytes they write, or their error) and
    * `sort_map_entries` (the whole buffer after it rearranges the entries
    * starting at the given offsets). */
  datatype Hooks = Hooks(
    len: nat -> Result<seq<byte>>,
    variantIndex: nat -> Result<seq<byte>>,
    sortMapEntries: (seq<byte>, seq<nat>) -> Result<seq<byte>>)

  /** What a subclass supplies to the deserializer: `deserialize_len` and
    * `deserialize_variant_index` (the number read from the unread input and
    * how many bytes that took), and `check_that_key_slices_are_increasing`
    * (given the input and the previous and current key slices). */
  datatype ReadHooks = ReadHooks(
    len: seq<byte> -> Result<(nat, nat)>,
    variantIndex: seq<byte> -> Result<(nat, nat)>,
    keySlicesIncreasing: (seq<byte>, (nat, nat), (nat, nat)) -> Result<bool>)
  {
    /** A reader never consumes more than the input it was given. */
    ghost predicate Valid()
    {
      (forall s :: len(s).Ok? ==> len(s).value.1 <= |s|) &&
      (forall s :: variantIndex(s).Ok? ==> variantIndex(s).value.1 <= |s|)
    }
  }

  /** `increase_container_depth`: an exhausted budget is an error, otherwise
    * one level is taken; `None` means no limit. */
  function Enter(budget: Option<nat>): (r: Result<Option<nat>>)
    ensures r.Err? <==> budget == Some(0)
    ensures r.Err? ==> r.error == ContainerTooDeep
    ensures r.Ok? ==> Leave(r.value) == budget
  {
    match budget
    case None => Ok(None)
    case Some(n) => if n == 0 then Err(ContainerTooDeep) else Ok(Some(n - 1))
  }

  /** `decrease_container_depth`: one level is given back. */
  function Leave(budget: Option<nat>): Option<nat>
  {
    match budget
    case None => None
    case Some(n) => Some(n + 1)
  }

  /** What `serialize_any(v, t)` leaves in a buffer that held `out`, with
    * budget `budget`. A value whose shape does not match its type is the
    * source's "Wrong Value for the type" (or the `OverflowError` of
    * `to_bytes`, or an `IndexError`). */
  function Written(h: Hooks, out: seq<byte>, budget: Option<nat>, v: Value, t: Type): Result<seq<byte>>
    decreases t, 2
  {
    match t
    case Bool => if v.BoolV? then Ok(out + [BoolByte(v.b)]) else Err(UnexpectedValue)
    case Int(w, signed) =>
      if !v.IntV? then Err(UnexpectedValue)
      else
        var bytes :- ToBytes(v.i, w, signed);
        Ok(out + bytes)
    case F32 => Err(NotImplemented)
    case F64 => Err(NotImplemented)
    case Char => Err(NotImplemented)
    case Unit => Ok(out)
    case Str => if v.StrV? then WrittenBytes(h, out, Utf8.Encode(v.s)) else Err(UnexpectedValue)
    case ByteString => if v.BytesV? then WrittenBytes(h, out, v.bytes) else Err(UnexpectedValue)
    case SeqOf(_) =>
      if !v.ListV? then Err(UnexpectedValue)
      else
        var prefix :- h.len(|v.items|);
        WrittenItems(h, out + prefix, budget, v.items, t)
    case TupleOf(ts) =>
      if v.TupleV? && |v.items| <= |ts| then WrittenFields(h, out, budget, v.items, ts) else Err(UnexpectedValue)
    case OptionOf(inner) =>
      if v.NoneV? then Ok(out + [0]) else Written(h, out + [1], budget, v, inner)
    case MapOf(_, _) =>
      if !v.MapV? then Err(UnexpectedValue)
      else
        var prefix :- h.len(|v.entries|);
        var (buf, offsets) :- WrittenEntries(h, out + prefix, budget, v.entries, t, []);
        h.sortMapEntries(buf, offsets)
    case Struct(fs) =>
      if v.StructV? && |v.fields| == |fs| then WrittenStruct(h, out, budget, v.fields, fs) else Err(UnexpectedValue)
    case Enum(vs) =>
      if !v.VariantV? then Err(UnexpectedValue)
      else
        var index :- h.variantIndex(v.index);
        if v.index >= |vs| then Err(UnexpectedVariantIndex)
        else
          match vs[v.index]
          case Struct(fs) =>
            if |v.fields| == |fs| then WrittenStruct(h, out + index, budget, v.fields, fs) else Err(UnexpectedValue)
          case _ => Err(UnexpectedValue)
  }

  /** `serialize_bytes`: the length through the hook, then the content. */
  function WrittenBytes(h: Hooks, out: seq<byte>, bytes: seq<byte>): Result<seq<byte>>
  {
    var prefix :- h.len(|bytes|);
    Ok(out + prefix + bytes)
  }

  /** The fields of a dataclass, inside one level of the depth budget. */
  function WrittenStruct(h: Hooks, out: seq<byte>, budget: Option<nat>, items: seq<Value>, ts: seq<Type>): Result<seq<byte>>
    requires |items| <= |ts|
    decreases ts, 1
  {
    var inner :- Enter(budget);
    WrittenFields(h, out, inner, items, ts)
  }

  /** The items of a sequence of type `t`, one after the other. */
  function WrittenItems(h: Hooks, out: seq<byte>, budget: Option<nat>, items: seq<Value>, t: Type): Result<seq<byte>>
    requires t.SeqOf?
    decreases t, 1, |items|
  {
    if |items| == 0 then Ok(out)
    else
      var next :- Written(h, out, budget, items[0], t.item);
      WrittenItems(h, next, budget, items[1..], t)
  }

  /** Values of the types `ts`, in order; a tuple shorter than its type
    * writes only its own elements. */
  function WrittenFields(h: Hooks, out: seq<byte>, budget: Option<nat>, items: seq<Value>, ts: seq<Type>): Result<seq<byte>>
    requires |items| <= |ts|
    decreases ts, 0
  {
    if |items| == 0 then Ok(out)
    else
      var next :- Written(h, out, budget, items[0], ts[0]);
      WrittenFields(h, next, budget, items[1..], ts[1..])
  }

  /** The entries of a dict in insertion order, each its key then its value,
    * and the offsets recorded before each entry (after `offsets`). */
  function WrittenEntries(h: Hooks, out: seq<byte>, budget: Option<nat>, entries: seq<(Value, Value)>, t: Type, offsets: seq<nat>): Result<(seq<byte>, seq<nat>)>
    requires t.MapOf?
    decreases t, 1, |entries|
  {
    if |entries| == 0 then Ok((out, offsets))
    else
      var afterKey :- Written(h, out, budget, entries[0].0, t.key);
      var afterValue :- Written(h, afterKey, budget, entries[0].1, t.value);
      WrittenEntries(h, afterValue, budget, entries[1..], t, offsets + [|out|])
  }

  /** A result with no value agrees with a specification's outcome. */
  predicate Agrees(r: Result<()>, d: Result<seq<byte>>)
  {
    (r.Ok? <==> d.Ok?) && (r.Err? ==> r.error == d.error)
  }

  class BinarySerializer {
    /** `output`, what has been written so far. */
    var output: seq<byte>
    /** `container_depth_budget`. */
    var budget: Option<nat>
    /** The subclass's hooks. */
    const hooks: Hooks

    constructor (budget: Option<nat>, hooks: Hooks)
      ensures output == [] && this.budget == budget && this.hooks == hooks
    {
      output := [];
      this.budget := budget;
      this.hooks := hooks;
    }

    /** `get_buffer_offset`: the number of bytes written so far. */
    method GetBufferOffset() returns (r: nat)
      ensures r == |output|
    {
      return |output|;
    }

    method IncreaseContainerDepth() returns (r: Result<()>)
      modifies this
      ensures r.Err? <==> old(budget) == Some(0)
      ensures r.Err? ==> r.error == ContainerTooDeep && budget == old(budget)
      ensures r.Ok? ==> budget == Enter(old(budget)).value
      ensures output == old(output)
    {
      if budget.Some? {
        if budget.value == 0 {
          return Err(ContainerTooDeep);
        }
        budget := Some(budget.value - 1);
      }
      return Ok(());
    }

    method DecreaseContainerDepth()
      modifies this
      ensures budget == Leave(old(budget)) && output == old(output)
    {
      if budget.Some? {
        budget := Some(budget.value + 1);
      }
    }

    /** `serialize_len`, through the hook. */
    method SerializeLen(value: nat) returns (r: Result<()>)
      modifies this
      ensures r.Ok? <==> hooks.len(value).Ok?
      ensures r.Ok? ==> output == old(output) + hooks.len(value).value
      ensures r.Err? ==> r.error == hooks.len(value).error && output == old(output)
      ensures budget == old(budget)
    {
      var prefix :- hooks.len(value);
      output := output + prefix;
      return Ok(());
    }

    /** `serialize_bytes`: the length, then the content. */
    method SerializeBytes(value: seq<byte>) returns (r: Result<()>)
      modifies this
      ensures Agrees(r, WrittenBytes(hooks, old(output), value))
      ensures r.Ok? ==> output == WrittenBytes(hooks, old(output), value).value
      ensures budget == old(budget)
    {
      r := SerializeLen(|value|);
      if r.Ok? {
        output := output + value;
      }
    }

    /** `serialize_str`: the UTF-8 bytes of the string. */
    method SerializeStr(value: string) returns (r: Result<()>)
      modifies this
      ensures Agrees(r, WrittenBytes(hooks, old(output), Utf8.Encode(value)))
      ensures r.Ok? ==> output == WrittenBytes(hooks, old(output), Utf8.Encode(value)).value
      ensures budget == old(budget)
    {
      r := SerializeBytes(Utf8.Encode(value));
    }

    method SerializeBool(value: bool)
      modifies this
      ensures output == old(output) + [BoolByte(value)] && budget == old(budget)
    {
      output := output + [if value then 1 else 0];
    }

    /** `serialize_u8` … `serialize_i128`: `to_bytes` at the type's width,
      * which refuses a value out of range. */
    method SerializeInt(value: int, w: Width, signed: bool) returns (r: Result<()>)
      modifies this
      ensures r.Ok? <==> InRange(value, w, signed)
      ensures r.Ok? ==> output == old(output) + ToBytes(value, w, signed).value
      ensures r.Err? ==> r.error == UnexpectedValue && output == old(output)
      ensures budget == old(budget)
    {
      var bytes :- ToBytes(value, w, signed);
      output := output + bytes;
      return Ok(());
    }

    /** `serialize_any`. */
    method SerializeAny(v: Value, t: Type) returns (r: Result<()>)
      modifies this
      ensures Agrees(r, Written(hooks, old(output), old(budget), v, t))
      ensures r.Ok? ==> output == Written(hooks, old(output), old(budget), v, t).value && budget == old(budget)
      decreases t, 3
    {
      match t
      case Bool =>
        if !v.BoolV? {
          return Err(UnexpectedValue);
        }
        SerializeBool(v.b);
        return Ok(());
      case Int(w, signed) =>
        if !v.IntV? {
          return Err(UnexpectedValue);
        }
        r := SerializeInt(v.i, w, signed);
      case F32 => return Err(NotImplemented);
      case F64 => return Err(NotImplemented);
      case Char => return Err(NotImplemented);
      case Unit => return Ok(());
      case Str =>
        if !v.StrV? {
          return Err(UnexpectedValue);
        }
        r := SerializeStr(v.s);
      case ByteString =>
        if !v.BytesV? {
          return Err(UnexpectedValue);
        }
        r := SerializeBytes(v.bytes);
      case SeqOf(_) => r := SerializeSeq(v, t);
      case TupleOf(ts) =>
        if !(v.TupleV? && |v.items| <= |ts|) {
          return Err(UnexpectedValue);
        }
        r := SerializeFields(v.items, ts);
      case OptionOf(inner) =>
        if v.NoneV? {
          output := output + [0];
          return Ok(());
        }
        output := output + [1];
        r := SerializeAny(v, inner);
      case MapOf(_, _) => r := SerializeMap(v, t);
      case Struct(fs) =>
        if !(v.StructV? && |v.fields| == |fs|) {
          return Err(UnexpectedValue);
        }
        r := SerializeStruct(v.fields, fs);
      case Enum(_) => r := SerializeEnum(v, t);
    }

    /** A sequence: its length, then its items. */
    method SerializeSeq(v: Value, t: Type) returns (r: Result<()>)
      requires t.SeqOf?
      modifies this
      ensures Agrees(r, Written(hooks, old(output), old(budget), v, t))
      ensures r.Ok? ==> output == Written(hooks, old(output), old(budget), v, t).value && budget == old(budget)
      decreases t, 2
    {
      if !v.ListV? {
        return Err(UnexpectedValue);
      }
      r := SerializeLen(|v.items|);
      if r.Err? {
        return;
      }
      var i := 0;
      while i < |v.items|
        invariant 0 <= i <= |v.items| && budget == old(budget)
        invariant WrittenItems(hooks, output, budget, v.items[i..], t) == Written(hooks, old(output), old(budget), v, t)
      {
        r := SerializeAny(v.items[i], t.item);
        if r.Err? {
          return;
        }
        assert v.items[i..][1..] == v.items[i + 1..];
        i := i + 1;
      }
      return Ok(());
    }

    /** Values of the types `ts`, in order. */
    method SerializeFields(items: seq<Value>, ts: seq<Type>) returns (r: Result<()>)
      requires |items| <= |ts|
      modifies this
      ensures Agrees(r, WrittenFields(hooks, old(output), old(budget), items, ts))
      ensures r.Ok? ==> output == WrittenFields(hooks, old(output), old(budget), items, ts).value && budget == old(budget)
      decreases ts, 0
    {
      var i := 0;
      while i < |items|
        invariant 0 <= i <= |items| && budget == old(budget)
        invariant WrittenFields(hooks, output, budget, items[i..], ts[i..]) == WrittenFields(hooks, old(output), old(budget), items, ts)
      {
        r := SerializeAny(items[i], ts[i]);
        if r.Err? {
          return;
        }
        assert items[i..][1..] == items[i + 1..] && ts[i..][1..] == ts[i + 1..];
        i := i + 1;
      }
      return Ok(());
    }

    /** The content of a dataclass: one level of depth around its fields. */
    method SerializeStruct(items: seq<Value>, ts: seq<Type>) returns (r: Result<()>)
      requires |items| <= |ts|
      modifies this
      ensures Agrees(r, WrittenStruct(hooks, old(output), old(budget), items, ts))
      ensures r.Ok? ==> output == WrittenStruct(hooks, old(output), old(budget), items, ts).value && budget == old(budget)
      decreases ts, 1
    {
      r := IncreaseContainerDepth();
      if r.Err? {
        return;
      }
      r := SerializeFields(items, ts);
      if r.Err? {
        return;
      }
      DecreaseContainerDepth();
    }

    /** A dict: its length, the entries with the offset before each, then
      * the subclass's sort. */
    method SerializeMap(v: Value, t: Type) returns (r: Result<()>)
      requires t.MapOf?
      modifies this
      ensures Agrees(r, Written(hooks, old(output), old(budget), v, t))
      ensures r.Ok? ==> output == Written(hooks, old(output), old(budget), v, t).value && budget == old(budget)
      decreases t, 2
    {
      if !v.MapV? {
        return Err(UnexpectedValue);
      }
      r := SerializeLen(|v.entries|);
      if r.Err? {
        return;
      }
      ghost var start := output;
      var offsets := [];
      var i := 0;
      while i < |v.entries|
        invariant 0 <= i <= |v.entries| && budget == old(budget)
        invariant WrittenEntries(hooks, output, budget, v.entries[i..], t, offsets) == WrittenEntries(hooks, start, budget, v.entries, t, [])
      {
        var offset := GetBufferOffset();
        offsets := offsets + [offset];
        r := SerializeAny(v.entries[i].0, t.key);
        if r.Err? {
          return;
        }
        r := SerializeAny(v.entries[i].1, t.value);
        if r.Err? {
          return;
        }
        assert v.entries[i..][1..] == v.entries[i + 1..];
        i := i + 1;
      }
      var sorted :- hooks.sortMapEntries(output, offsets);
      output := sorted;
      return Ok(());
    }

    /** An enum value: the variant index through the hook, then the
      * variant's dataclass. */
    method SerializeEnum(v: Value, t: Type) returns (r: Result<()>)
      requires t.Enum?
      modifies this
      ensures Agrees(r, Written(hooks, old(output), old(budget), v, t))
      ensures r.Ok? ==> output == Written(hooks, old(output), old(budget), v, t).value && budget == old(budget)
      decreases t, 2
    {
      if !v.VariantV? {
        return Err(UnexpectedValue);
      }
      var index :- hooks.variantIndex(v.index);
      output := output + index;
      if v.index >= |t.variants| {
        return Err(UnexpectedVariantIndex);
      }
      var variant := t.variants[v.index];
      if !(variant.Struct? && |v.fields| == |variant.fields|) {
        return Err(UnexpectedValue);
      }
      r := SerializeStruct(v.fields, variant.fields);
    }
  }

  /** `read(length)`: exactly `length` bytes, or "Input is too short". */
  function ReadExactly(input: seq<byte>, pos: nat, n: nat): (r: Result<(seq<byte>, nat)>)
    requires pos <= |input|
    ensures r.Ok? <==> n <= |input| - pos
    ensures r.Ok? ==> r.value.0 == input[pos..pos + n] && r.value.1 == pos + n
    ensures r.Err? ==> r.error == TruncatedInput
  {
    if n <= |input| - pos then Ok((input[pos..pos + n], pos + n)) else Err(TruncatedInput)
  }

  /** A reading hook applied at `pos`: the number and the position after it. */
  function ReadWith(reader: seq<byte> -> Result<(nat, nat)>, input: seq<byte>, pos: nat): (r: Result<(nat, nat)>)
    requires pos <= |input|
    requires forall s :: reader(s).Ok? ==> reader(s).value.1 <= |s|
    ensures r.Ok? ==> pos <= r.value.1 <= |input|
  {
    var (n, used) :- reader(input[pos..]);
    Ok((n, pos + used))
  }

  /** `deserialize_bytes`: the length through the hook, then that many
    * bytes. */
  function ParsedBytes(h: ReadHooks, input: seq<byte>, pos: nat): (r: Result<(seq<byte>, nat)>)
    requires pos <= |input| && h.Valid()
    ensures r.Ok? ==> pos <= r.value.1 <= |input|
  {
    var (n, p) :- ReadWith(h.len, input, pos);
    ReadExactly(input, p, n)
  }

  /** `deserialize_str`: the bytes, which must be UTF-8. */
  function ParsedStr(h: ReadHooks, input: seq<byte>, pos: nat): (r: Result<(string, nat)>)
    requires pos <= |input| && h.Valid()
    ensures r.Ok? ==> pos <= r.value.1 <= |input|
  {
    var (bytes, p) :- ParsedBytes(h, input, pos);
    var s :- Utf8.Decode(bytes);
    Ok((s, p))
  }

  /** `deserialize_u8` … `deserialize_i128`: `from_bytes` of exactly the
    * type's width. */
  function ParsedInt(input: seq<byte>, pos: nat, w: Width, signed: bool): (r: Result<(int, nat)>)
    requires pos <= |input|
    ensures r.Ok? ==> pos <= r.value.1 <= |input|
  {
    var (bytes, p) :- ReadExactly(input, pos, Bytes(w));
    Ok((FromBytes(bytes, signed), p))
  }

  /** What `deserialize_any(t)` returns when the cursor is at `pos` and the
    * budget is `budget`, and where it leaves the cursor. */
  function Parsed(h: ReadHooks, input: seq<byte>, pos: nat, budget: Option<nat>, t: Type): (r: Result<(Value, nat)>)
    requires pos <= |input| && h.Valid()
    ensures r.Ok? ==> pos <= r.value.1 <= |input|
    decreases t, 2
  {
    match t
    case Bool =>
      var (b, p) :- ReadBool(input, pos, Strict);
      Ok((BoolV(b), p))
    case Int(w, signed) =>
      var (x, p) :- ParsedInt(input, pos, w, signed);
      Ok((IntV(x), p))
    case F32 => Err(NotImplemented)
    case F64 => Err(NotImplemented)
    case Char => Err(NotImplemented)
    case Unit => Ok((NoneV, pos))
    case Str =>
      var (s, p) :- ParsedStr(h, input, pos);
      Ok((StrV(s), p))
    case ByteString =>
      var (bytes, p) :- ParsedBytes(h, input, pos);
      Ok((BytesV(bytes), p))
    case SeqOf(_) =>
      var (n, p) :- ReadWith(h.len, input, pos);
      var (items, p2) :- ParsedItems(h, input, p, budget, t, n, []);
      Ok((ListV(items), p2))
    case TupleOf(ts) =>
      var (items, p) :- ParsedFields(h, input, pos, budget, ts, []);
      Ok((TupleV(items), p))
    case OptionOf(inner) =>
      var (tag, p) :- ReadExactly(input, pos, 1);
      if tag[0] == 0 then Ok((NoneV, p))
      else if tag[0] == 1 then Parsed(h, input, p, budget, inner)
      else Err(WrongOptionTag)
    case MapOf(_, _) =>
      var (n, p) :- ReadWith(h.len, input, pos);
      var (entries, p2) :- ParsedEntries(h, input, p, budget, t, n, None, []);
      Ok((MapV(entries), p2))
    case Struct(fs) =>
      var (items, p) :- ParsedStruct(h, input, pos, budget, fs);
      Ok((StructV(items), p))
    case Enum(vs) =>
      var (index, p) :- ReadWith(h.variantIndex, input, pos);
      if index >= |vs| then Err(UnexpectedVariantIndex)
      else
        match vs[index]
        case Struct(fs) =>
          var (items, p2) :- ParsedStruct(h, input, p, budget, fs);
          Ok((VariantV(index, items), p2))
        case _ => Parsed(h, input, p, budget, vs[index])
  }

  /** The fields of a dataclass, inside one level of the depth budget. */
  function ParsedStruct(h: ReadHooks, input: seq<byte>, pos: nat, budget: Option<nat>, ts: seq<Type>): (r: Result<(seq<Value>, nat)>)
    requires pos <= |input| && h.Valid()
    ensures r.Ok? ==> pos <= r.value.1 <= |input|
    decreases ts, 1
  {
    var inner :- Enter(budget);
    ParsedFields(h, input, pos, inner, ts, [])
  }

  /** One value of each type in `ts`, in order, appended to `result`. */
  function ParsedFields(h: ReadHooks, input: seq<byte>, pos: nat, budget: Option<nat>, ts: seq<Type>, result: seq<Value>): (r: Result<(seq<Value>, nat)>)
    requires pos <= |input| && h.Valid()
    ensures r.Ok? ==> pos <= r.value.1 <= |input|
    decreases ts, 0
  {
    if |ts| == 0 then Ok((result, pos))
    else
      var (head, p) :- Parsed(h, input, pos, budget, ts[0]);
      ParsedFields(h, input, p, budget, ts[1..], result + [head])
  }

  /** `n` items of the sequence type `t`, appended to `result`. */
  function ParsedItems(h: ReadHooks, input: seq<byte>, pos: nat, budget: Option<nat>, t: Type, n: nat, result: seq<Value>): (r: Result<(seq<Value>, nat)>)
    requires pos <= |input| && h.Valid() && t.SeqOf?
    ensures r.Ok? ==> pos <= r.value.1 <= |input|
    decreases t, 1, n
  {
    if n == 0 then Ok((result, pos))
    else
      var (head, p) :- Parsed(h, input, pos, budget, t.item);
      ParsedItems(h, input, p, budget, t, n - 1, result + [head])
  }

  /** One entry of the dict type `t` at `pos`: a key, its value, then (when
    * there is a previous key) the hook's check of the key's slice against
    * the previous one, whose answer is dropped. Gives the key, the value,
    * the key's slice and the position after the entry. */
  function ParsedEntry(h: ReadHooks, input: seq<byte>, pos: nat, budget: Option<nat>, t: Type,
                       previous: Option<(nat, nat)>): (r: Result<((Value, Value, (nat, nat)), nat)>)
    requires pos <= |input| && h.Valid() && t.MapOf?
    ensures r.Ok? ==> pos <= r.value.1 <= |input|
    decreases t, 0
  {
    var (key, keyEnd) :- Parsed(h, input, pos, budget, t.key);
    var (value, p) :- Parsed(h, input, keyEnd, budget, t.value);
    var checked :- if previous.Some? then h.keySlicesIncreasing(input, previous.value, (pos, keyEnd)) else Ok(true);
    Ok(((key, value, (pos, keyEnd)), p))
  }

  /** `n` more entries of the dict type `t`, each stored with
    * `result[key] = value`. */
  function ParsedEntries(h: ReadHooks, input: seq<byte>, pos: nat, budget: Option<nat>, t: Type, n: nat,
                         previous: Option<(nat, nat)>, result: seq<(Value, Value)>): (r: Result<(seq<(Value, Value)>, nat)>)
    requires pos <= |input| && h.Valid() && t.MapOf?
    ensures r.Ok? ==> pos <= r.value.1 <= |input|
    decreases t, 1, n
  {
    if n == 0 then Ok((result, pos))
    else
      var (entry, p) :- ParsedEntry(h, input, pos, budget, t, previous);
      ParsedEntries(h, input, p, budget, t, n - 1, Some(entry.2), Put(result, entry.0, entry.1))
  }

  class BinaryDeserializer {
    /** The whole `input` stream. */
    const input: seq<byte>
    /** The stream's position. */
    var pos: nat
    /** `container_depth_budget`. */
    var budget: Option<nat>
    /** The subclass's hooks. */
    const hooks: ReadHooks

    constructor (input: seq<byte>, budget: Option<nat>, hooks: ReadHooks)
      requires hooks.Valid()
      ensures this.input == input && pos == 0 && this.budget == budget && this.hooks == hooks && Valid()
    {
      this.input := input;
      pos := 0;
      this.budget := budget;
      this.hooks := hooks;
    }

    /** The position stays within the input; the hooks consume only what
      * they are given. */
    ghost predicate Valid()
      reads this
    {
      pos <= |input| && hooks.Valid()
    }

    /** `get_buffer_offset`: the stream's position. */
    method GetBufferOffset() returns (r: nat)
      ensures r == pos
    {
      return pos;
    }

    /** `get_remaining_buffer`: what has not been read. */
    method GetRemainingBuffer() returns (r: seq<byte>)
      requires Valid()
      ensures input == input[..pos] + r
    {
      r := input[pos..];
    }

    /** `read(length)`. A short read moves the stream to its end before the
      * error. */
    method Read(n: nat) returns (r: Result<seq<byte>>)
      requires Valid()
      modifies this
      ensures Valid() && budget == old(budget)
      ensures r.Ok? <==> n <= |input| - old(pos)
      ensures r.Ok? ==> r.value == input[old(pos)..old(pos) + n] && pos == old(pos) + n
      ensures r.Err? ==> r.error == TruncatedInput
    {
      if n <= |input| - pos {
        r := Ok(input[pos..pos + n]);
        pos := pos + n;
      } else {
        pos := |input|;
        r := Err(TruncatedInput);
      }
    }

    method IncreaseContainerDepth() returns (r: Result<()>)
      modifies this
      ensures r.Err? <==> old(budget) == Some(0)
      ensures r.Err? ==> r.error == ContainerTooDeep && budget == old(budget)
      ensures r.Ok? ==> budget == Enter(old(budget)).value
      ensures pos == old(pos)
    {
      if budget.Some? {
        if budget.value == 0 {
          return Err(ContainerTooDeep);
        }
        budget := Some(budget.value - 1);
      }
      return Ok(());
    }

    method DecreaseContainerDepth()
      modifies this
      ensures budget == Leave(old(budget)) && pos == old(pos)
    {
      if budget.Some? {
        budget := Some(budget.value + 1);
      }
    }

    /** `deserialize_len`, through the hook. */
    method DeserializeLen() returns (r: Result<nat>)
      requires Valid()
      modifies this
      ensures Valid() && budget == old(budget)
      ensures Matches(r, ReadWith(hooks.len, input, old(pos)), pos)
    {
      var read :- hooks.len(input[pos..]);
      pos := pos + read.1;
      return Ok(read.0);
    }

    /** `deserialize_variant_index`, through the hook. */
    method DeserializeVariantIndex() returns (r: Result<nat>)
      requires Valid()
      modifies this
      ensures Valid() && budget == old(budget)
      ensures Matches(r, ReadWith(hooks.variantIndex, input, old(pos)), pos)
    {
      var read :- hooks.variantIndex(input[pos..]);
      pos := pos + read.1;
      return Ok(read.0);
    }

    /** `deserialize_bytes`. */
    method DeserializeBytes() returns (r: Result<seq<byte>>)
      requires Valid()
      modifies this
      ensures Valid() && budget == old(budget)
      ensures Matches(r, ParsedBytes(hooks, input, old(pos)), pos)
    {
      var n :- DeserializeLen();
      r := Read(n);
    }

    /** `deserialize_str`. */
    method DeserializeStr() returns (r: Result<string>)
      requires Valid()
      modifies this
      ensures Valid() && budget == old(budget)
      ensures Matches(r, ParsedStr(hooks, input, old(pos)), pos)
    {
      var content :- DeserializeBytes();
      var s :- Utf8.Decode(content);
      return Ok(s);
    }

    /** `deserialize_bool`: only 0 and 1. */
    method DeserializeBool() returns (r: Result<bool>)
      requires Valid()
      modifies this
      ensures Valid() && budget == old(budget)
      ensures Matches(r, ReadBool(input, old(pos), Strict), pos)
    {
      var bytes :- Read(1);
      if bytes[0] == 0 {
        return Ok(false);
      } else if bytes[0] == 1 {
        return Ok(true);
      }
      return Err(InvalidBool);
    }

    /** `deserialize_u8` … `deserialize_i128`. */
    method DeserializeInt(w: Width, signed: bool) returns (r: Result<int>)
      requires Valid()
      modifies this
      ensures Valid() && budget == old(budget)
      ensures Matches(r, ParsedInt(input, old(pos), w, signed), pos)
    {
      var bytes :- Read(Bytes(w));
      return Ok(FromBytes(bytes, signed));
    }

    /** `deserialize_any`. */
    method DeserializeAny(t: Type) returns (r: Result<Value>)
      requires Valid()
      modifies this
      ensures Valid()
      ensures Matches(r, Parsed(hooks, input, old(pos), old(budget), t), pos)
      ensures r.Ok? ==> budget == old(budget)
      decreases t, 3
    {
      match t
      case SeqOf(_) => r := DeserializeSeq(t);
      case TupleOf(ts) =>
        var items :- DeserializeFields(ts);
        return Ok(TupleV(items));
      case OptionOf(_) => r := DeserializeOption(t);
      case MapOf(_, _) => r := DeserializeMap(t);
      case Struct(fs) =>
        var items :- DeserializeStruct(fs);
        return Ok(StructV(items));
      case Enum(_) => r := DeserializeEnum(t);
      case _ => r := DeserializeScalar(t);
    }

    /** The cases of `deserialize_any` that hold no other value. */
    method DeserializeScalar(t: Type) returns (r: Result<Value>)
      requires Valid()
      requires !(t.SeqOf? || t.TupleOf? || t.OptionOf? || t.MapOf? || t.Struct? || t.Enum?)
      modifies this
      ensures Valid()
      ensures Matches(r, Parsed(hooks, input, old(pos), old(budget), t), pos)
      ensures r.Ok? ==> budget == old(budget)
    {
      match t
      case Bool =>
        var b :- DeserializeBool();
        return Ok(BoolV(b));
      case Int(w, signed) =>
        var x :- DeserializeInt(w, signed);
        return Ok(IntV(x));
      case F32 => return Err(NotImplemented);
      case F64 => return Err(NotImplemented);
      case Char => return Err(NotImplemented);
      case Unit => return Ok(NoneV);
      case Str =>
        var s :- DeserializeStr();
        return Ok(StrV(s));
      case ByteString =>
        var bytes :- DeserializeBytes();
        return Ok(BytesV(bytes));
    }

    /** An option: its tag byte, then the value when the tag is 1. */
    method DeserializeOption(t: Type) returns (r: Result<Value>)
      requires Valid() && t.OptionOf?
      modifies this
      ensures Valid()
      ensures Matches(r, Parsed(hooks, input, old(pos), old(budget), t), pos)
      ensures r.Ok? ==> budget == old(budget)
      decreases t, 2
    {
      var tag :- Read(1);
      if tag[0] == 0 {
        return Ok(NoneV);
      } else if tag[0] == 1 {
        r := DeserializeAny(t.inner);
      } else {
        return Err(WrongOptionTag);
      }
    }

    /** A sequence: its length, then that many items. */
    method DeserializeSeq(t: Type) returns (r: Result<Value>)
      requires Valid() && t.SeqOf?
      modifies this
      ensures Valid()
      ensures Matches(r, Parsed(hooks, input, old(pos), old(budget), t), pos)
      ensures r.Ok? ==> budget == old(budget)
      decreases t, 2
    {
      var n :- DeserializeLen();
      ghost var start := pos;
      var result := [];
      var i := 0;
      while i < n
        invariant 0 <= i <= n && Valid() && budget == old(budget)
        invariant ParsedItems(hooks, input, pos, budget, t, n - i, result) == ParsedItems(hooks, input, start, budget, t, n, [])
      {
        var item :- DeserializeAny(t.item);
        result := result + [item];
        i := i + 1;
      }
      return Ok(ListV(result));
    }

    /** Values of the types `ts`, in order. */
    method DeserializeFields(ts: seq<Type>) returns (r: Result<seq<Value>>)
      requires Valid()
      modifies this
      ensures Valid()
      ensures Matches(r, ParsedFields(hooks, input, old(pos), old(budget), ts, []), pos)
      ensures r.Ok? ==> budget == old(budget)
      decreases ts, 0
    {
      ghost var start := pos;
      var result := [];
      var i := 0;
      while i < |ts|
        invariant 0 <= i <= |ts| && Valid() && budget == old(budget)
        invariant ParsedFields(hooks, input, pos, budget, ts[i..], result) == ParsedFields(hooks, input, start, budget, ts, [])
      {
        var item :- DeserializeAny(ts[i]);
        result := result + [item];
        assert ts[i..][1..] == ts[i + 1..];
        i := i + 1;
      }
      return Ok(result);
    }

    /** A dataclass: one level of depth around its fields. */
    method DeserializeStruct(ts: seq<Type>) returns (r: Result<seq<Value>>)
      requires Valid()
      modifies this
      ensures Valid()
      ensures Matches(r, ParsedStruct(hooks, input, old(pos), old(budget), ts), pos)
      ensures r.Ok? ==> budget == old(budget)
      decreases ts, 1
    {
      var entered := IncreaseContainerDepth();
      if entered.Err? {
        return Err(entered.error);
      }
      r := DeserializeFields(ts);
      if r.Err? {
        return;
      }
      DecreaseContainerDepth();
    }

    /** A dict: its length, then that many entries; from the second entry
      * on, the key's slice goes to the subclass's check with the previous
      * one. */
    method DeserializeMap(t: Type) returns (r: Result<Value>)
      requires Valid() && t.MapOf?
      modifies this
      ensures Valid()
      ensures Matches(r, Parsed(hooks, input, old(pos), old(budget), t), pos)
      ensures r.Ok? ==> budget == old(budget)
      decreases t, 2
    {
      var n :- DeserializeLen();
      ghost var start := pos;
      var result := [];
      var previous := None;
      var i := 0;
      while i < n
        invariant 0 <= i <= n && Valid() && budget == old(budget)
        invariant ParsedEntries(hooks, input, pos, budget, t, n - i, previous, result) == ParsedEntries(hooks, input, start, budget, t, n, None, [])
      {
        var entry :- DeserializeEntry(t, previous);
        previous := Some(entry.2);
        result := Put(result, entry.0, entry.1);
        i := i + 1;
      }
      return Ok(MapV(result));
    }

    /** The body of the map loop: a key between two readings of the
      * offset, its value, and the key check from the second entry on. */
    method DeserializeEntry(t: Type, previous: Option<(nat, nat)>) returns (r: Result<(Value, Value, (nat, nat))>)
      requires Valid() && t.MapOf?
      modifies this
      ensures Valid()
      ensures Matches(r, ParsedEntry(hooks, input, old(pos), old(budget), t, previous), pos)
      ensures r.Ok? ==> budget == old(budget)
      decreases t, 1
    {
      var keyStart := GetBufferOffset();
      var key :- DeserializeAny(t.key);
      var keyEnd := GetBufferOffset();
      var value :- DeserializeAny(t.value);
      if previous.Some? {
        var checked :- hooks.keySlicesIncreasing(input, previous.value, (keyStart, keyEnd));
      }
      return Ok((key, value, (keyStart, keyEnd)));
    }

    /** An enum: the variant index through the hook, which must be in
      * range, then the variant's dataclass. */
    method DeserializeEnum(t: Type) returns (r: Result<Value>)
      requires Valid() && t.Enum?
      modifies this
      ensures Valid()
      ensures Matches(r, Parsed(hooks, input, old(pos), old(budget), t), pos)
      ensures r.Ok? ==> budget == old(budget)
      decreases t, 2
    {
      var index :- DeserializeVariantIndex();
      if index >= |t.variants| {
        return Err(UnexpectedVariantIndex);
      }
      var variant := t.variants[index];
      if variant.Struct? {
        var items :- DeserializeStruct(variant.fields);
        return Ok(VariantV(index, items));
      }
      r := DeserializeAny(variant);
    }
  }
}
