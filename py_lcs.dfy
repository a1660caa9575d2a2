/**
  * The Python LCS runtime (`lcs/__init__.py`): `serialize` and `deserialize`
  * walk the declared type and thread the remaining input through the
  * recursion, lengths and variant indices are ULEB128 and map entries are
  * sorted by their bytes. The decoders are lax: a read past the end of the
  * input yields fewer bytes (or the value 0) instead of an error.
  */
module PyLcs {
  import opened Wire
  import Uleb128
  import opened LexOrder
  import Utf8
  import opened PyTypes

  /** `decode_length` refuses lengths above 2^31. */
  const MaxLength: nat := 0x8000_0000

  /** `encode_u32_as_uleb128`: seven bits at a time, low first, with the
    * continuation bit on all bytes but the last. */
  method EncodeU32AsUleb128(value: nat) returns (r: seq<byte>)
    ensures r == Uleb128.Encode(value)
  {
    var v := value;
    r := [];
    while v >= 0x80
      invariant r + Uleb128.Encode(v) == Uleb128.Encode(value)
      decreases v
    {
      r := r + [v % 0x80 + 0x80];
      v := v / 0x80;
    }
    r := r + [v];
  }

  /** `int.from_bytes(content[0:1])`: the first byte, or 0 for no byte. */
  function First(content: seq<byte>): byte
  {
    if |content| == 0 then 0 else content[0]
  }

  /** `content[1:]`. */
  function Rest(content: seq<byte>): seq<byte>
  {
    if |content| == 0 then [] else content[1..]
  }

  /** The test after the loop: 2^32 and above overflow. */
  function Checked(value: nat, content: seq<byte>): (r: Result<(nat, seq<byte>)>)
    ensures r.Ok? <==> value < 0x1_0000_0000
  {
    if value >= 0x1_0000_0000 then Err(VarintOverflow) else Ok((value, content))
  }

  /** The loop of `decode_uleb128_as_u32` from `shift` with accumulator
    * `value`, on what is left of the input. Adding the shifted digit is the
    * source's bitwise or: the accumulator holds only bits below `shift`. */
  function LaxLoop(content: seq<byte>, shift: nat, value: nat): (r: Result<(nat, seq<byte>)>)
    requires shift % 7 == 0
    ensures r.Ok? ==> |r.value.1| <= |content|
    decreases 32 - shift
  {
    if shift >= 32 then Checked(value, content)
    else
      var b := First(content);
      var digit := b % 0x80;
      var acc := value + digit * Uleb128.Weight(shift);
      if digit == b then
        if shift > 0 && digit == 0 then Err(NonCanonicalVarint) else Checked(acc, Rest(content))
      else
        var r := LaxLoop(Rest(content), shift + 7, acc);
        r
  }

  /** What `decode_uleb128_as_u32` returns: the value and the rest of the
    * input, or the error it raises. */
  function LaxDecode(content: seq<byte>): (r: Result<(nat, seq<byte>)>)
    ensures r.Ok? ==> |r.value.1| <= |content|
  {
    LaxLoop(content, 0, 0)
  }

  /** `decode_uleb128_as_u32`: at most five bytes; a byte without the
    * continuation bit ends the loop, and a zero digit there is refused
    * unless it is the first. */
  method DecodeUleb128AsU32(content: seq<byte>) returns (r: Result<(nat, seq<byte>)>)
    ensures r == LaxDecode(content)
  {
    var value: nat := 0;
    var rest := content;
    var shift := 0;
    while shift < 32
      invariant shift % 7 == 0 && shift <= 35
      invariant LaxLoop(rest, shift, value) == LaxDecode(content)
      decreases 32 - shift
    {
      var b := First(rest);
      var digit := b % 0x80;
      var acc := value + digit * Uleb128.Weight(shift);
      LaxStep(rest, shift, value, acc);
      rest := Rest(rest);
      value := acc;
      if digit == b {
        if shift > 0 && digit == 0 {
          return Err(NonCanonicalVarint);
        }
        break;
      }
      shift := shift + 7;
    }
    if value >= 0x1_0000_0000 {
      return Err(VarintOverflow);
    }
    return Ok((value, rest));
  }

  /** One turn of the decoding loop, `acc` being the accumulator after it. */
  lemma LaxStep(content: seq<byte>, shift: nat, value: nat, acc: int)
    requires shift % 7 == 0 && shift < 32
    requires acc == value + First(content) % 0x80 * Uleb128.Weight(shift)
    ensures acc >= 0
    ensures var b := First(content);
      LaxLoop(content, shift, value) ==
        if b % 0x80 != b then LaxLoop(Rest(content), shift + 7, acc)
        else if shift > 0 && b == 0 then Err(NonCanonicalVarint)
        else Checked(acc, Rest(content))
  {
  }

  /** `decode_length`. */
  function DecodeLength(content: seq<byte>): (r: Result<(nat, seq<byte>)>)
    ensures r.Ok? ==> r.value.0 <= MaxLength && |r.value.1| <= |content|
  {
    var (v, rest) :- LaxDecode(content);
    if v > MaxLength then Err(LengthTooLarge) else Ok((v, rest))
  }

  /** `decode_str`: the length, then `content[0:strlen].decode()`. */
  function DecodeStr(content: seq<byte>): (r: Result<(string, seq<byte>)>)
    ensures r.Ok? ==> |r.value.1| <= |content|
  {
    var (n, rest) :- DecodeLength(content);
    var (head, tail) := Split(rest, n);
    var s :- Utf8.Decode(head);
    Ok((s, tail))
  }

  /** `decode_bytes`: the length, then `content[:len]`. */
  function DecodeBytes(content: seq<byte>): (r: Result<(seq<byte>, seq<byte>)>)
    ensures r.Ok? ==> |r.value.1| <= |content|
  {
    var (n, rest) :- DecodeLength(content);
    var (head, tail) := Split(rest, n);
    Ok((head, tail))
  }

  /** `encode_str` as it is written: the length prefix counts code points
    * (`len(value)`) while the bytes are UTF-8. */
  function EncodeStrAsWritten(s: string): seq<byte>
  {
    Uleb128.Encode(|s|) + Utf8.Encode(s)
  }

  /** `encode_str` with the prefix counting the UTF-8 bytes that follow it,
    * which is what `decode_str` reads. */
  function EncodeStr(s: string): seq<byte>
  {
    var bytes := Utf8.Encode(s);
    Uleb128.Encode(|bytes|) + bytes
  }

  /** `encode_bytes`. */
  function EncodeBytes(bytes: seq<byte>): seq<byte>
  {
    Uleb128.Encode(|bytes|) + bytes
  }

  /** `serialize(obj, obj_type)` with the corrected `encode_str`, whose
    * prefix counts UTF-8 bytes (`EncodeStr`; the code as written is
    * `EncodeStrAsWritten`). A value whose shape does not match its declared
    * type is refused (the source's "Wrong Value for the type" and the
    * `OverflowError` of `to_bytes`). */
  function Serialize(v: Value, t: Type): Result<seq<byte>>
    decreases t, 2, 0
  {
    match t
    case Bool => if v.BoolV? then Ok([BoolByte(v.b)]) else Err(UnexpectedValue)
    case Int(w, signed) => if v.IntV? then ToBytes(v.i, w, signed) else Err(UnexpectedValue)
    case F32 => Err(NotImplemented)
    case F64 => Err(NotImplemented)
    case Char => Err(NotImplemented)
    case Unit => Ok([])
    case Str => if v.StrV? then Ok(EncodeStr(v.s)) else Err(UnexpectedValue)
    case ByteString => if v.BytesV? then Ok(EncodeBytes(v.bytes)) else Err(UnexpectedValue)
    case SeqOf(_) =>
      if !v.ListV? then Err(UnexpectedValue)
      else
        var body :- SerializeItems(v.items, t);
        Ok(Uleb128.Encode(|v.items|) + body)
    case TupleOf(ts) =>
      if v.TupleV? && |v.items| <= |ts| then SerializeFields(v.items, ts) else Err(UnexpectedValue)
    case OptionOf(inner) =>
      if v.NoneV? then Ok([0])
      else
        var body :- Serialize(v, inner);
        Ok([1] + body)
    case MapOf(_, _) =>
      if !v.MapV? then Err(UnexpectedValue)
      else
        var items :- SerializeEntries(v.entries, t);
        Ok(Uleb128.Encode(|v.entries|) + Concat(Sort(items)))
    case Struct(fs) =>
      if v.StructV? && |v.fields| == |fs| then SerializeFields(v.fields, fs) else Err(UnexpectedValue)
    case Enum(vs) =>
      if !v.VariantV? then Err(UnexpectedValue)
      else if v.index >= |vs| then Err(UnexpectedVariantIndex)
      else
        match vs[v.index]
        case Struct(fs) =>
          if |v.fields| != |fs| then Err(UnexpectedValue)
          else
            var body :- SerializeFields(v.fields, fs);
            Ok(Uleb128.Encode(v.index) + body)
        case _ => Err(UnexpectedValue)
  }

  /** The items of a sequence, one after the other. */
  function SerializeItems(items: seq<Value>, t: Type): Result<seq<byte>>
    requires t.SeqOf?
    decreases t, 1, |items|
  {
    if |items| == 0 then Ok([])
    else
      var head :- Serialize(items[0], t.item);
      var tail :- SerializeItems(items[1..], t);
      Ok(head + tail)
  }

  /** The elements of a tuple or the fields of a dataclass, each with its
    * own type; a tuple value shorter than its type writes only its own
    * elements. */
  function SerializeFields(items: seq<Value>, ts: seq<Type>): Result<seq<byte>>
    requires |items| <= |ts|
    decreases ts
  {
    if |items| == 0 then Ok([])
    else
      var head :- Serialize(items[0], ts[0]);
      var tail :- SerializeFields(items[1..], ts[1..]);
      Ok(head + tail)
  }

  /** Each dict item serialized as a `Tuple[K, V]`: its key's bytes, then its
    * value's. */
  function SerializeEntries(entries: seq<(Value, Value)>, t: Type): Result<seq<seq<byte>>>
    requires t.MapOf?
    decreases t, 1, |entries|
  {
    if |entries| == 0 then Ok([])
    else
      var key :- Serialize(entries[0].0, t.key);
      var value :- Serialize(entries[0].1, t.value);
      var tail :- SerializeEntries(entries[1..], t);
      Ok([key + value] + tail)
  }

  /** How the map decoder cuts a key's bytes out of the input. */
  datatype KeyCut =
    | NegativeIndex   // `previous_content[:-len(content)]`, as written
    | Counted         // the bytes the key read consumed

  /** The serialized key: what the key read took from `previous`, leaving
    * `content`. Written with a negative index, the cut is empty when nothing
    * is left, since `x[:-0]` is `x[:0]`. */
  function KeySlice(cut: KeyCut, previous: seq<byte>, content: seq<byte>): seq<byte>
    requires |content| <= |previous|
  {
    match cut
    case NegativeIndex => if |content| == 0 then [] else previous[..|previous| - |content|]
    case Counted => previous[..|previous| - |content|]
  }

  /** `deserialize(content, obj_type)` with the key cut `cut`: the value
    * and the rest of the input. */
  function Read(content: seq<byte>, t: Type, cut: KeyCut): (r: Result<(Value, seq<byte>)>)
    ensures r.Ok? ==> |r.value.1| <= |content|
    decreases t, 3, 0
  {
    match t
    case Bool =>
      var (b, rest) := LaxInt(content, W8, false);
      Ok((BoolV(b != 0), rest))
    case Int(w, signed) =>
      var (x, rest) := LaxInt(content, w, signed);
      Ok((IntV(x), rest))
    case F32 => Err(NotImplemented)
    case F64 => Err(NotImplemented)
    case Char => Err(NotImplemented)
    case Unit => Ok((NoneV, content))
    case Str =>
      var (s, rest) :- DecodeStr(content);
      Ok((StrV(s), rest))
    case ByteString =>
      var (bytes, rest) :- DecodeBytes(content);
      Ok((BytesV(bytes), rest))
    case SeqOf(_) => ReadSeq(content, t, cut)
    case TupleOf(ts) =>
      var (items, rest) :- ReadFields(content, ts, cut);
      Ok((TupleV(items), rest))
    case OptionOf(_) => ReadOption(content, t, cut)
    case MapOf(_, _) => ReadMap(content, t, cut)
    case Struct(fs) =>
      var (items, rest) :- ReadFields(content, fs, cut);
      Ok((StructV(items), rest))
    case Enum(_) => ReadEnum(content, t, cut)
  }

  /** A list: its length, then that many items. */
  function ReadSeq(content: seq<byte>, t: Type, cut: KeyCut): (r: Result<(Value, seq<byte>)>)
    requires t.SeqOf?
    ensures r.Ok? ==> |r.value.1| <= |content|
    decreases t, 2, 0
  {
    var (n, rest) :- DecodeLength(content);
    var (items, rest2) :- ReadItems(rest, t, n, cut);
    Ok((ListV(items), rest2))
  }

  /** An option: the tag byte (read laxly), then the value when it is 1. */
  function ReadOption(content: seq<byte>, t: Type, cut: KeyCut): (r: Result<(Value, seq<byte>)>)
    requires t.OptionOf?
    ensures r.Ok? ==> |r.value.1| <= |content|
    decreases t, 2, 0
  {
    var (tag, rest) := LaxInt(content, W8, false);
    if tag == 0 then Ok((NoneV, rest))
    else if tag == 1 then
      var r :- Read(rest, t.inner, cut);
      Ok(r)
    else Err(WrongOptionTag)
  }

  /** A dict: its length, then that many entries whose keys must increase. */
  function ReadMap(content: seq<byte>, t: Type, cut: KeyCut): (r: Result<(Value, seq<byte>)>)
    requires t.MapOf?
    ensures r.Ok? ==> |r.value.1| <= |content|
    decreases t, 2, 0
  {
    var (n, rest) :- DecodeLength(content);
    var (entries, rest2) :- ReadEntries(rest, t, n, None, [], cut);
    Ok((MapV(entries), rest2))
  }

  /** An enum: the variant index, then the fields of the variant's
    * dataclass. */
  function ReadEnum(content: seq<byte>, t: Type, cut: KeyCut): (r: Result<(Value, seq<byte>)>)
    requires t.Enum?
    ensures r.Ok? ==> |r.value.1| <= |content|
    decreases t, 2, 0
  {
    var (index, rest) :- LaxDecode(content);
    if index >= |t.variants| then Err(UnexpectedVariantIndex)
    else
      var variant := t.variants[index];
      if variant.Struct? then
        var (items, rest2) :- ReadFields(rest, variant.fields, cut);
        Ok((VariantV(index, items), rest2))
      else
        var r :- Read(rest, variant, cut);
        Ok(r)
  }

  /** `n` items of the sequence's item type. */
  function ReadItems(content: seq<byte>, t: Type, n: nat, cut: KeyCut): (r: Result<(seq<Value>, seq<byte>)>)
    requires t.SeqOf?
    ensures r.Ok? ==> |r.value.0| == n && |r.value.1| <= |content|
    decreases t, 1, n
  {
    if n == 0 then Ok(([], content))
    else
      var (head, rest) :- Read(content, t.item, cut);
      var (tail, rest2) :- ReadItems(rest, t, n - 1, cut);
      Ok(([head] + tail, rest2))
  }

  /** One value of each type in `ts`, in order. */
  function ReadFields(content: seq<byte>, ts: seq<Type>, cut: KeyCut): (r: Result<(seq<Value>, seq<byte>)>)
    ensures r.Ok? ==> |r.value.0| == |ts| && |r.value.1| <= |content|
    decreases ts
  {
    if |ts| == 0 then Ok(([], content))
    else
      var (head, rest) :- Read(content, ts[0], cut);
      var (tail, rest2) :- ReadFields(rest, ts[1..], cut);
      Ok(([head] + tail, rest2))
  }

  /** The remaining `n` entries of a map, after the entries `res` were read
    * and the key bytes `previous` (none before the first entry): each key's
    * bytes must be greater than the previous key's. */
  function ReadEntries(content: seq<byte>, t: Type, n: nat, previous: Option<seq<byte>>,
                       res: seq<(Value, Value)>, cut: KeyCut): (r: Result<(seq<(Value, Value)>, seq<byte>)>)
    requires t.MapOf?
    ensures r.Ok? ==> |r.value.1| <= |content|
    decreases t, 1, n
  {
    if n == 0 then Ok((res, content))
    else
      var (key, afterKey) :- Read(content, t.key, cut);
      var serializedKey := KeySlice(cut, content, afterKey);
      var (value, afterValue) :- Read(afterKey, t.value, cut);
      if previous.Some? && !Less(previous.value, serializedKey) then Err(KeysOutOfOrder)
      else
        var r :- ReadEntries(afterValue, t, n - 1, Some(serializedKey), Put(res, key, value), cut);
        Ok(r)
  }

  /** `deserialize` with the corrected key cut: each key's bytes are the
    * bytes it was read from (`Counted`), where the code as written cuts
    * with a negative index (`DeserializeAsWritten`). */
  function Deserialize(content: seq<byte>, t: Type): Result<(Value, seq<byte>)>
  {
    Read(content, t, Counted)
  }

  /** `deserialize` as written, cutting each key with a negative index. */
  function DeserializeAsWritten(content: seq<byte>, t: Type): Result<(Value, seq<byte>)>
  {
    Read(content, t, NegativeIndex)
  }

  /** From any step the strict decoder accepts, the lax loop reaches the same
    * value and leaves the input after the same bytes. */
  lemma {:induction false} LaxLoopAgrees(input: seq<byte>, pos: nat, shift: nat, value: nat, v: int, next: nat)
    requires shift % 7 == 0 && value < Uleb128.Weight(shift) && pos <= |input|
    requires Uleb128.Loop(Uleb128.Wide(Uleb128.MaxU32), input, pos, shift, value) == Ok((v, next))
    ensures 0 <= v && next <= |input| && LaxLoop(input[pos..], shift, value) == Ok((v, input[next..]))
    decreases 32 - shift, 2
  {
    Uleb128.AcceptedStep(Uleb128.MaxU32, input, pos, shift, value);
    if input[pos] >= 0x80 {
      AgreeContinue(input, pos, shift, value, v, next);
    } else {
      AgreeLast(input, pos, shift, value, v, next);
    }
  }

  lemma AgreeLast(input: seq<byte>, pos: nat, shift: nat, value: nat, v: int, next: nat)
    requires shift % 7 == 0 && value < Uleb128.Weight(shift) && pos < |input| && input[pos] < 0x80
    requires Uleb128.Loop(Uleb128.Wide(Uleb128.MaxU32), input, pos, shift, value) == Ok((v, next))
    ensures 0 <= v && next <= |input| && LaxLoop(input[pos..], shift, value) == Ok((v, input[next..]))
  {
    Uleb128.AcceptedStep(Uleb128.MaxU32, input, pos, shift, value);
    assert input[pos..][1..] == input[pos + 1..];
    LaxLast(input[pos..], shift, value);
  }

  lemma {:induction false} AgreeContinue(input: seq<byte>, pos: nat, shift: nat, value: nat, v: int, next: nat)
    requires shift % 7 == 0 && value < Uleb128.Weight(shift) && pos < |input| && input[pos] >= 0x80
    requires Uleb128.Loop(Uleb128.Wide(Uleb128.MaxU32), input, pos, shift, value) == Ok((v, next))
    ensures 0 <= v && next <= |input| && LaxLoop(input[pos..], shift, value) == Ok((v, input[next..]))
    decreases 32 - shift, 1
  {
    Uleb128.AcceptedStep(Uleb128.MaxU32, input, pos, shift, value);
    var acc := value + (input[pos] % 0x80) * Uleb128.Weight(shift);
    var content := input[pos..];
    assert content[0] == input[pos] && content[1..] == input[pos + 1..];
    LaxContinue(content, shift, value);
    NextShift(shift);
    LaxLoopAgrees(input, pos + 1, shift + 7, acc, v, next);
  }

  lemma NextShift(shift: nat)
    requires shift % 7 == 0
    ensures (shift + 7) % 7 == 0
  {
  }

  /** A byte with the continuation bit moves the lax loop on. */
  lemma LaxContinue(content: seq<byte>, shift: nat, value: nat)
    requires shift % 7 == 0 && shift < 32 && |content| > 0 && content[0] >= 0x80
    ensures LaxLoop(content, shift, value) ==
      LaxLoop(content[1..], shift + 7, value + (content[0] % 0x80) * Uleb128.Weight(shift))
  {
  }

  /** A last byte that is not a zero after the first ends the lax loop. */
  lemma LaxLast(content: seq<byte>, shift: nat, value: nat)
    requires shift % 7 == 0 && shift < 32 && |content| > 0 && content[0] < 0x80
    requires !(shift > 0 && content[0] == 0) && value + content[0] * Uleb128.Weight(shift) < 0x1_0000_0000
    ensures LaxLoop(content, shift, value) == Ok((value + content[0] * Uleb128.Weight(shift), content[1..]))
  {
    assert content[0] % 0x80 == content[0];
  }

  /** Whatever the strict ULEB128 decoder of the other runtimes accepts, the
    * Python decoder reads the same way. */
  lemma LaxAgreesWithStrict(input: seq<byte>)
    requires Uleb128.Decode(Uleb128.Wide(Uleb128.MaxU32), input, 0).Ok?
    ensures var (v, next) := Uleb128.Decode(Uleb128.Wide(Uleb128.MaxU32), input, 0).value;
      0 <= v && next <= |input| && LaxDecode(input) == Ok((v, input[next..]))
  {
    var (v, next) := Uleb128.Decode(Uleb128.Wide(Uleb128.MaxU32), input, 0).value;
    LaxLoopAgrees(input, 0, 0, 0, v, next);
    assert input[0..] == input;
  }

  /** `decode_uleb128_as_u32` reads back what `encode_u32_as_uleb128` wrote,
    * for every 32-bit value, whatever follows. */
  lemma Uleb128RoundTrip(v: nat, rest: seq<byte>)
    requires v <= Uleb128.MaxU32
    ensures LaxDecode(Uleb128.Encode(v) + rest) == Ok((v, rest))
  {
    var input := Uleb128.Encode(v) + rest;
    assert input[0..|Uleb128.Encode(v)|] == Uleb128.Encode(v);
    Uleb128.DecodeEncode(Uleb128.Wide(Uleb128.MaxU32), v, input, 0);
    LaxAgreesWithStrict(input);
    assert input[|Uleb128.Encode(v)|..] == rest;
  }

  /** The Python decoder is laxer than the strict one: a missing byte reads
    * as 0, so an empty input is the value 0, and five continuation bytes
    * end the loop without an error. */
  lemma LaxDecodeAccepts()
    ensures LaxDecode([]) == Ok((0, []))
    ensures LaxDecode([0x80, 0x80, 0x80, 0x80, 0x80]) == Ok((0, []))
    ensures Uleb128.Decode(Uleb128.Wide(Uleb128.MaxU32), [], 0) == Err(TruncatedInput)
    ensures Uleb128.Decode(Uleb128.Wide(Uleb128.MaxU32), [0x80, 0x80, 0x80, 0x80, 0x80], 0) == Err(VarintOverflow)
  {
  }

  /** What both decoders refuse: a zero terminating digit after the first
    * byte (also the zero read past a trailing continuation byte), and values
    * of 2^32 or more. */
  lemma LaxDecodeRejects()
    ensures LaxDecode([0x80]) == Err(NonCanonicalVarint)
    ensures LaxDecode([0x80, 0x00]) == Err(NonCanonicalVarint)
    ensures LaxDecode([0xff, 0xff, 0xff, 0xff, 0x10]) == Err(VarintOverflow)
  {
    LaxTruncated();
    LaxZeroLast();
    LaxOverflow();
  }

  /** A continuation byte with nothing after it reads an empty last digit. */
  lemma LaxTruncated()
    ensures LaxDecode([0x80]) == Err(NonCanonicalVarint)
  {
    assert Rest([0x80]) == [];
    assert LaxLoop([], 7, 0) == Err(NonCanonicalVarint);
  }

  /** A zero last digit after the first byte is refused. */
  lemma LaxZeroLast()
    ensures LaxDecode([0x80, 0x00]) == Err(NonCanonicalVarint)
  {
    assert Rest([0x80, 0x00]) == [0x00];
    assert LaxLoop([0x00], 7, 0) == Err(NonCanonicalVarint);
  }

  /** Five bytes whose value reaches 2^32 overflow. */
  lemma LaxOverflow()
    ensures LaxDecode([0xff, 0xff, 0xff, 0xff, 0x10]) == Err(VarintOverflow)
  {
    LaxOverflowAt([0xff, 0xff, 0xff, 0xff, 0x10]);
  }

  lemma LaxOverflowAt(s: seq<byte>)
    requires |s| == 5 && s[0] == s[1] == s[2] == s[3] == 0xff && s[4] == 0x10
    ensures LaxDecode(s) == Err(VarintOverflow)
  {
    LaxContinue(s, 0, 0);
    LaxContinue(s[1..], 7, 0x7f);
    assert s[1..][1..] == s[2..];
    LaxContinue(s[2..], 14, 0x3fff);
    assert s[2..][1..] == s[3..];
    LaxContinue(s[3..], 21, 0x1f_ffff);
    assert s[3..][1..] == s[4..];
    assert First(s[4..]) == 0x10 && Rest(s[4..]) == s[5..];
    assert LaxLoop(s[4..], 28, 0xfff_ffff) == Checked(0x1_0fff_ffff, s[5..]);
  }

  /** `decode_length` accepts 2^31 itself ... */
  lemma LengthAtLimit()
    ensures DecodeLength([0x80, 0x80, 0x80, 0x80, 0x08]) == Ok((MaxLength, []))
  {
  }

  /** ... and refuses what is above. */
  lemma LengthAboveLimit()
    ensures DecodeLength([0x80, 0x80, 0x80, 0x80, 0x09]) == Err(LengthTooLarge)
  {
  }

  /** The bytes `serialize` writes for `v`, or none when it raises. */
  function Image(v: Value, t: Type): seq<byte>
  {
    var r := Serialize(v, t);
    if r.Ok? then r.value else []
  }

  /** The serialized keys of a dict, in its insertion order. */
  function KeyImages(entries: seq<(Value, Value)>, kt: Type): (r: seq<seq<byte>>)
    ensures |r| == |entries|
    ensures forall i :: 0 <= i < |entries| ==> r[i] == Image(entries[i].0, kt)
  {
    seq(|entries|, i requires 0 <= i < |entries| => Image(entries[i].0, kt))
  }

  /** The limits of the format on a value of type `t`: lengths (of a string,
    * in UTF-8 bytes) up to 2^31 and variant indices up to 2^32 - 1, and each
    * dict holding its entries in the order `serialize` writes them, by
    * increasing serialized key. */
  predicate Within(v: Value, t: Type)
    decreases t
  {
    match t
    case Str => v.StrV? ==> |Utf8.Encode(v.s)| <= MaxLength
    case ByteString => v.BytesV? ==> |v.bytes| <= MaxLength
    case SeqOf(item) =>
      v.ListV? ==> |v.items| <= MaxLength && forall i :: 0 <= i < |v.items| ==> Within(v.items[i], item)
    case TupleOf(ts) =>
      v.TupleV? ==> forall i :: 0 <= i < |v.items| && i < |ts| ==> Within(v.items[i], ts[i])
    case OptionOf(inner) => v.NoneV? || Within(v, inner)
    case MapOf(kt, vt) =>
      v.MapV? ==>
        |v.entries| <= MaxLength &&
        (forall i :: 0 <= i < |v.entries| ==> Within(v.entries[i].0, kt) && Within(v.entries[i].1, vt)) &&
        StrictlyIncreasing(KeyImages(v.entries, kt))
    case Struct(fs) =>
      v.StructV? ==> forall i :: 0 <= i < |v.fields| && i < |fs| ==> Within(v.fields[i], fs[i])
    case Enum(vs) =>
      v.VariantV? ==>
        v.index <= Uleb128.MaxU32 &&
        (v.index < |vs| && vs[v.index].Struct? ==>
          forall i :: 0 <= i < |v.fields| && i < |vs[v.index].fields| ==>
            Within(v.fields[i], vs[v.index].fields[i]))
    case _ => true
  }

  /** A value of its type, within the limits of the format. */
  predicate Encodable(v: Value, t: Type)
  {
    HasType(v, t) && Within(v, t)
  }
}

