/**
  * `mangle_type` of the Rust code generator: the name a generated helper
  * type gets from the format it stands for ("vector_u8",
  * "map_str_to_option_Foo", "tuple2_u8_bool", ...).
  *
  * The name is a list of tokens joined by '_'.  When every type name is a
  * capitalised identifier without '_', the tokens can be read back, so
  * distinct formats never share a name (`MangleInjective`); a type name
  * holding '_' breaks that (`UnderscoreCollision`).
  */
module Common {
  import opened Formats

  // ---------------------------------------------------------------------
  // Decimal numerals, as `format!("{}", n)` prints a `usize`.
  // ---------------------------------------------------------------------

  predicate IsDigit(c: char) { '0' <= c <= '9' }

  function Decimal(n: nat): (s: string)
    ensures |s| > 0 && forall i | 0 <= i < |s| :: IsDigit(s[i])
  {
    var d := ['0' + (n % 10) as char];
    if n < 10 then d else Decimal(n / 10) + d
  }

  /** The value of a string of decimal digits. */
  function DecimalValue(s: string): nat
  {
    if |s| == 0 then 0
    else
      var c := s[|s| - 1];
      DecimalValue(s[..|s| - 1]) * 10 + (if IsDigit(c) then (c - '0') as nat else 0)
  }

  lemma {:induction false} DecimalRoundTrip(n: nat)
    ensures DecimalValue(Decimal(n)) == n
    decreases n
  {
    var d := ['0' + (n % 10) as char];
    if n >= 10 {
      DecimalRoundTrip(n / 10);
      assert Decimal(n)[..|Decimal(n)| - 1] == Decimal(n / 10);
    }
  }

  // ---------------------------------------------------------------------
  // The mangled name, as the source builds it.
  // ---------------------------------------------------------------------

  /** The fixed lowercase name of a format without parameters. */
  function PrimitiveName(f: Format): string
  {
    match f
    case Unit => "unit"
    case Bool => "bool"
    case I8 => "i8"
    case I16 => "i16"
    case I32 => "i32"
    case I64 => "i64"
    case I128 => "i128"
    case U8 => "u8"
    case U16 => "u16"
    case U32 => "u32"
    case U64 => "u64"
    case U128 => "u128"
    case F32 => "f32"
    case F64 => "f64"
    case Char => "char"
    case Str => "str"
    case Bytes => "bytes"
    case _ => ""
  }

  predicate IsPrimitive(f: Format)
  {
    !(f.Variable? || f.TypeName? || f.Option? || f.Seq? || f.Map? || f.Tuple? || f.TupleArray?)
  }

  /** `mangle_type`: the source panics on `Variable`, hence the requires. */
  function Mangle(f: Format): string
    requires Resolved(f)
  {
    match f
    case TypeName(x) => x
    case Option(g) => "option_" + Mangle(g)
    case Seq(g) => "vector_" + Mangle(g)
    case Map(k, v) => "map_" + Mangle(k) + "_to_" + Mangle(v)
    case Tuple(fs) => "tuple" + Decimal(|fs|) + "_" + MangleJoined(fs)
    case TupleArray(g, size) => "array" + Decimal(size) + "_" + Mangle(g) + "_array"
    case _ => PrimitiveName(f)
  }

  /** The mangled elements joined by '_'. */
  function MangleJoined(fs: seq<Format>): string
    requires forall i | 0 <= i < |fs| :: Resolved(fs[i])
  {
    if |fs| == 0 then ""
    else if |fs| == 1 then Mangle(fs[0])
    else Mangle(fs[0]) + "_" + MangleJoined(fs[1..])
  }

  // ---------------------------------------------------------------------
  // The same name as a list of tokens.
  // ---------------------------------------------------------------------

  /** The '_'-separated pieces of `Mangle(f)`.  The empty tuple leaves an empty last piece. */
  function Tokens(f: Format): (ts: seq<string>)
    requires Resolved(f)
    ensures |ts| > 0
  {
    match f
    case TypeName(x) => [x]
    case Option(g) => ["option"] + Tokens(g)
    case Seq(g) => ["vector"] + Tokens(g)
    case Map(k, v) => ["map"] + Tokens(k) + ["to"] + Tokens(v)
    case Tuple(fs) =>
      if |fs| == 0 then ["tuple0", ""] else ["tuple" + Decimal(|fs|)] + TokensAll(fs)
    case TupleArray(g, size) => ["array" + Decimal(size)] + Tokens(g) + ["array"]
    case _ => [PrimitiveName(f)]
  }

  function TokensAll(fs: seq<Format>): (ts: seq<string>)
    requires forall i | 0 <= i < |fs| :: Resolved(fs[i])
    ensures |fs| > 0 ==> |ts| > 0
  {
    if |fs| == 0 then [] else Tokens(fs[0]) + TokensAll(fs[1..])
  }

  /** Pieces joined by '_'. */
  function Join(ts: seq<string>): string
    requires |ts| > 0
  {
    if |ts| == 1 then ts[0] else ts[0] + "_" + Join(ts[1..])
  }

  lemma {:induction false} JoinAppend(a: seq<string>, b: seq<string>)
    requires |a| > 0 && |b| > 0
    ensures Join(a + b) == Join(a) + "_" + Join(b)
    decreases |a|
  {
    if |a| == 1 {
      assert (a + b)[1..] == b;
    } else {
      assert (a + b)[1..] == a[1..] + b;
      JoinAppend(a[1..], b);
    }
  }

  lemma JoinSingle(t: string)
    ensures Join([t]) == t
  {
  }

  lemma JoinCons(t: string, rest: seq<string>)
    requires |rest| > 0
    ensures Join([t] + rest) == t + "_" + Join(rest)
  {
    assert ([t] + rest)[1..] == rest;
  }

  /** The mangled name is the tokens joined by '_'. */
  lemma {:induction false} MangleIsJoin(f: Format)
    requires Resolved(f)
    ensures Mangle(f) == Join(Tokens(f))
    decreases f, 1
  {
    match f
    case TypeName(x) =>
    case Option(g) =>
      MangleIsJoin(g);
      PrefixedIsJoin(f, "option", g);
    case Seq(g) =>
      MangleIsJoin(g);
      PrefixedIsJoin(f, "vector", g);
    case Map(k, v) =>
      MangleIsJoin(k);
      MangleIsJoin(v);
      MapIsJoin(k, v);
    case Tuple(fs) =>
      if |fs| > 0 {
        MangleJoinedIsJoin(fs);
      }
      TupleIsJoin(fs);
    case TupleArray(g, size) =>
      MangleIsJoin(g);
      ArrayIsJoin(g, size);
    case _ =>
      PrimitiveIsJoin(f);
  }

  lemma PrimitiveIsJoin(f: Format)
    requires IsPrimitive(f)
    ensures Mangle(f) == Join(Tokens(f))
  {
    assert Tokens(f) == [PrimitiveName(f)];
  }

  lemma PrefixedIsJoin(f: Format, word: string, g: Format)
    requires (f == Option(g) && word == "option") || (f == Seq(g) && word == "vector")
    requires Resolved(g) && Mangle(g) == Join(Tokens(g))
    ensures Mangle(f) == Join(Tokens(f))
  {
    var m, toks := Mangle(g), Tokens(g);
    assert Mangle(f) == word + "_" + m;
    assert Tokens(f) == [word] + toks;
    JoinCons(word, toks);
  }

  lemma SeqRegroup<T>(a: T, ks: seq<T>, b: T, vs: seq<T>)
    ensures [a] + ks + [b] + vs == [a] + (ks + ([b] + vs))
    ensures [a] + ks + [b] == [a] + (ks + [b])
  {
  }

  lemma PairShape(a: string, m: string, n: string)
    ensures a + "_" + (m + "_" + ("to" + "_" + n)) == a + "_" + m + "_to_" + n
  {
  }

  lemma WrappedShape(a: string, m: string)
    ensures a + "_" + (m + "_" + "array") == a + "_" + m + "_array"
  {
  }

  /** `a_m_to_n`, read as pieces. */
  lemma JoinPair(a: string, m: string, ks: seq<string>, n: string, vs: seq<string>)
    requires |ks| > 0 && |vs| > 0 && m == Join(ks) && n == Join(vs)
    ensures a + "_" + m + "_to_" + n == Join([a] + ks + ["to"] + vs)
  {
    calc {
      Join([a] + ks + ["to"] + vs);
      { SeqRegroup(a, ks, "to", vs); }
      Join([a] + (ks + (["to"] + vs)));
      { JoinCons(a, ks + (["to"] + vs)); }
      a + "_" + Join(ks + (["to"] + vs));
      { JoinAppend(ks, ["to"] + vs); }
      a + "_" + (m + "_" + Join(["to"] + vs));
      { JoinCons("to", vs); }
      a + "_" + (m + "_" + ("to" + "_" + n));
      { PairShape(a, m, n); }
      a + "_" + m + "_to_" + n;
    }
  }

  lemma MangleMap(k: Format, v: Format)
    requires Resolved(k) && Resolved(v)
    ensures Mangle(Map(k, v)) == "map" + "_" + Mangle(k) + "_to_" + Mangle(v)
    ensures Tokens(Map(k, v)) == ["map"] + Tokens(k) + ["to"] + Tokens(v)
  {
    assert "map_" == "map" + "_";
  }

  lemma MapIsJoin(k: Format, v: Format)
    requires Resolved(k) && Resolved(v)
    requires Mangle(k) == Join(Tokens(k)) && Mangle(v) == Join(Tokens(v))
    ensures Mangle(Map(k, v)) == Join(Tokens(Map(k, v)))
  {
    MangleMap(k, v);
    JoinPair("map", Mangle(k), Tokens(k), Mangle(v), Tokens(v));
  }

  lemma MangleTuple(fs: seq<Format>)
    requires |fs| > 0 && forall i | 0 <= i < |fs| :: Resolved(fs[i])
    ensures Mangle(Tuple(fs)) == ("tuple" + Decimal(|fs|)) + "_" + MangleJoined(fs)
    ensures Tokens(Tuple(fs)) == ["tuple" + Decimal(|fs|)] + TokensAll(fs)
  {
  }

  lemma TupleIsJoin(fs: seq<Format>)
    requires forall i | 0 <= i < |fs| :: Resolved(fs[i])
    requires |fs| > 0 ==> MangleJoined(fs) == Join(TokensAll(fs))
    ensures Mangle(Tuple(fs)) == Join(Tokens(Tuple(fs)))
  {
    if |fs| == 0 {
      EmptyTupleIsJoin();
    } else {
      MangleTuple(fs);
      JoinCons("tuple" + Decimal(|fs|), TokensAll(fs));
    }
  }

  lemma EmptyTupleIsJoin()
    ensures Mangle(Tuple([])) == Join(Tokens(Tuple([])))
  {
    var empty: seq<Format> := [];
    assert Decimal(0) == "0";
    assert Mangle(Tuple(empty)) == "tuple0_";
    assert Tokens(Tuple(empty)) == ["tuple0", ""];
    JoinCons("tuple0", [""]);
  }

  /** `a_m_array`, read as pieces. */
  lemma JoinWrapped(a: string, m: string, toks: seq<string>)
    requires |toks| > 0 && m == Join(toks)
    ensures a + "_" + m + "_array" == Join([a] + toks + ["array"])
  {
    calc {
      Join([a] + toks + ["array"]);
      { SeqRegroup(a, toks, "array", []); }
      Join([a] + (toks + ["array"]));
      { JoinCons(a, toks + ["array"]); }
      a + "_" + Join(toks + ["array"]);
      { JoinAppend(toks, ["array"]); }
      a + "_" + (m + "_" + Join(["array"]));
      { WrappedShape(a, m); }
      a + "_" + m + "_array";
    }
  }

  lemma MangleArray(g: Format, size: nat)
    requires Resolved(g)
    ensures Mangle(TupleArray(g, size)) == ("array" + Decimal(size)) + "_" + Mangle(g) + "_array"
    ensures Tokens(TupleArray(g, size)) == ["array" + Decimal(size)] + Tokens(g) + ["array"]
  {
  }

  lemma ArrayIsJoin(g: Format, size: nat)
    requires Resolved(g) && Mangle(g) == Join(Tokens(g))
    ensures Mangle(TupleArray(g, size)) == Join(Tokens(TupleArray(g, size)))
  {
    MangleArray(g, size);
    JoinWrapped("array" + Decimal(size), Mangle(g), Tokens(g));
  }

  lemma {:induction false} MangleJoinedIsJoin(fs: seq<Format>)
    requires |fs| > 0 && forall i | 0 <= i < |fs| :: Resolved(fs[i])
    ensures MangleJoined(fs) == Join(TokensAll(fs))
    decreases fs, 0
  {
    MangleIsJoin(fs[0]);
    if |fs| == 1 {
      assert TokensAll(fs) == Tokens(fs[0]) + [];
      assert Tokens(fs[0]) + [] == Tokens(fs[0]);
    } else {
      MangleJoinedIsJoin(fs[1..]);
      JoinAppend(Tokens(fs[0]), TokensAll(fs[1..]));
    }
  }

  // ---------------------------------------------------------------------
  // Reading the name back.
  // ---------------------------------------------------------------------

  /** Split a string at every '_'. */
  function Split(s: string): (ts: seq<string>)
    ensures |ts| > 0
  {
    if |s| == 0 then [""]
    else if s[0] == '_' then [""] + Split(s[1..])
    else
      var r := Split(s[1..]);
      [[s[0]] + r[0]] + r[1..]
  }

  lemma {:induction false} SplitPlain(t: string)
    requires '_' !in t
    ensures Split(t) == [t]
    decreases |t|
  {
    if |t| > 0 {
      SplitPlain(t[1..]);
      assert [t[0]] + t[1..] == t;
    }
  }

  lemma {:induction false} SplitAt(t: string, u: string)
    requires '_' !in t
    ensures Split(t + "_" + u) == [t] + Split(u)
    decreases |t|
  {
    if |t| == 0 {
      assert t + "_" + u == "_" + u;
      assert ("_" + u)[1..] == u;
    } else {
      var s := t + "_" + u;
      assert s[0] == t[0];
      assert s[1..] == t[1..] + "_" + u;
      SplitAt(t[1..], u);
      assert [t[0]] + t[1..] == t;
    }
  }

  lemma {:induction false} SplitJoin(ts: seq<string>)
    requires |ts| > 0 && Unseparated(ts)
    ensures Split(Join(ts)) == ts
    decreases |ts|
  {
    if |ts| == 1 {
      SplitPlain(ts[0]);
    } else {
      SplitJoin(ts[1..]);
      SplitAt(ts[0], Join(ts[1..]));
      assert [ts[0]] + ts[1..] == ts;
    }
  }

  /** The outcome of reading a format from a list of tokens. */
  datatype Reading<T> = Fail | Read(value: T, rest: seq<string>)

  /** A type name that cannot be taken for a keyword: a capital letter first, no '_'. */
  predicate PlainName(x: string)
  {
    |x| > 0 && 'A' <= x[0] <= 'Z' && '_' !in x
  }

  /** A token "<word><decimal>"; the value is the decimal. */
  predicate Numbered(t: string, word: string)
  {
    |t| > |word| && t[..|word|] == word && forall i | |word| <= i < |t| :: IsDigit(t[i])
  }

  lemma NumberedToken(word: string, n: nat)
    ensures Numbered(word + Decimal(n), word)
    ensures (word + Decimal(n))[|word|..] == Decimal(n)
  {
    var t := word + Decimal(n);
    assert t[..|word|] == word;
    assert t[|word|..] == Decimal(n);
  }

  function PrimitiveOf(t: string): (r: Format)
    ensures t != "" && r != Variable ==> IsPrimitive(r) && PrimitiveName(r) == t
  {
    if t == "unit" then Unit
    else if t == "bool" then Bool
    else if t == "i8" then I8
    else if t == "i16" then I16
    else if t == "i32" then I32
    else if t == "i64" then I64
    else if t == "i128" then I128
    else if t == "u8" then U8
    else if t == "u16" then U16
    else if t == "u32" then U32
    else if t == "u64" then U64
    else if t == "u128" then U128
    else if t == "f32" then F32
    else if t == "f64" then F64
    else if t == "char" then Char
    else if t == "str" then Str
    else if t == "bytes" then Bytes
    else Variable
  }

  lemma PrimitiveOfName(f: Format)
    requires IsPrimitive(f)
    ensures PrimitiveOf(PrimitiveName(f)) == f
  {
  }

  /** What the first token of a format says it is. */
  datatype Head =
    | NameHead(name: string)
    | OptionHead | VectorHead | MapHead
    | TupleHead(n: nat)
    | ArrayHead(size: nat)
    | PrimitiveHead(f: Format)
    | NoHead

  function Classify(t: string): Head
  {
    if PlainName(t) then NameHead(t)
    else if t == "option" then OptionHead
    else if t == "vector" then VectorHead
    else if t == "map" then MapHead
    else if Numbered(t, "tuple") then TupleHead(DecimalValue(t[5..]))
    else if Numbered(t, "array") then ArrayHead(DecimalValue(t[5..]))
    else
      var p := PrimitiveOf(t);
      if p == Variable then NoHead else PrimitiveHead(p)
  }

  /** Read one format from the front of `ts`. */
  function ReadFormat(ts: seq<string>): (r: Reading<Format>)
    ensures r.Read? ==> |r.rest| < |ts|
    decreases |ts|, 0
  {
    if |ts| == 0 then Fail
    else
      match Classify(ts[0])
      case NameHead(x) => Read(TypeName(x), ts[1..])
      case OptionHead =>
        (match ReadFormat(ts[1..])
         case Fail => Fail
         case Read(g, rest) => Read(Option(g), rest))
      case VectorHead =>
        (match ReadFormat(ts[1..])
         case Fail => Fail
         case Read(g, rest) => Read(Seq(g), rest))
      case MapHead =>
        (match ReadFormat(ts[1..])
         case Fail => Fail
         case Read(k, rest) =>
           if |rest| == 0 || rest[0] != "to" then Fail
           else
             match ReadFormat(rest[1..])
             case Fail => Fail
             case Read(v, rest2) => Read(Map(k, v), rest2))
      case TupleHead(n) =>
        if n == 0 then
          if |ts| >= 2 && ts[1] == "" then Read(Tuple([]), ts[2..]) else Fail
        else
          (match ReadFormats(ts[1..], n)
           case Fail => Fail
           case Read(fs, rest) => Read(Tuple(fs), rest))
      case ArrayHead(size) =>
        (match ReadFormat(ts[1..])
         case Fail => Fail
         case Read(g, rest) =>
           if |rest| == 0 || rest[0] != "array" then Fail
           else Read(TupleArray(g, size), rest[1..]))
      case PrimitiveHead(p) => Read(p, ts[1..])
      case NoHead => Fail
  }

  /** Read `n` formats in a row. */
  function ReadFormats(ts: seq<string>, n: nat): (r: Reading<seq<Format>>)
    ensures r.Read? ==> |r.rest| <= |ts| && |r.value| == n
    decreases |ts|, 1, n
  {
    if n == 0 then Read([], ts)
    else
      match ReadFormat(ts)
      case Fail => Fail
      case Read(f, rest) =>
        match ReadFormats(rest, n - 1)
        case Fail => Fail
        case Read(fs, rest2) => Read([f] + fs, rest2)
  }

  /** Every type name inside `f` is a plain name. */
  predicate PlainNames(f: Format)
  {
    match f
    case Variable => false
    case TypeName(x) => PlainName(x)
    case Option(g) => PlainNames(g)
    case Seq(g) => PlainNames(g)
    case Map(k, v) => PlainNames(k) && PlainNames(v)
    case Tuple(fs) => forall i | 0 <= i < |fs| :: PlainNames(fs[i])
    case TupleArray(g, _) => PlainNames(g)
    case _ => true
  }

  lemma {:induction false} PlainNamesResolved(f: Format)
    requires PlainNames(f)
    ensures Resolved(f)
    decreases f
  {
    match f
    case Option(g) => PlainNamesResolved(g);
    case Seq(g) => PlainNamesResolved(g);
    case Map(k, v) => PlainNamesResolved(k); PlainNamesResolved(v);
    case Tuple(fs) =>
      forall i | 0 <= i < |fs| ensures Resolved(fs[i]) {
        PlainNamesResolved(fs[i]);
      }
    case TupleArray(g, _) => PlainNamesResolved(g);
    case _ =>
  }

  /** The tokens of a format read back as that format, whatever follows. */
  lemma {:induction false} ReadTokens(f: Format, rest: seq<string>)
    requires PlainNames(f) && Resolved(f)
    ensures ReadFormat(Tokens(f) + rest) == Read(f, rest)
    decreases f, 1
  {
    match f
    case TypeName(x) =>
      ReadName(x, rest);
    case Option(g) =>
      ReadTokens(g, rest);
      ReadPrefixed(f, "option", g, rest);
    case Seq(g) =>
      ReadTokens(g, rest);
      ReadPrefixed(f, "vector", g, rest);
    case Map(k, v) =>
      ReadTokens(k, ["to"] + Tokens(v) + rest);
      ReadTokens(v, rest);
      ReadMap(k, v, rest);
    case Tuple(fs) =>
      if |fs| == 0 {
        ReadEmptyTuple(rest);
      } else {
        ReadAllTokens(fs, rest);
        ReadTuple(fs, rest);
      }
    case TupleArray(g, size) =>
      ReadTokens(g, ["array"] + rest);
      ReadArray(g, size, rest);
    case _ =>
      ReadPrimitive(f, rest);
  }

  lemma ReadName(x: string, rest: seq<string>)
    requires PlainName(x)
    ensures ReadFormat(Tokens(TypeName(x)) + rest) == Read(TypeName(x), rest)
  {
    assert ([x] + rest)[1..] == rest;
  }

  lemma ReadPrimitive(f: Format, rest: seq<string>)
    requires IsPrimitive(f)
    ensures ReadFormat(Tokens(f) + rest) == Read(f, rest)
  {
    var t := PrimitiveName(f);
    assert Tokens(f) == [t];
    assert ([t] + rest)[0] == t && ([t] + rest)[1..] == rest;
    PrimitiveOfName(f);
    assert !PlainName(t) && !Numbered(t, "tuple") && !Numbered(t, "array");
    assert Classify(t) == PrimitiveHead(f);
  }

  lemma ReadPrefixed(f: Format, word: string, g: Format, rest: seq<string>)
    requires (f == Option(g) && word == "option") || (f == Seq(g) && word == "vector")
    requires Resolved(g) && ReadFormat(Tokens(g) + rest) == Read(g, rest)
    ensures ReadFormat(Tokens(f) + rest) == Read(f, rest)
  {
    var tg := Tokens(g);
    assert Tokens(f) == [word] + tg;
    Behead(word, tg, rest);
    ReadPrefixedStep([word] + tg + rest, word);
  }

  /** `ReadFormat` on a leading "option" or "vector": the inner format. */
  lemma ReadPrefixedStep(ts: seq<string>, word: string)
    requires word == "option" || word == "vector"
    requires |ts| > 0 && ts[0] == word
    ensures var r := ReadFormat(ts[1..]);
      ReadFormat(ts) == if r.Fail? then Fail else Read(if word == "option" then Option(r.value) else Seq(r.value), r.rest)
  {
    assert Classify(ts[0]) == if word == "option" then OptionHead else VectorHead;
  }

  lemma Behead<T>(x: T, a: seq<T>, b: seq<T>)
    ensures ([x] + a + b)[0] == x && ([x] + a + b)[1..] == a + b
  {
    assert ([x] + a + b)[1..] == a + b;
  }

  lemma Regroup<T>(x: T, a: seq<T>, y: T, b: seq<T>, c: seq<T>)
    ensures [x] + a + [y] + b + c == [x] + (a + ([y] + b + c))
  {
  }

  /** `ReadFormat` on a leading "map": the key, "to", then the value. */
  lemma ReadMapStep(ts: seq<string>)
    requires |ts| > 0 && ts[0] == "map"
    ensures var r := ReadFormat(ts[1..]);
      ReadFormat(ts) ==
        if r.Fail? || |r.rest| == 0 || r.rest[0] != "to" then Fail
        else
          var r2 := ReadFormat(r.rest[1..]);
          if r2.Fail? then Fail else Read(Map(r.value, r2.value), r2.rest)
  {
    assert Classify(ts[0]) == MapHead;
  }

  lemma ReadMap(k: Format, v: Format, rest: seq<string>)
    requires Resolved(k) && Resolved(v)
    requires ReadFormat(Tokens(k) + (["to"] + Tokens(v) + rest)) == Read(k, ["to"] + Tokens(v) + rest)
    requires ReadFormat(Tokens(v) + rest) == Read(v, rest)
    ensures ReadFormat(Tokens(Map(k, v)) + rest) == Read(Map(k, v), rest)
  {
    var tk, tv := Tokens(k), Tokens(v);
    var tail := ["to"] + tv + rest;
    var ts := ["map"] + (tk + tail);
    assert Tokens(Map(k, v)) == ["map"] + tk + ["to"] + tv;
    Regroup("map", tk, "to", tv, rest);
    Behead("map", tk, tail);
    Behead("to", tv, rest);
    ReadMapStep(ts);
  }

  lemma ReadEmptyTuple(rest: seq<string>)
    ensures ReadFormat(Tokens(Tuple([])) + rest) == Read(Tuple([]), rest)
  {
    var empty: seq<Format> := [];
    var ts := Tokens(Tuple(empty)) + rest;
    NumberedToken("tuple", 0);
    DecimalRoundTrip(0);
    assert Decimal(0) == "0";
    assert ts == ["tuple0", ""] + rest;
    assert ts[0] == "tuple0" && ts[1] == "" && ts[2..] == rest;
  }

  /** The leading token of a tuple or an array is read as one, with its number. */
  lemma ClassifyNumbered(word: string, n: nat)
    requires word == "tuple" || word == "array"
    ensures Classify(word + Decimal(n)) == if word == "tuple" then TupleHead(n) else ArrayHead(n)
  {
    var head := word + Decimal(n);
    NumberedToken(word, n);
    DecimalRoundTrip(n);
    assert head[0] == word[0];
    if word == "array" {
      assert head[..5][0] == 'a';
    }
  }

  lemma ReadTuple(fs: seq<Format>, rest: seq<string>)
    requires |fs| > 0 && forall i | 0 <= i < |fs| :: Resolved(fs[i])
    requires ReadFormats(TokensAll(fs) + rest, |fs|) == Read(fs, rest)
    ensures ReadFormat(Tokens(Tuple(fs)) + rest) == Read(Tuple(fs), rest)
  {
    var head := "tuple" + Decimal(|fs|);
    var ts := Tokens(Tuple(fs)) + rest;
    Behead(head, TokensAll(fs), rest);
    assert ts == [head] + TokensAll(fs) + rest;
    ClassifyNumbered("tuple", |fs|);
  }

  /** `ReadFormat` on a leading "array<n>" token: the item, then the closing "array". */
  lemma ReadArrayStep(ts: seq<string>, size: nat)
    requires |ts| > 0 && Classify(ts[0]) == ArrayHead(size)
    ensures var r := ReadFormat(ts[1..]);
      ReadFormat(ts) == if r.Fail? || |r.rest| == 0 || r.rest[0] != "array" then Fail
                        else Read(TupleArray(r.value, size), r.rest[1..])
  {
  }

  lemma ReadArray(g: Format, size: nat, rest: seq<string>)
    requires Resolved(g)
    requires ReadFormat(Tokens(g) + (["array"] + rest)) == Read(g, ["array"] + rest)
    ensures ReadFormat(Tokens(TupleArray(g, size)) + rest) == Read(TupleArray(g, size), rest)
  {
    var head := "array" + Decimal(size);
    var tg := Tokens(g);
    var closing := ["array"] + rest;
    var ts := [head] + tg + closing;
    assert Tokens(TupleArray(g, size)) + rest == ts;
    Behead(head, tg, closing);
    ClassifyNumbered("array", size);
    ReadArrayStep(ts, size);
    assert closing[0] == "array" && closing[1..] == rest;
  }

  lemma {:induction false} ReadAllTokens(fs: seq<Format>, rest: seq<string>)
    requires forall i | 0 <= i < |fs| :: PlainNames(fs[i]) && Resolved(fs[i])
    ensures ReadFormats(TokensAll(fs) + rest, |fs|) == Read(fs, rest)
    decreases fs, 0
  {
    if |fs| > 0 {
      var first, others := fs[0], fs[1..];
      var tail := TokensAll(others) + rest;
      var ts := Tokens(first) + tail;
      ReadTokens(first, tail);
      ReadAllTokens(others, rest);
      TokensAllCons(fs, rest);
      ReadFormatsStep(ts, |fs|);
      assert [first] + others == fs;
    }
  }

  /** One more format in front of the tokens of others. */
  lemma TokensAllCons(fs: seq<Format>, rest: seq<string>)
    requires |fs| > 0 && forall i | 0 <= i < |fs| :: Resolved(fs[i])
    ensures TokensAll(fs) + rest == Tokens(fs[0]) + (TokensAll(fs[1..]) + rest)
  {
  }

  /** `ReadFormats` of n > 0: a format, then n - 1 more after it. */
  lemma ReadFormatsStep(ts: seq<string>, n: nat)
    requires n > 0
    ensures var r := ReadFormat(ts);
      ReadFormats(ts, n) ==
        if r.Fail? then Fail
        else
          var r2 := ReadFormats(r.rest, n - 1);
          if r2.Fail? then Fail else Read([r.value] + r2.value, r2.rest)
  {
  }

  predicate Unseparated(ts: seq<string>)
  {
    forall i | 0 <= i < |ts| :: '_' !in ts[i]
  }

  lemma UnseparatedAppend(a: seq<string>, b: seq<string>)
    requires Unseparated(a) && Unseparated(b)
    ensures Unseparated(a + b)
  {
    forall i | 0 <= i < |a + b| ensures '_' !in (a + b)[i] {
      if i >= |a| {
        assert (a + b)[i] == b[i - |a|];
      }
    }
  }

  lemma NumberedUnseparated(word: string, n: nat)
    requires '_' !in word
    ensures '_' !in word + Decimal(n)
  {
    var d := Decimal(n);
    forall i | 0 <= i < |word + d| ensures (word + d)[i] != '_' {
      if i >= |word| {
        assert (word + d)[i] == d[i - |word|];
      }
    }
  }

  /** No token of a format with plain names holds '_'. */
  lemma {:induction false} TokensPlain(f: Format)
    requires PlainNames(f) && Resolved(f)
    ensures Unseparated(Tokens(f))
    decreases f, 1
  {
    match f
    case Option(g) =>
      TokensPlain(g);
      UnseparatedAppend(["option"], Tokens(g));
    case Seq(g) =>
      TokensPlain(g);
      UnseparatedAppend(["vector"], Tokens(g));
    case Map(k, v) =>
      TokensPlain(k);
      TokensPlain(v);
      UnseparatedAppend(["map"], Tokens(k));
      UnseparatedAppend(["map"] + Tokens(k), ["to"]);
      UnseparatedAppend(["map"] + Tokens(k) + ["to"], Tokens(v));
    case Tuple(fs) =>
      if |fs| > 0 {
        TokensAllPlain(fs);
        NumberedUnseparated("tuple", |fs|);
        UnseparatedAppend(["tuple" + Decimal(|fs|)], TokensAll(fs));
      }
    case TupleArray(g, size) =>
      TokensPlain(g);
      NumberedUnseparated("array", size);
      UnseparatedAppend(["array" + Decimal(size)], Tokens(g));
      UnseparatedAppend(["array" + Decimal(size)] + Tokens(g), ["array"]);
    case _ =>
  }

  lemma {:induction false} TokensAllPlain(fs: seq<Format>)
    requires forall i | 0 <= i < |fs| :: PlainNames(fs[i]) && Resolved(fs[i])
    ensures Unseparated(TokensAll(fs))
    decreases fs, 0
  {
    if |fs| > 0 {
      TokensPlain(fs[0]);
      TokensAllPlain(fs[1..]);
      UnseparatedAppend(Tokens(fs[0]), TokensAll(fs[1..]));
    }
  }

  /** The format a mangled name stands for, when the name can be read. */
  function Demangle(s: string): Reading<Format>
  {
    match ReadFormat(Split(s))
    case Read(f, rest) => if rest == [] then Read(f, []) else Fail
    case Fail => Fail
  }

  /** Reading a mangled name gives back its format. */
  lemma DemangleMangle(f: Format)
    requires PlainNames(f)
    ensures Resolved(f) && Demangle(Mangle(f)) == Read(f, [])
  {
    PlainNamesResolved(f);
    MangleIsJoin(f);
    TokensPlain(f);
    SplitJoin(Tokens(f));
    ReadTokens(f, []);
    assert Tokens(f) + [] == Tokens(f);
  }

  /** Distinct formats whose type names are plain get distinct names. */
  lemma MangleInjective(f: Format, g: Format)
    requires PlainNames(f) && PlainNames(g)
    ensures Resolved(f) && Resolved(g)
    ensures Mangle(f) == Mangle(g) <==> f == g
  {
    DemangleMangle(f);
    DemangleMangle(g);
  }

  /** Names of a few formats, spelled out. */
  lemma MapExample()
    ensures Mangle(Map(Str, Option(TypeName("Foo")))) == "map_str_to_option_Foo"
  {
    var inner := Option(TypeName("Foo"));
    assert Mangle(inner) == "option_Foo";
    assert Mangle(Str) == "str";
  }

  lemma TupleExample()
    ensures Mangle(Tuple([U8, Bool])) == "tuple2_u8_bool"
  {
    var fs := [U8, Bool];
    assert Decimal(2) == "2";
    assert MangleJoined(fs[1..]) == "bool" by {
      assert fs[1..] == [Bool];
    }
    assert MangleJoined(fs) == "u8_bool";
  }

  lemma ArrayExample()
    ensures Mangle(TupleArray(Seq(U64), 8)) == "array8_vector_u64_array"
  {
    assert Decimal(8) == "8";
    assert Mangle(Seq(U64)) == "vector_u64";
  }

  /** With '_' inside type names two maps share a name. */
  lemma UnderscoreCollision()
    ensures Mangle(Map(TypeName("A_to_B"), TypeName("C")))
         == Mangle(Map(TypeName("A"), TypeName("B_to_C")))
  {
  }
}
