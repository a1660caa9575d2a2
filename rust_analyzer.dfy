/**
  * The dependency analysis of the Rust code generator: which registry
  * entries a container refers to by name, and an order of the entries in
  * which, as far as cycles allow, every entry comes after the entries it
  * refers to.
  */
module Analyzer {
  import opened Formats

  datatype Error = UnknownFormat
  datatype Result<T> = Ok(value: T) | Err(error: Error)

  // ---------------------------------------------------------------------
  // Visiting formats.
  // ---------------------------------------------------------------------

  /** The formats a visit of `f` hands to its closure: `f` and all formats inside it. */
  function Visited(f: Format): set<Format>
    decreases f
  {
    match f
    case Option(g) => {f} + Visited(g)
    case Seq(g) => {f} + Visited(g)
    case Map(k, v) => {f} + Visited(k) + Visited(v)
    case Tuple(fs) => {f} + VisitedAll(fs)
    case TupleArray(g, _) => {f} + Visited(g)
    case _ => {f}
  }

  function VisitedAll(fs: seq<Format>): set<Format>
    decreases fs
  {
    if |fs| == 0 then {} else Visited(fs[0]) + VisitedAll(fs[1..])
  }

  function VisitedFields(fields: seq<Named<Format>>): set<Format>
    decreases fields
  {
    if |fields| == 0 then {} else Visited(fields[0].value) + VisitedFields(fields[1..])
  }

  predicate FieldsResolved(fields: seq<Named<Format>>)
  {
    forall i | 0 <= i < |fields| :: Resolved(fields[i].value)
  }

  predicate VariantResolved(v: VariantFormat)
  {
    match v
    case VariantVariable => false
    case UnitVariant => true
    case NewTypeVariant(f) => Resolved(f)
    case TupleVariant(fs) => forall i | 0 <= i < |fs| :: Resolved(fs[i])
    case StructVariant(fields) => FieldsResolved(fields)
  }

  function VariantVisited(v: VariantFormat): set<Format>
  {
    match v
    case VariantVariable => {}
    case UnitVariant => {}
    case NewTypeVariant(f) => Visited(f)
    case TupleVariant(fs) => VisitedAll(fs)
    case StructVariant(fields) => VisitedFields(fields)
  }

  /** A visit fails exactly when it meets an unresolved placeholder. */
  predicate ContainerResolved(c: ContainerFormat)
  {
    match c
    case UnitStruct => true
    case NewTypeStruct(f) => Resolved(f)
    case TupleStruct(fs) => forall i | 0 <= i < |fs| :: Resolved(fs[i])
    case Struct(fields) => FieldsResolved(fields)
    case Enum(vs) => forall k | k in vs :: VariantResolved(vs[k].value)
  }

  function ContainerVisited(c: ContainerFormat): set<Format>
  {
    match c
    case UnitStruct => {}
    case NewTypeStruct(f) => Visited(f)
    case TupleStruct(fs) => VisitedAll(fs)
    case Struct(fields) => VisitedFields(fields)
    case Enum(vs) => set k, g | k in vs && g in VariantVisited(vs[k].value) :: g
  }

  /** `get_dependencies`: the names of the `TypeName` formats a visit meets. */
  function Dependencies(c: ContainerFormat): Result<set<string>>
  {
    if !ContainerResolved(c) then Err(UnknownFormat)
    else Ok(set g | g in ContainerVisited(c) && g.TypeName? :: g.name)
  }

  // ---------------------------------------------------------------------
  // Names a format refers to, defined on their own.
  // ---------------------------------------------------------------------

  /** `f` contains the expression `TypeName(x)`. */
  predicate Mentions(f: Format, x: string)
    decreases f
  {
    match f
    case TypeName(y) => y == x
    case Option(g) => Mentions(g, x)
    case Seq(g) => Mentions(g, x)
    case Map(k, v) => Mentions(k, x) || Mentions(v, x)
    case Tuple(fs) => exists i | 0 <= i < |fs| :: Mentions(fs[i], x)
    case TupleArray(g, _) => Mentions(g, x)
    case _ => false
  }

  predicate FieldsMention(fields: seq<Named<Format>>, x: string)
  {
    exists i | 0 <= i < |fields| :: Mentions(fields[i].value, x)
  }

  predicate VariantMentions(v: VariantFormat, x: string)
  {
    match v
    case NewTypeVariant(f) => Mentions(f, x)
    case TupleVariant(fs) => exists i | 0 <= i < |fs| :: Mentions(fs[i], x)
    case StructVariant(fields) => FieldsMention(fields, x)
    case _ => false
  }

  predicate ContainerMentions(c: ContainerFormat, x: string)
  {
    match c
    case UnitStruct => false
    case NewTypeStruct(f) => Mentions(f, x)
    case TupleStruct(fs) => exists i | 0 <= i < |fs| :: Mentions(fs[i], x)
    case Struct(fields) => FieldsMention(fields, x)
    case Enum(vs) => exists k | k in vs :: VariantMentions(vs[k].value, x)
  }

  lemma {:induction false} VisitedMentions(f: Format, x: string)
    ensures TypeName(x) in Visited(f) <==> Mentions(f, x)
    decreases f, 1
  {
    match f
    case Option(g) => VisitedMentions(g, x);
    case Seq(g) => VisitedMentions(g, x);
    case Map(k, v) => VisitedMentions(k, x); VisitedMentions(v, x);
    case Tuple(fs) => VisitedAllMentions(fs, x);
    case TupleArray(g, _) => VisitedMentions(g, x);
    case _ =>
  }

  lemma {:induction false} VisitedAllMentions(fs: seq<Format>, x: string)
    ensures TypeName(x) in VisitedAll(fs) <==> exists i | 0 <= i < |fs| :: Mentions(fs[i], x)
    decreases fs, 0
  {
    if |fs| > 0 {
      VisitedMentions(fs[0], x);
      VisitedAllMentions(fs[1..], x);
      if exists i | 0 <= i < |fs| :: Mentions(fs[i], x) {
        var i :| 0 <= i < |fs| && Mentions(fs[i], x);
        if i > 0 {
          assert Mentions(fs[1..][i - 1], x);
        }
      }
      if exists i | 0 <= i < |fs| - 1 :: Mentions(fs[1..][i], x) {
        var i :| 0 <= i < |fs| - 1 && Mentions(fs[1..][i], x);
        assert Mentions(fs[i + 1], x);
      }
    }
  }

  lemma {:induction false} VisitedFieldsMention(fields: seq<Named<Format>>, x: string)
    ensures TypeName(x) in VisitedFields(fields) <==> FieldsMention(fields, x)
    decreases |fields|
  {
    if |fields| > 0 {
      VisitedMentions(fields[0].value, x);
      VisitedFieldsMention(fields[1..], x);
      if FieldsMention(fields, x) {
        var i :| 0 <= i < |fields| && Mentions(fields[i].value, x);
        if i > 0 {
          assert Mentions(fields[1..][i - 1].value, x);
        }
      }
      if FieldsMention(fields[1..], x) {
        var i :| 0 <= i < |fields| - 1 && Mentions(fields[1..][i].value, x);
        assert Mentions(fields[i + 1].value, x);
      }
    }
  }

  lemma VariantVisitedMentions(v: VariantFormat, x: string)
    ensures TypeName(x) in VariantVisited(v) <==> VariantMentions(v, x)
  {
    match v
    case NewTypeVariant(f) => VisitedMentions(f, x);
    case TupleVariant(fs) => VisitedAllMentions(fs, x);
    case StructVariant(fields) => VisitedFieldsMention(fields, x);
    case _ =>
  }

  /**
    * `get_dependencies` fails exactly on an unresolved placeholder, and
    * otherwise yields the names the container refers to.
    */
  lemma DependenciesAreMentions(c: ContainerFormat)
    ensures Dependencies(c).Err? <==> !ContainerResolved(c)
    ensures Dependencies(c).Ok? ==> forall x :: x in Dependencies(c).value <==> ContainerMentions(c, x)
  {
    if ContainerResolved(c) {
      forall x ensures x in Dependencies(c).value <==> ContainerMentions(c, x) {
        assert x in Dependencies(c).value <==> TypeName(x) in ContainerVisited(c);
        match c
        case UnitStruct =>
        case NewTypeStruct(f) => VisitedMentions(f, x);
        case TupleStruct(fs) => VisitedAllMentions(fs, x);
        case Struct(fields) => VisitedFieldsMention(fields, x);
        case Enum(vs) =>
          forall k | k in vs ensures TypeName(x) in VariantVisited(vs[k].value) <==> VariantMentions(vs[k].value, x) {
            VariantVisitedMentions(vs[k].value, x);
          }
      }
    }
  }

  /** `get_dependency_map`: each registry entry with the names it refers to. */
  method GetDependencyMap(registry: Registry) returns (r: Result<map<string, set<string>>>)
    ensures r.Ok? <==> forall name | name in registry :: ContainerResolved(registry[name])
    ensures r.Ok? ==> r.value.Keys == registry.Keys
    ensures r.Ok? ==> forall name, x | name in registry :: x in r.value[name] <==> ContainerMentions(registry[name], x)
  {
    var children: map<string, set<string>> := map[];
    var remaining := registry.Keys;
    while remaining != {}
      invariant remaining <= registry.Keys
      invariant children.Keys == registry.Keys - remaining
      invariant forall name | name in children :: ContainerResolved(registry[name])
      invariant forall name, x | name in children :: x in children[name] <==> ContainerMentions(registry[name], x)
      decreases remaining
    {
      var name :| name in remaining;
      DependenciesAreMentions(registry[name]);
      match Dependencies(registry[name]) {
        case Err(e) =>
          return Err(e);
        case Ok(names) =>
          children := children[name := names];
      }
      remaining := remaining - {name};
    }
    r := Ok(children);
  }

  // ---------------------------------------------------------------------
  // Best-effort topological sort.
  // ---------------------------------------------------------------------

  predicate Distinct<T(==,!new)>(s: seq<T>)
  {
    forall i, j | 0 <= i < j < |s| :: s[i] != s[j]
  }

  /**
    * A `BTreeMap` from nodes to `BTreeSet`s of children, given by its
    * iteration orders: `keys` lists the nodes as the map yields them, and
    * each `children[n]` the children as the set yields them.
    */
  predicate Graph<T(==,!new)>(keys: seq<T>, children: map<T, seq<T>>)
  {
    && Distinct(keys)
    && (forall n | n in children :: n in keys) && (forall i | 0 <= i < |keys| :: keys[i] in children)
    && (forall n | n in children :: Distinct(children[n]))
  }

  /** Every child is a node itself: the lookup `children[&node]` does not panic. */
  predicate Closed<T(==,!new)>(children: map<T, seq<T>>)
  {
    forall n, c | n in children && c in children[n] :: c in children
  }

  /** A numbering that falls along every edge, which exists exactly when there is no cycle. */
  predicate Ranked<T(==,!new)>(children: map<T, seq<T>>, rank: map<T, int>)
  {
    && (forall n | n in children :: n in rank)
    && (forall n, c | n in children && c in children[n] :: c in rank && n in rank && rank[c] < rank[n])
  }

  ghost predicate Acyclic<T(!new)>(children: map<T, seq<T>>)
  {
    exists rank: map<T, int> :: Ranked(children, rank)
  }

  /** A walk along edges. */
  predicate Path<T(==,!new)>(children: map<T, seq<T>>, p: seq<T>)
  {
    forall i | 0 <= i < |p| - 1 :: p[i] in children && p[i + 1] in children[p[i]]
  }

  /** With a numbering falling along the edges, no walk returns to its start. */
  lemma {:induction false} RankedNoCycle<T(!new)>(children: map<T, seq<T>>, rank: map<T, int>, p: seq<T>)
    requires Ranked(children, rank) && Path(children, p) && |p| >= 2
    ensures p[0] in rank && p[|p| - 1] in rank && rank[p[|p| - 1]] < rank[p[0]]
    ensures p[0] != p[|p| - 1]
    decreases |p|
  {
    if |p| > 2 {
      RankedNoCycle(children, rank, p[1..]);
    }
  }

  /** Every node comes after each of its children. */
  predicate ChildrenFirst<T(==,!new)>(order: seq<T>, children: map<T, seq<T>>)
  {
    forall i, c | 0 <= i < |order| && order[i] in children && c in children[order[i]] :: c in order[..i]
  }

  function Count<T(==,!new)>(children: map<T, seq<T>>, n: T): nat
  {
    if n in children then |children[n]| else 0
  }

  predicate SortedByCount<T(==,!new)>(s: seq<T>, children: map<T, seq<T>>)
  {
    forall i, j | 0 <= i < j < |s| :: Count(children, s[i]) <= Count(children, s[j])
  }

  function Reverse<T(==,!new)>(s: seq<T>): (r: seq<T>)
    ensures |r| == |s| && forall i | 0 <= i < |s| :: r[i] == s[|s| - 1 - i]
  {
    if |s| == 0 then [] else [s[|s| - 1]] + Reverse(s[..|s| - 1])
  }

  /** `x` placed after the elements of sorted `s` with no more children than it has. */
  function InsertByCount<T(==,!new)>(s: seq<T>, x: T, children: map<T, seq<T>>): (r: seq<T>)
    requires SortedByCount(s, children)
    ensures multiset(r) == multiset(s) + multiset{x}
    ensures SortedByCount(r, children)
  {
    if |s| == 0 || Count(children, s[|s| - 1]) <= Count(children, x) then s + [x]
    else
      var init, last := s[..|s| - 1], s[|s| - 1];
      var r := InsertByCount(init, x, children);
      assert s == init + [last];
      CountsBelow(r, init, x, last, children);
      r + [last]
  }

  /** Whatever a rearrangement of `init` and `x` holds has no more children than `last`. */
  lemma CountsBelow<T(!new)>(r: seq<T>, init: seq<T>, x: T, last: T, children: map<T, seq<T>>)
    requires multiset(r) == multiset(init) + multiset{x}
    requires SortedByCount(init + [last], children) && Count(children, x) < Count(children, last)
    ensures forall i | 0 <= i < |r| :: Count(children, r[i]) <= Count(children, last)
  {
    forall i | 0 <= i < |r| ensures Count(children, r[i]) <= Count(children, last) {
      assert r[i] in multiset(r);
      if r[i] != x {
        assert r[i] in multiset(init);
        var k :| 0 <= k < |init| && init[k] == r[i];
        assert (init + [last])[k] == r[i] && (init + [last])[|init|] == last;
      }
    }
  }

  /** The stable sort by number of children that `sort_by` performs. */
  function SortByCount<T(==,!new)>(s: seq<T>, children: map<T, seq<T>>): (r: seq<T>)
    ensures multiset(r) == multiset(s)
    ensures SortedByCount(r, children)
  {
    if |s| == 0 then []
    else
      assert s == s[..|s| - 1] + [s[|s| - 1]];
      InsertByCount(SortByCount(s[..|s| - 1], children), s[|s| - 1], children)
  }

  /** The first queue: nodes by increasing number of children, larger keys first among equals. */
  function InitialQueue<T(==,!new)>(keys: seq<T>, children: map<T, seq<T>>): (q: seq<T>)
    ensures multiset(q) == multiset(keys)
  {
    assert multiset(Reverse(keys)) == multiset(keys) by {
      ReverseMultiset(keys);
    }
    SortByCount(Reverse(keys), children)
  }

  lemma {:induction false} ReverseMultiset<T(!new)>(s: seq<T>)
    ensures multiset(Reverse(s)) == multiset(s)
    decreases |s|
  {
    if |s| > 0 {
      ReverseMultiset(s[..|s| - 1]);
      assert s == s[..|s| - 1] + [s[|s| - 1]];
    }
  }

  /** The children pushed on a first visit: the unseen ones, last child first. */
  function Unseen<T(==,!new)>(cs: seq<T>, seen: set<T>): (r: seq<T>)
    ensures forall x :: x in r <==> x in cs && x !in seen
  {
    if |cs| == 0 then []
    else Unseen(cs[1..], seen) + (if cs[0] in seen then [] else [cs[0]])
  }

  /**
    * What the loop keeps about its own variables: every node is sorted or
    * still queued, and `result` lists the sorted nodes once each.
    */
  ghost predicate Basic<T(!new)>(children: map<T, seq<T>>, queue: seq<T>, sorted: set<T>, seen: set<T>, result: seq<T>)
  {
    && Closed(children)
    && (forall i | 0 <= i < |queue| :: queue[i] in children)
    && sorted <= seen && (forall x | x in seen :: x in children)
    && Distinct(result) && (forall x :: x in result <==> x in sorted)
    && (forall n | n in children :: n in sorted || n in queue)
  }

  /**
    * The proof's bookkeeping: `marks` tells which queue entries are second
    * visits, and `markerAt` where the second visit of each node seen but
    * not yet sorted waits, above any other copy of that node.
    */
  ghost predicate Marked<T(!new)>(queue: seq<T>, marks: seq<bool>, sorted: set<T>, seen: set<T>, markerAt: map<T, nat>)
  {
    && |marks| == |queue|
    && (forall i | 0 <= i < |queue| && marks[i] ::
          queue[i] in seen && queue[i] !in sorted && queue[i] in markerAt && markerAt[queue[i]] == i)
    && (forall x | x in seen && x !in sorted ::
          x in markerAt && markerAt[x] < |queue| && marks[markerAt[x]] && queue[markerAt[x]] == x)
    && (forall i | 0 <= i < |queue| && !marks[i] && queue[i] in seen && queue[i] !in sorted ::
          queue[i] in markerAt && markerAt[queue[i]] > i)
  }

  /**
    * On acyclic input, with `rank` a numbering along the edges: entries
    * above a second visit rank lower, the children of a second visit are
    * sorted or above it, and `result` already puts children first.
    */
  ghost predicate Ordered<T(!new)>(children: map<T, seq<T>>, queue: seq<T>, marks: seq<bool>, sorted: set<T>,
                                   result: seq<T>, rank: map<T, int>)
    requires |marks| == |queue| && forall i | 0 <= i < |queue| :: queue[i] in children
  {
    && Ranked(children, rank)
    && (forall i, j | 0 <= i < j < |queue| && marks[i] :: rank[queue[j]] < rank[queue[i]])
    && (forall i, c | 0 <= i < |queue| && marks[i] && c in children[queue[i]] :: c in sorted || c in queue[i + 1..])
    && ChildrenFirst(result, children)
  }

  ghost predicate Inv<T(!new)>(children: map<T, seq<T>>, queue: seq<T>, marks: seq<bool>, sorted: set<T>,
                               seen: set<T>, result: seq<T>, markerAt: map<T, nat>, rank: map<T, int>, acyclic: bool)
  {
    && Basic(children, queue, sorted, seen, result)
    && Marked(queue, marks, sorted, seen, markerAt)
    && (acyclic ==> Ordered(children, queue, marks, sorted, result, rank))
  }

  /** Popping a node already sorted. */
  lemma SkipStep<T(!new)>(children: map<T, seq<T>>, queue: seq<T>, marks: seq<bool>, sorted: set<T>,
                          seen: set<T>, result: seq<T>, markerAt: map<T, nat>, rank: map<T, int>, acyclic: bool)
    requires Inv(children, queue, marks, sorted, seen, result, markerAt, rank, acyclic)
    requires |queue| > 0 && queue[|queue| - 1] in sorted
    ensures Inv(children, queue[..|queue| - 1], marks[..|queue| - 1], sorted, seen, result, markerAt, rank, acyclic)
  {
    var t := |queue| - 1;
    var q, m := queue[..t], marks[..t];
    assert !marks[t];
    assert Basic(children, q, sorted, seen, result) by {
      forall n | n in children && n !in sorted ensures n in q {
        var i :| 0 <= i < |queue| && queue[i] == n;
        assert q[i] == n;
      }
    }
    assert Marked(q, m, sorted, seen, markerAt) by {
      forall x | x in seen && x !in sorted ensures markerAt[x] < |q| {
        assert markerAt[x] != t;
      }
    }
    if acyclic {
      SkipOrdered(children, queue, marks, sorted, result, rank);
    }
  }

  lemma SkipOrdered<T(!new)>(children: map<T, seq<T>>, queue: seq<T>, marks: seq<bool>, sorted: set<T>,
                             result: seq<T>, rank: map<T, int>)
    requires |marks| == |queue| > 0 && forall i | 0 <= i < |queue| :: queue[i] in children
    requires Ordered(children, queue, marks, sorted, result, rank)
    requires queue[|queue| - 1] in sorted
    ensures Ordered(children, queue[..|queue| - 1], marks[..|queue| - 1], sorted, result, rank)
  {
    var t := |queue| - 1;
    var q, m := queue[..t], marks[..t];
    forall i, c | 0 <= i < |q| && m[i] && c in children[q[i]] ensures c in sorted || c in q[i + 1..] {
      DropLast(queue, i + 1);
    }
  }

  lemma DropLast<T>(s: seq<T>, i: nat)
    requires i < |s|
    ensures s[i..] == s[..|s| - 1][i..] + [s[|s| - 1]]
  {
  }

  /** Popping the second visit of a node: it goes to the result. */
  lemma EmitStep<T(!new)>(children: map<T, seq<T>>, queue: seq<T>, marks: seq<bool>, sorted: set<T>,
                          seen: set<T>, result: seq<T>, markerAt: map<T, nat>, rank: map<T, int>, acyclic: bool)
    requires Inv(children, queue, marks, sorted, seen, result, markerAt, rank, acyclic)
    requires |queue| > 0 && queue[|queue| - 1] !in sorted && queue[|queue| - 1] in seen
    ensures var x := queue[|queue| - 1];
            Inv(children, queue[..|queue| - 1], marks[..|queue| - 1], sorted + {x}, seen, result + [x], markerAt, rank, acyclic)
  {
    var t := |queue| - 1;
    var x := queue[t];
    var q, m := queue[..t], marks[..t];
    var s, r := sorted + {x}, result + [x];
    assert markerAt[x] < t + 1;
    assert marks[t];
    assert markerAt[x] == t;
    assert Basic(children, q, s, seen, r) by {
      assert x !in result;
      forall n | n in children && n !in s ensures n in q {
        var i :| 0 <= i < |queue| && queue[i] == n;
        assert q[i] == n;
      }
    }
    assert Marked(q, m, s, seen, markerAt) by {
      forall y | y in seen && y !in s ensures markerAt[y] < |q| {
        assert markerAt[y] != t;
      }
    }
    if acyclic {
      EmitOrdered(children, queue, marks, sorted, result, rank);
    }
  }

  lemma EmitOrdered<T(!new)>(children: map<T, seq<T>>, queue: seq<T>, marks: seq<bool>, sorted: set<T>,
                             result: seq<T>, rank: map<T, int>)
    requires |marks| == |queue| > 0 && forall i | 0 <= i < |queue| :: queue[i] in children
    requires Ordered(children, queue, marks, sorted, result, rank)
    requires marks[|queue| - 1] && (forall x :: x in result <==> x in sorted)
    ensures var t := |queue| - 1;
            Ordered(children, queue[..t], marks[..t], sorted + {queue[t]}, result + [queue[t]], rank)
  {
    var t := |queue| - 1;
    var x := queue[t];
    var q, m := queue[..t], marks[..t];
    var s, r := sorted + {x}, result + [x];
    assert queue[t + 1..] == [];
    assert forall c | c in children[x] :: c in result;
    forall i, c | 0 <= i < |r| && r[i] in children && c in children[r[i]] ensures c in r[..i] {
      if i < |result| {
        assert r[..i] == result[..i];
      } else {
        assert r[..i] == result;
      }
    }
    forall i, c | 0 <= i < |q| && m[i] && c in children[q[i]] ensures c in s || c in q[i + 1..] {
      assert queue[i + 1..] == q[i + 1..] + [x];
    }
  }

  /** The queue after the first visit of its top node: the node stays, its unseen children go above it. */
  function VisitQueue<T(==,!new)>(children: map<T, seq<T>>, queue: seq<T>, seen: set<T>): seq<T>
    requires |queue| > 0 && queue[|queue| - 1] in children
  {
    var x := queue[|queue| - 1];
    queue + Unseen(children[x], seen + {x})
  }

  /** The marks after the first visit of the top node: that entry becomes a second visit. */
  function VisitMarks<T(==,!new)>(children: map<T, seq<T>>, queue: seq<T>, marks: seq<bool>, seen: set<T>): seq<bool>
    requires |queue| > 0 && |marks| == |queue| && queue[|queue| - 1] in children
  {
    var x := queue[|queue| - 1];
    marks[..|queue| - 1] + [true] + seq(|Unseen(children[x], seen + {x})|, _ => false)
  }

  /** The new marks entry by entry. */
  ghost predicate VisitLayout<T(!new)>(children: map<T, seq<T>>, queue: seq<T>, marks: seq<bool>, seen: set<T>)
    requires |queue| > 0 && |marks| == |queue| && queue[|queue| - 1] in children
  {
    var t := |queue| - 1;
    var m := VisitMarks(children, queue, marks, seen);
    && |m| == |VisitQueue(children, queue, seen)|
    && (forall i | 0 <= i < t :: m[i] == marks[i])
    && m[t]
    && (forall i | t < i < |m| :: !m[i])
  }

  lemma VisitShape<T(!new)>(children: map<T, seq<T>>, queue: seq<T>, marks: seq<bool>, seen: set<T>)
    requires |queue| > 0 && |marks| == |queue| && queue[|queue| - 1] in children
    ensures VisitLayout(children, queue, marks, seen)
  {
    var t := |queue| - 1;
    var x := queue[t];
    var falses := seq(|Unseen(children[x], seen + {x})|, _ => false);
    var m := VisitMarks(children, queue, marks, seen);
    assert m == marks[..t] + [true] + falses;
    forall i | t < i < |m| ensures !m[i] {
      assert m[i] == falses[i - t - 1];
    }
  }

  /** Popping a node for the first time: it goes back on the queue, its unseen children above it. */
  lemma VisitStep<T(!new)>(children: map<T, seq<T>>, queue: seq<T>, marks: seq<bool>, sorted: set<T>,
                           seen: set<T>, result: seq<T>, markerAt: map<T, nat>, rank: map<T, int>, acyclic: bool)
    requires Inv(children, queue, marks, sorted, seen, result, markerAt, rank, acyclic)
    requires |queue| > 0 && queue[|queue| - 1] !in seen
    ensures var t := |queue| - 1;
            var x := queue[t];
            Inv(children, VisitQueue(children, queue, seen), VisitMarks(children, queue, marks, seen),
                sorted, seen + {x}, result, markerAt[x := t], rank, acyclic)
  {
    var t := |queue| - 1;
    var x := queue[t];
    VisitShape(children, queue, marks, seen);
    VisitBasic(children, queue, sorted, seen, result);
    VisitMarked(children, queue, marks, sorted, seen, markerAt);
    if acyclic {
      forall c | c in children[x] ensures c in sorted || c !in seen + {x} {
        ChildOfFirstVisit(children, queue, marks, sorted, seen, result, markerAt, rank, c);
      }
      VisitOrdered(children, queue, marks, sorted, seen, result, rank);
    }
  }

  lemma VisitBasic<T(!new)>(children: map<T, seq<T>>, queue: seq<T>, sorted: set<T>, seen: set<T>, result: seq<T>)
    requires Basic(children, queue, sorted, seen, result)
    requires |queue| > 0 && queue[|queue| - 1] !in seen
    ensures Basic(children, VisitQueue(children, queue, seen), sorted, seen + {queue[|queue| - 1]}, result)
  {
    var t := |queue| - 1;
    var x := queue[t];
    var q := VisitQueue(children, queue, seen);
    var pushed := Unseen(children[x], seen + {x});
    forall i | 0 <= i < |q| ensures q[i] in children {
      if i > t {
        assert q[i] == pushed[i - t - 1];
      }
    }
    forall n | n in children && n !in sorted ensures n in q {
      var i :| 0 <= i < |queue| && queue[i] == n;
      assert q[i] == n;
    }
  }

  lemma VisitMarked<T(!new)>(children: map<T, seq<T>>, queue: seq<T>, marks: seq<bool>, sorted: set<T>,
                             seen: set<T>, markerAt: map<T, nat>)
    requires Marked(queue, marks, sorted, seen, markerAt) && sorted <= seen
    requires |queue| > 0 && queue[|queue| - 1] in children && queue[|queue| - 1] !in seen
    requires VisitLayout(children, queue, marks, seen)
    ensures var t := |queue| - 1;
            Marked(VisitQueue(children, queue, seen), VisitMarks(children, queue, marks, seen),
                   sorted, seen + {queue[t]}, markerAt[queue[t] := t])
  {
    var t := |queue| - 1;
    var x := queue[t];
    var q, m := VisitQueue(children, queue, seen), VisitMarks(children, queue, marks, seen);
    var pushed := Unseen(children[x], seen + {x});
    var v, at := seen + {x}, markerAt[x := t];
    assert !marks[t];
    assert forall i | t < i < |q| :: q[i] !in v by {
      forall i | t < i < |q| ensures q[i] !in v {
        assert q[i] == pushed[i - t - 1];
      }
    }
    forall i | 0 <= i < |q| && m[i] ensures q[i] in v && q[i] !in sorted && q[i] in at && at[q[i]] == i {
      if i < t {
        assert q[i] != x;
      }
    }
    forall y | y in v && y !in sorted ensures y in at && at[y] < |q| && m[at[y]] && q[at[y]] == y {
      if y != x {
        assert markerAt[y] != t;
      }
    }
  }

  /** On acyclic input, a node visited for the first time has no child waiting for its second visit. */
  lemma ChildOfFirstVisit<T(!new)>(children: map<T, seq<T>>, queue: seq<T>, marks: seq<bool>, sorted: set<T>,
                                   seen: set<T>, result: seq<T>, markerAt: map<T, nat>, rank: map<T, int>, c: T)
    requires Inv(children, queue, marks, sorted, seen, result, markerAt, rank, true)
    requires |queue| > 0 && queue[|queue| - 1] !in seen
    requires c in children[queue[|queue| - 1]]
    ensures c in sorted || c !in seen + {queue[|queue| - 1]}
  {
    var t := |queue| - 1;
    var x := queue[t];
    assert !marks[t];
    assert c in rank && x in rank && rank[c] < rank[x];
    assert forall y | y in seen && y !in sorted :: markerAt[y] < t && marks[markerAt[y]] && queue[markerAt[y]] == y;
    assert forall i | 0 <= i < t && marks[i] :: rank[x] < rank[queue[i]];
    if !(c in sorted || c !in seen + {x}) {
      assert false;
    }
  }

  lemma VisitOrdered<T(!new)>(children: map<T, seq<T>>, queue: seq<T>, marks: seq<bool>, sorted: set<T>,
                              seen: set<T>, result: seq<T>, rank: map<T, int>)
    requires |marks| == |queue| > 0 && forall i | 0 <= i < |queue| :: queue[i] in children
    requires Ordered(children, queue, marks, sorted, result, rank)
    requires Basic(children, VisitQueue(children, queue, seen), sorted, seen + {queue[|queue| - 1]}, result)
    requires VisitLayout(children, queue, marks, seen)
    requires var x := queue[|queue| - 1]; forall c | c in children[x] :: c in sorted || c !in seen + {x}
    ensures Ordered(children, VisitQueue(children, queue, seen), VisitMarks(children, queue, marks, seen), sorted, result, rank)
  {
    var t := |queue| - 1;
    var x := queue[t];
    var m := VisitMarks(children, queue, marks, seen);
    var pushed := Unseen(children[x], seen + {x});
    RanksAfterVisit(children, queue, marks, rank, pushed, m);
    ChildrenAfterVisit(children, queue, marks, sorted, pushed, m);
  }

  /** Entries pushed above a second visit are its children, so they rank lower. */
  lemma RanksAfterVisit<T(!new)>(children: map<T, seq<T>>, queue: seq<T>, marks: seq<bool>, rank: map<T, int>,
                                 pushed: seq<T>, m: seq<bool>)
    requires |marks| == |queue| > 0 && forall i | 0 <= i < |queue| :: queue[i] in children
    requires Ranked(children, rank)
    requires forall i, j | 0 <= i < j < |queue| && marks[i] :: rank[queue[j]] < rank[queue[i]]
    requires forall k | 0 <= k < |pushed| :: pushed[k] in children[queue[|queue| - 1]]
    requires |m| == |queue| + |pushed| && forall i | 0 <= i < |queue| - 1 :: m[i] == marks[i]
    requires forall i | |queue| <= i < |m| :: !m[i]
    ensures var q := queue + pushed;
            forall i, j | 0 <= i < j < |q| && m[i] :: rank[q[j]] < rank[q[i]]
  {
    var t := |queue| - 1;
    var q := queue + pushed;
    forall i, j | 0 <= i < j < |q| && m[i] ensures rank[q[j]] < rank[q[i]] {
      if j > t {
        assert q[j] == pushed[j - t - 1];
        if i < t {
          assert rank[queue[t]] < rank[queue[i]];
        }
      }
    }
  }

  /** The children of every second visit stay sorted or above it. */
  lemma ChildrenAfterVisit<T(!new)>(children: map<T, seq<T>>, queue: seq<T>, marks: seq<bool>, sorted: set<T>,
                                    pushed: seq<T>, m: seq<bool>)
    requires |marks| == |queue| > 0 && forall i | 0 <= i < |queue| :: queue[i] in children
    requires forall i, c | 0 <= i < |queue| && marks[i] && c in children[queue[i]] :: c in sorted || c in queue[i + 1..]
    requires forall c | c in children[queue[|queue| - 1]] :: c in sorted || c in pushed
    requires |m| == |queue| + |pushed| && forall i | 0 <= i < |queue| - 1 :: m[i] == marks[i]
    requires forall i | |queue| <= i < |m| :: !m[i]
    ensures var q := queue + pushed;
            forall i, c | 0 <= i < |q| && m[i] && c in children[q[i]] :: c in sorted || c in q[i + 1..]
  {
    var t := |queue| - 1;
    var q := queue + pushed;
    forall i, c | 0 <= i < |q| && m[i] && c in children[q[i]] ensures c in sorted || c in q[i + 1..] {
      if i < t {
        assert q[i + 1..] == queue[i + 1..] + pushed;
      } else {
        assert q[i + 1..] == pushed;
      }
    }
  }

  /** The inner loop of a first visit: push the unseen children, last child first. */
  method PushUnseen<T(==,!new)>(queue: seq<T>, cs: seq<T>, seen: set<T>) returns (q: seq<T>)
    ensures q == queue + Unseen(cs, seen)
  {
    q := queue;
    var j := |cs|;
    while j > 0
      invariant 0 <= j <= |cs|
      invariant q == queue + Unseen(cs[j..], seen)
    {
      j := j - 1;
      assert cs[j..][1..] == cs[j + 1..];
      if cs[j] !in seen {
        q := q + [cs[j]];
      }
    }
    assert cs[0..] == cs;
  }

  /**
    * `best_effort_topological_sort`: every node exactly once; on acyclic
    * input, each node after all of its children.
    */
  method BestEffortTopologicalSort<T(==,!new)>(keys: seq<T>, children: map<T, seq<T>>) returns (result: seq<T>)
    requires Graph(keys, children) && Closed(children)
    ensures Distinct(result) && forall n :: n in result <==> n in children
    ensures Acyclic(children) ==> ChildrenFirst(result, children)
  {
    var queue := InitialQueue(keys, children);
    ghost var acyclic := Acyclic(children);
    ghost var rank: map<T, int> := map[];
    if acyclic {
      rank :| Ranked(children, rank);
    }
    InitialInv(keys, children, queue, seq(|queue|, _ => false), rank, acyclic);
    result := Drain(children, queue, rank, acyclic);
  }

  /**
    * The loop of `best_effort_topological_sort`: pop a node; skip it if
    * sorted, emit it on its second visit, and on its first visit push it
    * back with its unseen children above it.
    */
  method Drain<T(==,!new)>(children: map<T, seq<T>>, initial: seq<T>, ghost rank: map<T, int>, ghost acyclic: bool)
    returns (result: seq<T>)
    requires Inv(children, initial, seq(|initial|, _ => false), {}, {}, [], map[], rank, acyclic)
    ensures Distinct(result) && forall n :: n in result <==> n in children
    ensures acyclic ==> ChildrenFirst(result, children)
  {
    var queue := initial;
    result := [];
    var sorted: set<T> := {};
    var seen: set<T> := {};
    ghost var marks: seq<bool> := seq(|queue|, _ => false);
    ghost var markerAt: map<T, nat> := map[];

    while |queue| > 0
      invariant Inv(children, queue, marks, sorted, seen, result, markerAt, rank, acyclic)
      decreases children.Keys - seen, children.Keys - sorted, |queue|
    {
      var t := |queue| - 1;
      var node := queue[t];
      if node in sorted {
        SkipStep(children, queue, marks, sorted, seen, result, markerAt, rank, acyclic);
        queue, marks := queue[..t], marks[..t];
      } else if node in seen {
        EmitStep(children, queue, marks, sorted, seen, result, markerAt, rank, acyclic);
        queue, marks := queue[..t], marks[..t];
        sorted := sorted + {node};
        result := result + [node];
      } else {
        VisitStep(children, queue, marks, sorted, seen, result, markerAt, rank, acyclic);
        ghost var next := VisitQueue(children, queue, seen);
        marks := VisitMarks(children, queue, marks, seen);
        markerAt := markerAt[node := t];
        ghost var before := queue;
        queue := queue[..t];
        seen := seen + {node};
        queue := queue + [node];
        assert queue == before;
        queue := PushUnseen(queue, children[node], seen);
        assert queue == next;
      }
    }
  }

  lemma InitialInv<T(!new)>(keys: seq<T>, children: map<T, seq<T>>, queue: seq<T>, marks: seq<bool>,
                            rank: map<T, int>, acyclic: bool)
    requires Graph(keys, children) && Closed(children)
    requires multiset(queue) == multiset(keys)
    requires marks == seq(|queue|, _ => false)
    requires acyclic ==> Ranked(children, rank)
    ensures Inv(children, queue, marks, {}, {}, [], map[], rank, acyclic)
  {
    forall n | n in children ensures n in queue {
      assert n in multiset(keys);
    }
    forall i | 0 <= i < |queue| ensures queue[i] in children {
      assert queue[i] in multiset(keys);
    }
  }

  // ---------------------------------------------------------------------
  // Examples from the tests.
  // ---------------------------------------------------------------------

  /** Two nodes, 1 -> {2}: the sort must put the child first. */
  method PairExample() returns (order: seq<int>)
    ensures order == [2, 1]
  {
    var children := map[1 := [2], 2 := []];
    assert Ranked(children, map[1 := 1, 2 := 0]);
    order := BestEffortTopologicalSort([1, 2], children);
    PairOrder(order);
  }

  lemma PairOrder(order: seq<int>)
    requires Distinct(order) && forall n :: n in order <==> n in {1, 2}
    requires ChildrenFirst(order, map[1 := [2], 2 := []])
    ensures order == [2, 1]
  {
    var children := map[1 := [2], 2 := []];
    assert 1 in order;
    var i1 :| 0 <= i1 < |order| && order[i1] == 1;
    assert 2 in children[order[i1]];
    assert 2 in order[..i1];
    var i2 :| 0 <= i2 < i1 && order[..i1][i2] == 2;
    assert order[i2] == 2;
    OneOfTwo(order, 0, i1, i2);
    OneOfTwo(order, 1, i1, i2);
    OneOfTwo(order, |order| - 1, i1, i2);
  }

  /** In a list of the two distinct nodes, every position holds one of them. */
  lemma OneOfTwo(order: seq<int>, k: int, i1: int, i2: int)
    requires Distinct(order) && forall n :: n in order <==> n in {1, 2}
    requires 0 <= k < |order| && 0 <= i1 < |order| && 0 <= i2 < |order|
    requires order[i1] == 1 && order[i2] == 2
    ensures k == i1 || k == i2
  {
    assert order[k] in order;
  }

  /** The chain 1 -> {2, 3}, 2 -> {3}: with one topological order, the sort must return it. */
  method ChainExample() returns (order: seq<int>)
    ensures order == [3, 2, 1]
  {
    var children := map[1 := [2, 3], 2 := [3], 3 := []];
    assert Ranked(children, map[1 := 2, 2 := 1, 3 := 0]);
    order := BestEffortTopologicalSort([1, 2, 3], children);
    ChainOrder(order);
  }

  lemma ChainOrder(order: seq<int>)
    requires Distinct(order) && forall n :: n in order <==> n in {1, 2, 3}
    requires ChildrenFirst(order, map[1 := [2, 3], 2 := [3], 3 := []])
    ensures order == [3, 2, 1]
  {
    var children := map[1 := [2, 3], 2 := [3], 3 := []];
    assert 1 in order && 2 in order;
    var i1 :| 0 <= i1 < |order| && order[i1] == 1;
    var i2 :| 0 <= i2 < |order| && order[i2] == 2;
    assert 2 in children[order[i1]] && 3 in children[order[i1]] && 3 in children[order[i2]];
    assert 2 in order[..i1] && 3 in order[..i2];
    var j2 :| 0 <= j2 < i1 && order[..i1][j2] == 2;
    var i3 :| 0 <= i3 < i2 && order[..i2][i3] == 3;
    assert j2 == i2;
    assert i3 < i2 < i1;
    OneOfThree(order, 0, i1, i2, i3);
    OneOfThree(order, 1, i1, i2, i3);
    OneOfThree(order, 2, i1, i2, i3);
    OneOfThree(order, |order| - 1, i1, i2, i3);
  }

  /** In a list of the three distinct nodes, every position holds one of them. */
  lemma OneOfThree(order: seq<int>, k: int, i1: int, i2: int, i3: int)
    requires Distinct(order) && forall n :: n in order <==> n in {1, 2, 3}
    requires 0 <= k < |order| && 0 <= i1 < |order| && 0 <= i2 < |order| && 0 <= i3 < |order|
    requires order[i1] == 1 && order[i2] == 2 && order[i3] == 3
    ensures k == i1 || k == i2 || k == i3
  {
    assert order[k] in order;
  }

  /** A struct with an optional `foo` and a map to `bar` depends on exactly those two names. */
  lemma DependenciesExample(foo: string, bar: string)
    ensures Dependencies(Struct([Named("a", Option(TypeName(foo))), Named("b", Map(Str, TypeName(bar)))]))
            == Ok({foo, bar})
  {
    var fields := [Named("a", Option(TypeName(foo))), Named("b", Map(Str, TypeName(bar)))];
    DependenciesAreMentions(Struct(fields));
    forall x ensures FieldsMention(fields, x) <==> x in {foo, bar} {
      assert Mentions(fields[0].value, x) <==> x == foo;
      assert Mentions(fields[1].value, x) <==> x == bar;
    }
    assert ContainerResolved(Struct(fields));
    assert Dependencies(Struct(fields)).value == {foo, bar};
  }
}
