/**
  * Byte-string order and the canonical map layout: the lexicographic order
  * the runtimes compare serialized keys and entries with, sorting a list of
  * entry slices, cutting a buffer into slices at recorded offsets, and the
  * "keys strictly increasing" test the deserializers apply.
  */
module LexOrder {
  import opened Wire

  /** Strict lexicographic order: a proper prefix comes first, otherwise the
    * first differing byte decides. */
  predicate Less(a: seq<byte>, b: seq<byte>)
  {
    if |a| == 0 then |b| > 0
    else if |b| == 0 then false
    else a[0] < b[0] || (a[0] == b[0] && Less(a[1..], b[1..]))
  }

  /** The same order stated without recursion. */
  predicate LessAt(a: seq<byte>, b: seq<byte>)
  {
    (|a| < |b| && a == b[..|a|]) ||
    (exists k :: 0 <= k < |a| && k < |b| && a[..k] == b[..k] && a[k] < b[k])
  }

  lemma {:induction false} LessIsLessAt(a: seq<byte>, b: seq<byte>)
    ensures Less(a, b) <==> LessAt(a, b)
    decreases |a|
  {
    if |a| == 0 || |b| == 0 {
      if |a| == 0 && |b| > 0 {
        assert a == b[..|a|];
      }
    } else {
      LessIsLessAt(a[1..], b[1..]);
      if Less(a, b) {
        if a[0] < b[0] {
          assert a[..0] == b[..0];
        } else if |a[1..]| < |b[1..]| && a[1..] == b[1..][..|a[1..]|] {
          assert a == b[..|a|];
        } else {
          var k :| 0 <= k < |a[1..]| && k < |b[1..]| && a[1..][..k] == b[1..][..k] && a[1..][k] < b[1..][k];
          assert a[..k + 1] == [a[0]] + a[1..][..k];
          assert b[..k + 1] == [b[0]] + b[1..][..k];
        }
      }
      if LessAt(a, b) {
        if |a| < |b| && a == b[..|a|] {
          assert a[0] == b[0];
          assert a[1..] == b[1..][..|a[1..]|];
        } else {
          var k :| 0 <= k < |a| && k < |b| && a[..k] == b[..k] && a[k] < b[k];
          if k > 0 {
            assert a[0] == a[..k][0] == b[..k][0] == b[0];
            assert a[1..][..k - 1] == a[..k][1..] == b[..k][1..] == b[1..][..k - 1];
            assert LessAt(a[1..], b[1..]);
          }
        }
      }
    }
  }

  lemma {:induction false} LessIrreflexive(a: seq<byte>)
    ensures !Less(a, a)
    decreases |a|
  {
    if |a| > 0 {
      LessIrreflexive(a[1..]);
    }
  }

  lemma {:induction false} LessAsymmetric(a: seq<byte>, b: seq<byte>)
    ensures !(Less(a, b) && Less(b, a))
    decreases |a|
  {
    if |a| > 0 && |b| > 0 {
      LessAsymmetric(a[1..], b[1..]);
    }
  }

  lemma {:induction false} LessTransitive(a: seq<byte>, b: seq<byte>, c: seq<byte>)
    requires Less(a, b) && Less(b, c)
    ensures Less(a, c)
    decreases |a|
  {
    if |a| > 0 && a[0] == b[0] && b[0] == c[0] {
      LessTransitive(a[1..], b[1..], c[1..]);
    }
  }

  /** Any two different byte strings are ordered one way or the other. */
  lemma {:induction false} LessTotal(a: seq<byte>, b: seq<byte>)
    ensures a == b || Less(a, b) || Less(b, a)
    decreases |a|
  {
    if |a| > 0 && |b| > 0 && a[0] == b[0] {
      LessTotal(a[1..], b[1..]);
      if a[1..] == b[1..] {
        assert a == [a[0]] + a[1..] && b == [b[0]] + b[1..];
      }
    }
  }

  /** Comparing two entries whose keys are not prefixes of each other is
    * comparing the keys: what follows a key cannot change the outcome. */
  lemma {:induction false} LessPrefixFree(k1: seq<byte>, v1: seq<byte>, k2: seq<byte>, v2: seq<byte>)
    requires !(|k1| <= |k2| && k1 == k2[..|k1|]) && !(|k2| <= |k1| && k2 == k1[..|k2|])
    ensures Less(k1 + v1, k2 + v2) <==> Less(k1, k2)
    decreases |k1|
  {
    assert |k1| > 0 && |k2| > 0;
    if k1[0] == k2[0] {
      assert (k1 + v1)[1..] == k1[1..] + v1 && (k2 + v2)[1..] == k2[1..] + v2;
      LessPrefixFree(k1[1..], v1, k2[1..], v2);
    }
  }

  /** Non-decreasing: no later slice is smaller than an earlier one. */
  predicate Sorted(s: seq<seq<byte>>)
  {
    forall i, j :: 0 <= i < j < |s| ==> !Less(s[j], s[i])
  }

  /** Each key strictly greater than every earlier key. */
  predicate StrictlyIncreasing(s: seq<seq<byte>>)
  {
    forall i, j :: 0 <= i < j < |s| ==> Less(s[i], s[j])
  }

  /** What checking each key against the one before it establishes. */
  predicate AdjacentIncreasing(s: seq<seq<byte>>)
  {
    forall i :: 0 < i < |s| ==> Less(s[i - 1], s[i])
  }

  /** Comparing neighbours is enough: the pairwise check accepts exactly the
    * strictly increasing key sequences. */
  lemma {:induction false} AdjacentIsStrict(s: seq<seq<byte>>)
    ensures AdjacentIncreasing(s) <==> StrictlyIncreasing(s)
    decreases |s|
  {
    if |s| > 1 && AdjacentIncreasing(s) {
      var t := s[..|s| - 1];
      assert AdjacentIncreasing(t) by {
        forall i | 0 < i < |t| ensures Less(t[i - 1], t[i]) {
          assert t[i - 1] == s[i - 1] && t[i] == s[i];
        }
      }
      AdjacentIsStrict(t);
      forall i, j | 0 <= i < j < |s| ensures Less(s[i], s[j]) {
        if j < |s| - 1 {
          assert s[i] == t[i] && s[j] == t[j];
        } else if i < |s| - 2 {
          assert s[i] == t[i] && s[|s| - 2] == t[|s| - 2];
          LessTransitive(s[i], s[|s| - 2], s[j]);
        }
      }
    }
  }

  /** All slices laid end to end. */
  function Concat(s: seq<seq<byte>>): (r: seq<byte>)
  {
    if |s| == 0 then [] else s[0] + Concat(s[1..])
  }

  lemma {:induction false} ConcatAppend(s: seq<seq<byte>>, x: seq<byte>)
    ensures Concat(s + [x]) == Concat(s) + x
    decreases |s|
  {
    if |s| > 0 {
      assert (s + [x])[1..] == s[1..] + [x];
      ConcatAppend(s[1..], x);
    }
  }

  /** Inserting one slice into a sorted list of slices. */
  function Insert(x: seq<byte>, s: seq<seq<byte>>): (r: seq<seq<byte>>)
  {
    if |s| == 0 || !Less(s[0], x) then [x] + s else [s[0]] + Insert(x, s[1..])
  }

  /** The library sort the runtimes call (`std::sort`, `sort.Sort`,
    * `Arrays.sort`, Python `sorted`), by insertion. */
  function Sort(s: seq<seq<byte>>): (r: seq<seq<byte>>)
  {
    if |s| == 0 then [] else Insert(s[0], Sort(s[1..]))
  }

  lemma {:induction false} InsertSorted(x: seq<byte>, s: seq<seq<byte>>)
    requires Sorted(s)
    ensures Sorted(Insert(x, s)) && multiset(Insert(x, s)) == multiset(s) + multiset{x}
    decreases |s|
  {
    if |s| == 0 {
    } else if !Less(s[0], x) {
      var r := [x] + s;
      forall i, j | 0 <= i < j < |r| ensures !Less(r[j], r[i]) {
        if i == 0 {
          if Less(r[j], x) {
            if j > 1 {
              assert !Less(s[j - 1], s[0]);
              LessTotal(s[j - 1], s[0]);
              if s[j - 1] != s[0] {
                LessTransitive(s[0], s[j - 1], x);
              }
            }
          }
        }
      }
    } else {
      InsertSorted(x, s[1..]);
      var t := Insert(x, s[1..]);
      var r := [s[0]] + t;
      assert s == [s[0]] + s[1..];
      forall i, j | 0 <= i < j < |r| ensures !Less(r[j], r[i]) {
        if i == 0 {
          assert r[j] in multiset(t);
          if r[j] == x {
            LessAsymmetric(s[0], x);
          } else {
            assert r[j] in multiset(s[1..]);
            var k :| 0 <= k < |s[1..]| && s[1..][k] == r[j];
            assert !Less(s[k + 1], s[0]);
          }
        }
      }
    }
  }

  /** The sort yields a sorted permutation of its input. */
  lemma {:induction false} SortSorted(s: seq<seq<byte>>)
    ensures Sorted(Sort(s)) && multiset(Sort(s)) == multiset(s)
    decreases |s|
  {
    if |s| > 0 {
      SortSorted(s[1..]);
      InsertSorted(s[0], Sort(s[1..]));
      assert s == [s[0]] + s[1..];
    }
  }

  /** Two sorted lists with the same elements start alike. */
  lemma SortedHeads(a: seq<seq<byte>>, b: seq<seq<byte>>)
    requires Sorted(a) && Sorted(b) && multiset(a) == multiset(b) && |a| > 0
    ensures |b| > 0 && a[0] == b[0]
  {
    assert a[0] in multiset(b);
    var i :| 0 <= i < |b| && b[i] == a[0];
    assert b[0] in multiset(a);
    var j :| 0 <= j < |a| && a[j] == b[0];
    if i > 0 {
      assert !Less(b[i], b[0]);
    }
    if j > 0 {
      assert !Less(a[j], a[0]);
    }
    LessTotal(a[0], b[0]);
  }

  lemma SortedTail(a: seq<seq<byte>>)
    requires Sorted(a) && |a| > 0
    ensures Sorted(a[1..]) && multiset(a[1..]) == multiset(a) - multiset{a[0]}
  {
    assert a == [a[0]] + a[1..];
    assert Sorted(a[1..]) by {
      forall i, j | 0 <= i < j < |a[1..]| ensures !Less(a[1..][j], a[1..][i]) {
        assert a[1..][j] == a[j + 1] && a[1..][i] == a[i + 1];
      }
    }
  }

  /** A sorted list is determined by its multiset of elements. */
  lemma {:induction false} SortedUnique(a: seq<seq<byte>>, b: seq<seq<byte>>)
    requires Sorted(a) && Sorted(b) && multiset(a) == multiset(b)
    ensures a == b
    decreases |a|
  {
    if |a| > 0 {
      SortedHeads(a, b);
      SortedTail(a);
      SortedTail(b);
      SortedUnique(a[1..], b[1..]);
      assert a == [a[0]] + a[1..] && b == [b[0]] + b[1..];
    }
  }

  /** Any sorted permutation of the input is the output of Sort: which
    * sorting algorithm a runtime calls does not change the bytes it writes,
    * and neither does the order the entries were written in. */
  lemma SortCanonical(s: seq<seq<byte>>, t: seq<seq<byte>>)
    requires Sorted(t) && multiset(t) == multiset(s)
    ensures t == Sort(s)
  {
    SortSorted(s);
    SortedUnique(t, Sort(s));
  }

  /** Offsets that cut a buffer of length `n` into consecutive slices. */
  predicate ValidCuts(offsets: seq<nat>, n: nat)
  {
    (forall i :: 0 <= i < |offsets| ==> offsets[i] <= n) &&
    (forall i, j :: 0 <= i < j < |offsets| ==> offsets[i] <= offsets[j])
  }

  /** The slices between consecutive cuts. */
  function Slices(buf: seq<byte>, cuts: seq<nat>): (r: seq<seq<byte>>)
    requires ValidCuts(cuts, |buf|)
    ensures |cuts| > 0 ==> |r| == |cuts| - 1
    decreases |cuts|
  {
    if |cuts| <= 1 then [] else [buf[cuts[0]..cuts[1]]] + Slices(buf, cuts[1..])
  }

  /** A run of consecutive cuts is itself a set of cuts. */
  lemma CutsRange(cuts: seq<nat>, n: nat, lo: nat, hi: nat)
    requires ValidCuts(cuts, n) && lo <= hi <= |cuts|
    ensures ValidCuts(cuts[lo..hi], n)
  {
    var r := cuts[lo..hi];
    forall i, j | 0 <= i < j < |r| ensures r[i] <= r[j] {
      assert r[i] == cuts[lo + i] && r[j] == cuts[lo + j];
    }
    forall i | 0 <= i < |r| ensures r[i] <= n {
      assert r[i] == cuts[lo + i];
    }
  }

  /** Slice `k` lies between the cuts `k` and `k + 1`. */
  lemma {:induction false} SlicesAt(buf: seq<byte>, cuts: seq<nat>, k: nat)
    requires ValidCuts(cuts, |buf|) && k + 1 < |cuts|
    ensures cuts[k] <= cuts[k + 1] <= |buf|
    ensures Slices(buf, cuts)[k] == buf[cuts[k]..cuts[k + 1]]
    decreases k
  {
    if k > 0 {
      CutsRange(cuts, |buf|, 1, |cuts|);
      SlicesAt(buf, cuts[1..], k - 1);
    }
  }

  /** One more slice laid down. */
  lemma ConcatStep(s: seq<seq<byte>>, k: nat)
    requires k < |s|
    ensures Concat(s[..k + 1]) == Concat(s[..k]) + s[k]
  {
    assert s[..k + 1] == s[..k] + [s[k]];
    ConcatAppend(s[..k], s[k]);
  }

  /** Laid end to end, the slices give back the buffer between the first and
    * the last cut. */
  lemma {:induction false} ConcatSlices(buf: seq<byte>, cuts: seq<nat>)
    requires |cuts| > 0 && ValidCuts(cuts, |buf|)
    ensures Concat(Slices(buf, cuts)) == buf[cuts[0]..cuts[|cuts| - 1]]
    decreases |cuts|
  {
    if |cuts| > 1 {
      var rest := Slices(buf, cuts[1..]);
      ConcatSlices(buf, cuts[1..]);
      assert Slices(buf, cuts)[1..] == rest;
      assert buf[cuts[0]..cuts[1]] + buf[cuts[1]..cuts[|cuts| - 1]] == buf[cuts[0]..cuts[|cuts| - 1]];
    }
  }

  lemma {:induction false} InsertLength(x: seq<byte>, s: seq<seq<byte>>)
    ensures |Concat(Insert(x, s))| == |x| + |Concat(s)|
    decreases |s|
  {
    if |s| > 0 && Less(s[0], x) {
      InsertLength(x, s[1..]);
      assert ([s[0]] + Insert(x, s[1..]))[1..] == Insert(x, s[1..]);
    } else {
      assert ([x] + s)[1..] == s;
    }
  }

  /** Sorting moves whole slices, so the total length stays. */
  lemma {:induction false} SortLength(s: seq<seq<byte>>)
    ensures |Concat(Sort(s))| == |Concat(s)|
    decreases |s|
  {
    if |s| > 0 {
      SortLength(s[1..]);
      InsertLength(s[0], Sort(s[1..]));
    }
  }

  /** The canonical map layout: the buffer up to the first entry, then the
    * entries recorded at `offsets` (the last one running to the end of the
    * buffer) in sorted order. Fewer than two entries leave it unchanged. */
  function SortLastEntries(buf: seq<byte>, offsets: seq<nat>): seq<byte>
    requires ValidCuts(offsets, |buf|)
  {
    if |offsets| <= 1 then buf
    else buf[..offsets[0]] + Concat(Sort(Slices(buf, offsets + [|buf|])))
  }

  lemma CutsWithEnd(offsets: seq<nat>, n: nat)
    requires ValidCuts(offsets, n)
    ensures ValidCuts(offsets + [n], n)
  {
  }

  /** Sorting the last entries keeps the length and everything before the
    * first entry, and lays out a sorted permutation of the entry slices. */
  lemma SortLastEntriesShape(buf: seq<byte>, offsets: seq<nat>)
    requires ValidCuts(offsets, |buf|) && |offsets| > 1
    ensures |SortLastEntries(buf, offsets)| == |buf|
    ensures SortLastEntries(buf, offsets)[..offsets[0]] == buf[..offsets[0]]
    ensures var entries := Slices(buf, offsets + [|buf|]);
      exists sorted :: Sorted(sorted) && multiset(sorted) == multiset(entries) &&
        SortLastEntries(buf, offsets)[offsets[0]..] == Concat(sorted)
  {
    var cuts := offsets + [|buf|];
    CutsWithEnd(offsets, |buf|);
    var entries := Slices(buf, cuts);
    SortSorted(entries);
    SortLength(entries);
    ConcatSlices(buf, cuts);
    var r := SortLastEntries(buf, offsets);
    assert r == buf[..offsets[0]] + Concat(Sort(entries));
    assert r[offsets[0]..] == Concat(Sort(entries));
  }

  /** The entries' write order does not matter: two buffers with the same
    * prefix whose entries are the same slices in any order end up equal. */
  lemma SortLastEntriesOrderFree(buf1: seq<byte>, offsets1: seq<nat>, buf2: seq<byte>, offsets2: seq<nat>)
    requires ValidCuts(offsets1, |buf1|) && ValidCuts(offsets2, |buf2|)
    requires |offsets1| > 1 && |offsets2| > 1
    requires buf1[..offsets1[0]] == buf2[..offsets2[0]]
    requires multiset(Slices(buf1, offsets1 + [|buf1|])) == multiset(Slices(buf2, offsets2 + [|buf2|]))
    ensures SortLastEntries(buf1, offsets1) == SortLastEntries(buf2, offsets2)
  {
    CutsWithEnd(offsets1, |buf1|);
    CutsWithEnd(offsets2, |buf2|);
    var s1 := Slices(buf1, offsets1 + [|buf1|]);
    var s2 := Slices(buf2, offsets2 + [|buf2|]);
    SortSorted(s2);
    SortCanonical(s1, Sort(s2));
  }

  /** The entries rewritten step by step, as the runtimes do: cut the slices
    * out between consecutive offsets, sort them (any sort gives the same
    * slices, by `SortCanonical`), cut the buffer back to the first entry and
    * append the sorted slices one by one. */
  method RewriteSorted(buf: seq<byte>, offsets: seq<nat>) returns (r: seq<byte>)
    requires ValidCuts(offsets, |buf|)
    ensures r == SortLastEntries(buf, offsets)
  {
    if |offsets| <= 1 {
      return buf;
    }
    var cuts := offsets + [|buf|];
    CutsWithEnd(offsets, |buf|);
    var slices: seq<seq<byte>> := [];
    var i := 1;
    while i < |cuts|
      invariant 1 <= i <= |cuts| && |slices| == i - 1
      invariant forall k :: 0 <= k < i - 1 ==> slices[k] == Slices(buf, cuts)[k]
    {
      SlicesAt(buf, cuts, i - 1);
      slices := slices + [buf[cuts[i - 1]..cuts[i]]];
      i := i + 1;
    }
    assert slices == Slices(buf, cuts);
    slices := Sort(slices);
    r := buf[..offsets[0]];
    var k := 0;
    while k < |slices|
      invariant 0 <= k <= |slices|
      invariant r == buf[..offsets[0]] + Concat(slices[..k])
    {
      ConcatStep(slices, k);
      r := r + slices[k];
      k := k + 1;
    }
    assert slices[..k] == slices;
  }

  /** Whether the key `key1` (a start and an end offset into `input`) is
    * strictly below the key `key2`. */
  predicate KeysIncreasing(input: seq<byte>, key1: (nat, nat), key2: (nat, nat))
    requires key1.0 <= key1.1 <= |input| && key2.0 <= key2.1 <= |input|
  {
    Less(input[key1.0..key1.1], input[key2.0..key2.1])
  }
}
