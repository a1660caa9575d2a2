/**
  * `serialize` sorts the items of a dict by their bytes, so the bytes it
  * writes for a dict do not depend on the order its entries were inserted
  * in.
  */
module PyLcsOrder {
  import opened Wire
  import opened LexOrder
  import opened PyTypes
  import opened PyLcs
  import opened PyLcsRoundTrip

  /** Every key and every value of the dict serializes. */
  predicate EntriesSerialize(es: seq<(Value, Value)>, t: Type)
    requires t.MapOf?
  {
    forall i :: 0 <= i < |es| ==> Serialize(es[i].0, t.key).Ok? && Serialize(es[i].1, t.value).Ok?
  }

  /** The items serialize only when every key and value does. */
  lemma {:induction false} SerializeEntriesOnlyIf(es: seq<(Value, Value)>, t: Type)
    requires t.MapOf? && SerializeEntries(es, t).Ok?
    ensures EntriesSerialize(es, t)
    decreases |es|
  {
    if |es| > 0 {
      SerializeEntriesOnlyIf(es[1..], t);
      assert forall i :: 1 <= i < |es| ==> es[i] == es[1..][i - 1];
    }
  }

  /** Reordering the entries keeps every one of them. */
  lemma PermutedSerialize(es1: seq<(Value, Value)>, es2: seq<(Value, Value)>, t: Type)
    requires t.MapOf? && multiset(es1) == multiset(es2) && EntriesSerialize(es1, t)
    ensures EntriesSerialize(es2, t)
  {
    forall j | 0 <= j < |es2|
      ensures Serialize(es2[j].0, t.key).Ok? && Serialize(es2[j].1, t.value).Ok?
    {
      assert es2[j] in multiset(es1);
      var i :| 0 <= i < |es1| && es1[i] == es2[j];
    }
  }

  lemma EntryImagesAppend(a: seq<(Value, Value)>, b: seq<(Value, Value)>, t: Type)
    requires t.MapOf?
    ensures EntryImages(a + b, t) == EntryImages(a, t) + EntryImages(b, t)
  {
  }

  /** Taking the same entry out of two reorderings leaves two
    * reorderings. */
  lemma PickOut(es1: seq<(Value, Value)>, es2: seq<(Value, Value)>, k: nat)
    requires multiset(es1) == multiset(es2) && |es1| > 0 && k < |es2| && es2[k] == es1[0]
    ensures multiset(es1[1..]) == multiset(es2[..k] + es2[k + 1..])
  {
    assert es1 == [es1[0]] + es1[1..];
    assert multiset(es1) == multiset{es1[0]} + multiset(es1[1..]);
    assert es2 == es2[..k] + [es2[k]] + es2[k + 1..];
    assert multiset(es2) == multiset(es2[..k]) + multiset{es2[k]} + multiset(es2[k + 1..]);
    assert multiset(es1[1..]) == multiset(es1) - multiset{es1[0]};
    assert multiset(es2[..k] + es2[k + 1..]) == multiset(es2) - multiset{es2[k]};
  }

  /** The items of a dict are those of the others plus entry `k`'s. */
  lemma ImagesWithout(es: seq<(Value, Value)>, k: nat, others: seq<(Value, Value)>, t: Type)
    requires t.MapOf? && k < |es| && others == es[..k] + es[k + 1..]
    ensures multiset(EntryImages(es, t)) == multiset(EntryImages(others, t)) + multiset{EntryImage(es[k], t)}
  {
    assert es == es[..k] + [es[k]] + es[k + 1..];
    EntryImagesAppend(es[..k], [es[k]], t);
    EntryImagesAppend(es[..k] + [es[k]], es[k + 1..], t);
    EntryImagesAppend(es[..k], es[k + 1..], t);
  }

  /** Reordering the entries reorders their items. */
  lemma {:induction false} PermutedImages(es1: seq<(Value, Value)>, es2: seq<(Value, Value)>, t: Type)
    requires t.MapOf? && multiset(es1) == multiset(es2)
    ensures multiset(EntryImages(es1, t)) == multiset(EntryImages(es2, t))
    decreases |es1|
  {
    if |es1| == 0 {
      assert |es2| == |multiset(es2)| == 0;
    } else {
      assert es1[0] in multiset(es2);
      var k :| 0 <= k < |es2| && es2[k] == es1[0];
      var rest1 := es1[1..];
      var rest2 := es2[..k] + es2[k + 1..];
      PickOut(es1, es2, k);
      PermutedImages(rest1, rest2, t);
      assert rest1 == es1[..0] + es1[1..];
      ImagesWithout(es1, 0, rest1, t);
      ImagesWithout(es2, k, rest2, t);
    }
  }

  /** The bytes `serialize` writes for a dict depend only on its entries,
    * not on the order they were inserted in; and it raises for one order
    * exactly when it raises for the other. */
  lemma MapOrderIrrelevant(es1: seq<(Value, Value)>, es2: seq<(Value, Value)>, t: Type)
    requires t.MapOf? && multiset(es1) == multiset(es2)
    ensures Serialize(MapV(es1), t).Ok? <==> Serialize(MapV(es2), t).Ok?
    ensures Serialize(MapV(es1), t).Ok? ==> Serialize(MapV(es1), t) == Serialize(MapV(es2), t)
  {
    assert |es1| == |multiset(es1)| == |multiset(es2)| == |es2|;
    if SerializeEntries(es1, t).Ok? || SerializeEntries(es2, t).Ok? {
      if SerializeEntries(es1, t).Ok? {
        SerializeEntriesOnlyIf(es1, t);
        PermutedSerialize(es1, es2, t);
      } else {
        SerializeEntriesOnlyIf(es2, t);
        PermutedSerialize(es2, es1, t);
      }
      SerializeEntriesOk(es1, t);
      SerializeEntriesOk(es2, t);
      var e1 := EntryImages(es1, t);
      var e2 := EntryImages(es2, t);
      PermutedImages(es1, es2, t);
      SortSorted(e2);
      SortCanonical(e1, Sort(e2));
    }
  }
}
