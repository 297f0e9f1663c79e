/**
 * What a map's body means: a sequence of key/value entries, each key and value
 * already encoded, laid out back to back. Sorting inserts each new entry
 * before the first key it does not sort after.
 */
module MapEntries {
  import opened Cbor
  import opened Encoder
  import opened KeyOrder
  import Slices

  datatype Entry = Entry(key: seq<byte>, value: seq<byte>)

  /** The map body: every entry's key then its value, in order. */
  function Flatten(es: seq<Entry>): (s: seq<byte>)
  {
    if |es| == 0 then [] else Flatten(es[..|es| - 1]) + es[|es| - 1].key + es[|es| - 1].value
  }

  lemma {:induction false} FlattenAppend(a: seq<Entry>, c: seq<Entry>)
    ensures Flatten(a + c) == Flatten(a) + Flatten(c)
    decreases |c|
  {
    if |c| == 0 {
      assert a + c == a;
    } else {
      var c' := c[..|c| - 1];
      assert (a + c)[..|a + c| - 1] == a + c';
      FlattenAppend(a, c');
    }
  }

  /** Appending one entry appends its key and value. */
  lemma FlattenSnoc(es: seq<Entry>, e: Entry)
    ensures Flatten(es + [e]) == Flatten(es) + e.key + e.value
  {
    assert (es + [e])[..|es|] == es;
  }

  /** Entry i sits right after the bytes of the entries before it. */
  lemma FlattenAt(es: seq<Entry>, i: nat)
    requires i < |es|
    ensures Flatten(es) == Flatten(es[..i]) + es[i].key + es[i].value + Flatten(es[i + 1..])
  {
    Slices.SplitAt(es, i + 1);
    Slices.SnocAt(es, i);
    FlattenAppend(es[..i + 1], es[i + 1..]);
    FlattenSnoc(es[..i], es[i]);
  }

  /** Keys in non-decreasing order under the map's sort mode. */
  ghost predicate Sorted(mode: ModeSort, es: seq<Entry>) {
    forall i, j :: 0 <= i < j < |es| ==> KeyLessEq(mode, es[i].key, es[j].key)
  }

  /** The reference insertion: walk past every key that sorts strictly before the new one. */
  function InsertSorted(mode: ModeSort, es: seq<Entry>, e: Entry): (r: seq<Entry>)
    ensures |r| == |es| + 1
  {
    if |es| == 0 then [e]
    else if KeyLessEq(mode, e.key, es[0].key) then [e] + es
    else [es[0]] + InsertSorted(mode, es[1..], e)
  }

  /** The index of the first key that the given key sorts at or before, or |es| if none. */
  function FirstNotBefore(mode: ModeSort, es: seq<Entry>, key: seq<byte>): (p: nat)
    ensures p <= |es|
    ensures forall j :: 0 <= j < p ==> !KeyLessEq(mode, key, es[j].key)
    ensures p < |es| ==> KeyLessEq(mode, key, es[p].key)
  {
    if |es| == 0 then 0
    else if KeyLessEq(mode, key, es[0].key) then 0
    else 1 + FirstNotBefore(mode, es[1..], key)
  }

  /** The entry lands just before the first key it does not sort after; nothing else moves. */
  lemma {:induction false} InsertSortedSplits(mode: ModeSort, es: seq<Entry>, e: Entry)
    ensures var p := FirstNotBefore(mode, es, e.key);
      InsertSorted(mode, es, e) == es[..p] + [e] + es[p..]
    decreases |es|
  {
    if |es| > 0 && !KeyLessEq(mode, e.key, es[0].key) {
      InsertSortedSplits(mode, es[1..], e);
      var p := FirstNotBefore(mode, es[1..], e.key);
      assert es[..p + 1] == [es[0]] + es[1..][..p];
      assert es[p + 1..] == es[1..][p..];
    }
  }

  /** Inserting into a sorted sequence keeps it sorted. */
  lemma InsertKeepsSorted(mode: ModeSort, es: seq<Entry>, e: Entry)
    requires Sorted(mode, es)
    ensures Sorted(mode, InsertSorted(mode, es, e))
  {
    var p := FirstNotBefore(mode, es, e.key);
    InsertSortedSplits(mode, es, e);
    var r := es[..p] + [e] + es[p..];
    forall i, j | 0 <= i < j < |r|
      ensures KeyLessEq(mode, r[i].key, r[j].key)
    {
      if i < p && j == p {
        KeyLessEqTotal(mode, es[i].key, e.key);
      } else if i == p {
        assert r[j] == es[j - 1];
        if j - 1 > p {
          KeyLessEqTransitive(mode, e.key, es[p].key, es[j - 1].key);
        }
      } else if j > p && i < p {
        assert r[j] == es[j - 1];
      } else if i > p {
        assert r[i] == es[i - 1] && r[j] == es[j - 1];
      }
    }
  }

  /** Inserting adds exactly the new entry and loses nothing. */
  lemma InsertPermutes(mode: ModeSort, es: seq<Entry>, e: Entry)
    ensures multiset(InsertSorted(mode, es, e)) == multiset(es) + multiset{e}
  {
    var p := FirstNotBefore(mode, es, e.key);
    InsertSortedSplits(mode, es, e);
    Slices.SplitAt(es, p);
  }

  /** How AddMapItem places an entry: at the end when unsorted, by insertion otherwise. */
  function Insert(mode: ModeSort, es: seq<Entry>, e: Entry): (r: seq<Entry>)
    ensures |r| == |es| + 1
    ensures mode == SortNone ==> r[..|es|] == es && r[|es|] == e
    ensures mode != SortNone ==> var p := FirstNotBefore(mode, es, e.key);
      r[..p] == es[..p] && r[p] == e && r[p + 1..] == es[p..]
  {
    if mode == SortNone then es + [e]
    else
      InsertSortedSplits(mode, es, e);
      InsertSorted(mode, es, e)
  }

  /** The entries of a map built item by item: the item order, or insertion-sorted. */
  function Ordered(mode: ModeSort, items: seq<Entry>): (r: seq<Entry>)
  {
    if |items| == 0 then [] else Insert(mode, Ordered(mode, items[..|items| - 1]), items[|items| - 1])
  }

  /** A sorted map's entries are sorted and are a permutation of the items added. */
  lemma {:induction false} OrderedSortsAndPermutes(mode: ModeSort, items: seq<Entry>)
    ensures |Ordered(mode, items)| == |items|
    ensures multiset(Ordered(mode, items)) == multiset(items)
    ensures mode != SortNone ==> Sorted(mode, Ordered(mode, items))
    ensures mode == SortNone ==> Ordered(mode, items) == items
    decreases |items|
  {
    if |items| > 0 {
      var init := items[..|items| - 1];
      var last := items[|items| - 1];
      OrderedSortsAndPermutes(mode, init);
      assert items == init + [last];
      var earlier := Ordered(mode, init);
      if mode == SortNone {
        assert Ordered(mode, items) == earlier + [last];
      } else {
        assert Ordered(mode, items) == InsertSorted(mode, earlier, last);
        InsertKeepsSorted(mode, earlier, last);
        InsertPermutes(mode, earlier, last);
      }
    }
  }
}
