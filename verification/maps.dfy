/**
 * Map encoding as the builder does it: AddMap writes the header and resets the
 * item count; each AddMapItem appends a key and a value, records where they
 * start, and, unless sorting is off, moves the new entry back into key order
 * in place.
 */
module MapSort {
  import opened Cbor
  import opened Header
  import opened Slices
  import opened Encoder
  import opened KeyOrder
  import opened BinarySearch
  import opened MapEntries

  /** `AddMap(length)`: header, item count reset, descriptor table grown to hold `length` items. */
  function AddMap(b: Builder, length: int64): (r: Builder)
    ensures b.err.None? ==> r.result == b.result + Head(TypeMap, Unsigned(length, 0x8000_0000_0000_0000))
    ensures b.err.Some? ==> r.result == b.result
    ensures r.err == b.err && SamePolicies(b, r) && r.mapSize == 0 && r.tmp == b.tmp
    ensures |r.offsets| == if length > |b.offsets| then length else |b.offsets|
    ensures r.offsets[..|b.offsets|] == b.offsets
  {
    var b1 := b.(mapSize := 0);
    var b2 := AddHead64(b1, TypeMap, Unsigned(length, 0x8000_0000_0000_0000));
    if |b2.offsets| < length then
      b2.(offsets := b2.offsets + BlankItems(length - |b2.offsets|))
    else b2
  }

  /** `make([]mapItem, n)`: n zero descriptors. */
  function BlankItems(n: nat): (r: seq<MapItem>)
    ensures |r| == n
  {
    seq(n, _ => MapItem(0, 0))
  }

  /**
   * The key of item i, as `keyFn` slices it: the first keyLength bytes of the
   * item's run. Empty where the descriptor is out of range, where Go panics.
   */
  function KeyOf(b: Builder, i: nat): (k: seq<byte>)
    ensures i < |b.offsets| && b.offsets[i].offset + b.offsets[i].keyLength <= |b.result| ==>
      |k| == b.offsets[i].keyLength && k <= b.result[b.offsets[i].offset..]
  {
    if i < |b.offsets| && b.offsets[i].offset + b.offsets[i].keyLength <= |b.result| then
      b.result[b.offsets[i].offset .. b.offsets[i].offset + b.offsets[i].keyLength]
    else []
  }

  /** The bounds `sort` needs to slice keys and the last entry without panicking. */
  predicate SortBounds(b: Builder) {
    && 1 <= b.mapSize <= |b.offsets|
    && (forall i :: 0 <= i < b.mapSize ==> b.offsets[i].offset + b.offsets[i].keyLength <= |b.result|)
    && (forall i :: 0 <= i < b.mapSize ==> b.offsets[i].offset <= b.offsets[b.mapSize - 1].offset)
  }

  /**
   * `sort`: binary-search the already sorted items for the first key the new
   * last key sorts at or before; if there is one, move the last entry's bytes
   * there through the scratch buffer and shift the later descriptors.
   */
  function Sort(b: Builder): (r: Builder)
    requires SortBounds(b)
    ensures r.err == b.err && r.mapSize == b.mapSize && |r.offsets| == |b.offsets|
    ensures |r.result| == |b.result|
    ensures SamePolicies(b, r)
    ensures InsertionIndex(b) == b.mapSize - 1 ==> r == b
    ensures InsertionIndex(b) < b.mapSize - 1 ==>
      r.result[..b.offsets[InsertionIndex(b)].offset] == b.result[..b.offsets[InsertionIndex(b)].offset]
  {
    var idx := InsertionIndex(b);
    if idx < b.mapSize - 1 then MoveLast(b, idx) else b
  }

  /**
   * The `sort.Search` call over the items before the last one, probing
   * whether the last key sorts at or before item i's key. The result is a
   * switch point of that probe.
   */
  function InsertionIndex(b: Builder): (idx: nat)
    requires 1 <= b.mapSize
    ensures idx <= b.mapSize - 1
    ensures var keys, x := Keys(b, b.mapSize - 1), KeyOf(b, b.mapSize - 1);
      && (idx == 0 || !KeyLessEq(b.modeSort, x, keys[idx - 1]))
      && (idx == |keys| || KeyLessEq(b.modeSort, x, keys[idx]))
  {
    SearchKeys(b.modeSort, Keys(b, b.mapSize - 1), KeyOf(b, b.mapSize - 1))
  }

  /** The keys of the first n items, in item order, as `keyFn` slices them. */
  function Keys(b: Builder, n: nat): (keys: seq<seq<byte>>)
    ensures |keys| == n
  {
    if n == 0 then [] else Keys(b, n - 1) + [KeyOf(b, n - 1)]
  }

  /** Binary search over keys for a switch point of "x sorts at or before keys[i]". */
  function SearchKeys(mode: ModeSort, keys: seq<seq<byte>>, x: seq<byte>): (idx: nat)
    ensures idx <= |keys|
    ensures idx == 0 || !KeyLessEq(mode, x, keys[idx - 1])
    ensures idx == |keys| || KeyLessEq(mode, x, keys[idx])
  {
    Search(|keys|, (i: nat) => i < |keys| && KeyLessEq(mode, x, keys[i]))
  }

  /**
   * The body of `if idx < b.mapSize-1`: the last entry's bytes move to where
   * item idx starts, and everything from there shifts right behind them.
   */
  function MoveLast(b: Builder, idx: nat): (r: Builder)
    requires SortBounds(b) && idx < b.mapSize - 1
    ensures r.err == b.err && r.mapSize == b.mapSize && |r.offsets| == |b.offsets|
    ensures SamePolicies(b, r)
    ensures var from, to := b.offsets[b.mapSize - 1].offset, b.offsets[idx].offset;
      r.result == b.result[..to] + b.result[from..] + b.result[to..from]
    ensures forall j :: 0 <= j < |r.offsets| ==>
      r.offsets[j] == ShiftedItem(b.offsets, idx, b.mapSize - 1, |b.result| - b.offsets[b.mapSize - 1].offset, j)
  {
    var n := b.mapSize;
    var last := b.result[b.offsets[n - 1].offset..];
    var tmp := Stage(b.tmp, last);
    var placed := MoveRun(b.result, b.offsets[idx].offset, b.offsets[n - 1].offset, tmp);
    b.(tmp := tmp, result := placed, offsets := MovedItems(b.offsets, idx, n - 1, |last|))
  }

  /** The descriptor updates of `sort`: shift the ones above idx, then put the moved item at idx. */
  function MovedItems(offsets: seq<MapItem>, idx: nat, top: nat, delta: nat): (r: seq<MapItem>)
    requires idx < top < |offsets|
    ensures |r| == |offsets|
    ensures forall j :: 0 <= j < |r| ==> r[j] == ShiftedItem(offsets, idx, top, delta, j)
  {
    var shifted := ShiftDescriptors(offsets, idx, top, delta);
    shifted[idx := offsets[top].(offset := offsets[idx].offset)]
  }

  /** Grow the scratch buffer to fit `last` if needed, then `copy(b.tmp, last)`. */
  function Stage(tmp: seq<byte>, last: seq<byte>): (t: seq<byte>)
    ensures |t| == if |tmp| < |last| then |last| else |tmp|
    ensures t[..|last|] == last
    ensures |last| <= |tmp| ==> t[|last|..] == tmp[|last|..]
  {
    var grown := if |tmp| < |last| then tmp + Zeros(|last| - |tmp|) else tmp;
    var t := CopyInto(grown, 0, last);
    assert t[..|last|] == last;
    t
  }

  /**
   * The two copies of `sort`: shift result[to:] right by the run's length,
   * then write the staged run at `to`.
   */
  function MoveRun(result: seq<byte>, to: nat, from: nat, staged: seq<byte>): (r: seq<byte>)
    requires to <= from <= |result|
    requires |staged| >= |result| - from && staged[..|result| - from] == result[from..]
    ensures r == result[..to] + result[from..] + result[to..from]
  {
    var n := |result| - from;
    MoveRunBytes(result, to, from, staged);
    CopyInto(CopyInto(result, to + n, result[to..]), to, staged[..n])
  }

  lemma MoveRunBytes(result: seq<byte>, to: nat, from: nat, staged: seq<byte>)
    requires to <= from <= |result|
    requires |staged| >= |result| - from && staged[..|result| - from] == result[from..]
    ensures var n := |result| - from;
      CopyInto(CopyInto(result, to + n, result[to..]), to, staged[..n]) == result[..to] + result[from..] + result[to..from]
  {
    SplitAt(result, from);
    SplitAt(result[..from], to);
    assert result[..from][..to] == result[..to];
    assert result[..from][to..] == result[to..from];
    MoveLastBytes(result[..to], result[to..from], result[from..]);
  }

  /**
   * Descriptor j after the last item moves to slot idx: slots idx+1..top take
   * their predecessor moved right by delta, slot idx gets the last item's key
   * length at slot idx's old offset, and all other slots keep their descriptor.
   */
  function ShiftedItem(offsets: seq<MapItem>, idx: nat, top: nat, delta: nat, j: nat): MapItem
    requires idx <= top < |offsets| && j < |offsets|
  {
    if j < idx || top < j then offsets[j]
    else if j == idx then MapItem(offsets[idx].offset, offsets[top].keyLength)
    else MapItem(offsets[j - 1].offset + delta, offsets[j - 1].keyLength)
  }

  /**
   * The descriptor loop `for i := top; i > idx; i--`: each descriptor above idx
   * takes its predecessor's, moved right by delta.
   */
  function ShiftDescriptors(offsets: seq<MapItem>, idx: nat, top: nat, delta: nat): (r: seq<MapItem>)
    requires idx <= top < |offsets|
    ensures |r| == |offsets|
    ensures forall j :: idx < j <= top ==>
      r[j] == MapItem(offsets[j - 1].offset + delta, offsets[j - 1].keyLength)
    ensures forall j :: 0 <= j < |r| && (j <= idx || top < j) ==> r[j] == offsets[j]
    decreases top - idx
  {
    if top == idx then offsets
    else
      var prev := offsets[top - 1];
      ShiftDescriptors(offsets[top := MapItem(prev.offset + delta, prev.keyLength)], idx, top - 1, delta)
  }

  /** The descriptors of the current map lie inside the written bytes. */
  predicate ItemsInBounds(b: Builder) {
    && b.mapSize <= |b.offsets|
    && forall i :: 0 <= i < b.mapSize ==> b.offsets[i].offset + b.offsets[i].keyLength <= |b.result|
  }

  /**
   * `addMapItem`: append the key and the value, record the item, and sort
   * unless sorting is off. The continuations are modelled as the bytes they append.
   */
  function AddMapItem(b: Builder, key: seq<byte>, value: seq<byte>): (r: Builder)
    requires ItemsInBounds(b) && b.mapSize < |b.offsets|
    ensures r.mapSize == b.mapSize + 1 && |r.offsets| == |b.offsets|
    ensures r.err == b.err && SamePolicies(b, r)
    ensures b.err.None? ==> |r.result| == |b.result| + |key| + |value|
    ensures b.err.Some? ==> r.result == b.result
  {
    var b3 := AppendItem(b, key, value);
    if b3.modeSort != SortNone then Sort(b3) else b3
  }

  /** Everything `addMapItem` does before sorting: append key and value, record the new item. */
  function AppendItem(b: Builder, key: seq<byte>, value: seq<byte>): (r: Builder)
    requires ItemsInBounds(b) && b.mapSize < |b.offsets|
    ensures r.mapSize == b.mapSize + 1 && |r.offsets| == |b.offsets|
    ensures r.err == b.err && SamePolicies(b, r) && r.tmp == b.tmp
    ensures b.err.None? ==> r.result == b.result + key + value
    ensures b.err.Some? ==> r.result == b.result
    ensures r.offsets[b.mapSize] == MapItem(|b.result|, if b.err.None? then |key| else 0)
    ensures forall i :: 0 <= i < |r.offsets| && i != b.mapSize ==> r.offsets[i] == b.offsets[i]
    ensures SortBounds(r)
  {
    var offset := |b.result|;
    var b1 := Add(b, key);
    var keyLength := |b1.result| - offset;
    var b2 := Add(b1, value);
    b2.(offsets := b2.offsets[b2.mapSize := MapItem(offset, keyLength)], mapSize := b2.mapSize + 1)
  }

  // The correspondence with the abstract entries.

  /**
   * From byte `start` on, the builder holds exactly the entries es, and the
   * first |es| descriptors point at their keys.
   */
  ghost predicate Represents(b: Builder, start: nat, es: seq<Entry>) {
    && b.mapSize == |es|
    && start <= |b.result|
    && b.result[start..] == Flatten(es)
    && Describes(b.offsets, start, es)
  }

  /** The first |es| descriptors point at the entries of a body that starts at `start`. */
  ghost predicate Describes(offsets: seq<MapItem>, start: nat, es: seq<Entry>) {
    && |es| <= |offsets|
    && forall i {:trigger offsets[i]} :: 0 <= i < |es| ==> offsets[i] == MapItem(start + |Flatten(es[..i])|, |es[i].key|)
  }

  /** The entry a call to AddMapItem contributes: nothing at all once an error is set. */
  function Contributed(b: Builder, key: seq<byte>, value: seq<byte>): (e: Entry)
    ensures b.err.None? ==> e == Entry(key, value)
    ensures b.err.Some? ==> e.key == [] && e.value == []
  {
    if b.err.Some? then Entry([], []) else Entry(key, value)
  }

  /** The bytes of entry i are where its descriptor says, and its key is what `keyFn` slices. */
  lemma EntryAt(b: Builder, start: nat, es: seq<Entry>, i: nat)
    requires Represents(b, start, es) && i < |es|
    ensures b.offsets[i].offset + b.offsets[i].keyLength <= |b.result|
    ensures b.offsets[i].offset <= start + |Flatten(es[..|es| - 1])|
    ensures KeyOf(b, i) == es[i].key
  {
    FlattenAt(es, i);
    var off := |Flatten(es[..i])|;
    var rest := b.result[start..];
    assert rest[off..][..|es[i].key|] == es[i].key;
    assert b.result[start + off..] == rest[off..];
    if i < |es| - 1 {
      assert es[..|es| - 1] == es[..i] + es[i..|es| - 1];
      FlattenAppend(es[..i], es[i..|es| - 1]);
    }
  }

  /** The bounds the item operations need follow from the correspondence. */
  lemma RepresentsInBounds(b: Builder, start: nat, es: seq<Entry>)
    requires Represents(b, start, es)
    ensures ItemsInBounds(b)
    ensures |b.result| == start + |Flatten(es)|
    ensures forall i {:trigger es[i]} :: 0 <= i < |es| ==> KeyOf(b, i) == es[i].key
    ensures |es| > 0 ==> SortBounds(b)
  {
    forall i | 0 <= i < |es|
      ensures b.offsets[i].offset + b.offsets[i].keyLength <= |b.result|
      ensures KeyOf(b, i) == es[i].key
      ensures b.offsets[i].offset <= start + |Flatten(es[..|es| - 1])|
    {
      EntryAt(b, start, es, i);
    }
  }

  /** Moving the last run X|B|L to just after X, the two copies of `sort`, yields X|L|B. */
  lemma MoveLastBytes(x: seq<byte>, b: seq<byte>, l: seq<byte>)
    ensures var r := x + b + l;
      CopyInto(CopyInto(r, |x| + |l|, r[|x|..]), |x|, l) == x + l + b
  {
    var r := x + b + l;
    var shifted := CopyInto(r, |x| + |l|, r[|x|..]);
    CopyIntoAt(r, |x| + |l|, r[|x|..]);
    assert shifted[..|x|] == x;
    assert shifted[|x| + |l|..] == b;
    var placed := CopyInto(shifted, |x|, l);
    CopyIntoAt(shifted, |x|, l);
    assert placed[..|x|] == x;
    assert placed[|x|..|x| + |l|] == l;
    assert placed[|x| + |l|..] == b;
    assert placed == placed[..|x|] + placed[|x|..|x| + |l|] + placed[|x| + |l|..];
  }

  /** A map body split at entry idx, with one more entry after it. */
  lemma SplitBody(result: seq<byte>, start: nat, es: seq<Entry>, e: Entry, idx: nat)
    requires start <= |result| && result[start..] == Flatten(es + [e]) && idx <= |es|
    ensures result == result[..start] + Flatten(es[..idx]) + Flatten(es[idx..]) + (e.key + e.value)
  {
    var p, a, c := result[..start], Flatten(es[..idx]), Flatten(es[idx..]);
    FlattenSnoc(es, e);
    FlattenSplit(es, idx);
    SplitAt(result, start);
    Regroup(p, a, c, e.key, e.value);
  }

  lemma FlattenSplit(es: seq<Entry>, idx: nat)
    requires idx <= |es|
    ensures Flatten(es) == Flatten(es[..idx]) + Flatten(es[idx..])
  {
    SplitAt(es, idx);
    FlattenAppend(es[..idx], es[idx..]);
  }

  lemma Regroup(p: seq<byte>, a: seq<byte>, c: seq<byte>, k: seq<byte>, v: seq<byte>)
    ensures p + (((a + c) + k) + v) == ((p + a) + c) + (k + v)
  {
    Assoc(a + c, k, v);
    Assoc(p, a + c, k + v);
    Assoc(p, a, c);
  }

  /** Where the bytes sit before the move: prefix, entries before idx, entries from idx, the last entry. */
  lemma LayoutBeforeMove(b: Builder, start: nat, es: seq<Entry>, e: Entry, idx: nat)
    requires Represents(b, start, es + [e]) && idx < |es|
    ensures b.result == b.result[..start] + Flatten(es[..idx]) + Flatten(es[idx..]) + (e.key + e.value)
    ensures b.offsets[|es|].offset == start + |Flatten(es[..idx])| + |Flatten(es[idx..])|
    ensures b.offsets[idx].offset == start + |Flatten(es[..idx])|
  {
    SplitBody(b.result, start, es, e, idx);
    var all := es + [e];
    assert b.offsets[|es|].offset == start + |Flatten(all[..|es|])|;
    assert all[..|es|] == es;
    SplitAt(es, idx);
    FlattenAppend(es[..idx], es[idx..]);
    assert b.offsets[idx].offset == start + |Flatten(all[..idx])|;
    assert all[..idx] == es[..idx];
  }

  /** The body after the move, entry by entry. */
  lemma FlattenMoved(es: seq<Entry>, e: Entry, idx: nat)
    requires idx <= |es|
    ensures Flatten(es[..idx] + [e] + es[idx..]) == Flatten(es[..idx]) + (e.key + e.value) + Flatten(es[idx..])
  {
    FlattenAppend(es[..idx] + [e], es[idx..]);
    FlattenSnoc(es[..idx], e);
    Assoc(Flatten(es[..idx]), e.key, e.value);
  }

  lemma MoveLastResult(b: Builder, start: nat, es: seq<Entry>, e: Entry, idx: nat)
    requires Represents(b, start, es + [e]) && SortBounds(b) && idx < |es|
    ensures MoveLast(b, idx).result == b.result[..start] + Flatten(es[..idx] + [e] + es[idx..])
  {
    LayoutBeforeMove(b, start, es, e, idx);
    var p, a, c, l := b.result[..start], Flatten(es[..idx]), Flatten(es[idx..]), e.key + e.value;
    Rearranged(b.result, p, a, c, l, b.offsets[idx].offset, b.offsets[b.mapSize - 1].offset);
    FlattenMoved(es, e, idx);
  }

  /** Cutting P|A|C|L at the run boundaries and putting L before C. */
  lemma Rearranged(r: seq<byte>, p: seq<byte>, a: seq<byte>, c: seq<byte>, l: seq<byte>, to: nat, from: nat)
    requires r == p + a + c + l && to == |p| + |a| && from == to + |c|
    ensures r[..to] + r[from..] + r[to..from] == p + (a + l + c)
  {
    assert r[from..] == l;
    assert r[..to] == p + a;
    assert r[to..from] == c;
    Assoc(p + a, l, c);
    Assoc(p, a, l + c);
    Assoc(a, l, c);
  }

  lemma MoveLastOffsets(b: Builder, start: nat, es: seq<Entry>, e: Entry, idx: nat)
    requires Represents(b, start, es + [e]) && SortBounds(b) && idx < |es|
    ensures Describes(MoveLast(b, idx).offsets, start, es[..idx] + [e] + es[idx..])
  {
    LastEntry(b, start, es, e);
    ShiftDescribes(b.offsets, MoveLast(b, idx).offsets, start, es, e, idx);
  }

  /** The last descriptor covers exactly the last entry, which runs to the end of the result. */
  lemma LastEntry(b: Builder, start: nat, es: seq<Entry>, e: Entry)
    requires Represents(b, start, es + [e])
    ensures b.offsets[|es|].keyLength == |e.key|
    ensures |b.result| - b.offsets[|es|].offset == |e.key| + |e.value|
  {
    var all := es + [e];
    assert b.offsets[|es|] == MapItem(start + |Flatten(all[..|es|])|, |all[|es|].key|);
    assert all[..|es|] == es;
    FlattenSnoc(es, e);
    assert |b.result| == start + |b.result[start..]|;
  }

  /** Shifting the descriptors as `sort` does describes the body with the last entry moved to idx. */
  lemma ShiftDescribes(before: seq<MapItem>, after: seq<MapItem>, start: nat, es: seq<Entry>, e: Entry, idx: nat)
    requires idx < |es| && Describes(before, start, es + [e]) && |after| == |before|
    requires before[|es|].keyLength == |e.key|
    requires forall j :: 0 <= j < |after| ==> after[j] == ShiftedItem(before, idx, |es|, |e.key| + |e.value|, j)
    ensures Describes(after, start, es[..idx] + [e] + es[idx..])
  {
    var all := es + [e];
    var moved := es[..idx] + [e] + es[idx..];
    forall j | 0 <= j < |moved|
      ensures after[j] == MapItem(start + |Flatten(moved[..j])|, |moved[j].key|)
    {
      assert after[j] == ShiftedItem(before, idx, |es|, |e.key| + |e.value|, j);
      if j < idx {
        assert before[j] == MapItem(start + |Flatten(all[..j])|, |all[j].key|);
        assert moved[..j] == all[..j];
      } else if j == idx {
        assert before[idx] == MapItem(start + |Flatten(all[..idx])|, |all[idx].key|);
        assert moved[..j] == es[..idx] && all[..idx] == es[..idx];
      } else {
        assert before[j - 1] == MapItem(start + |Flatten(all[..j - 1])|, |all[j - 1].key|);
        MovedPrefix(es, e, idx, j);
      }
    }
  }

  /** Past the moved entry, each prefix of the new order is one entry longer than the old prefix before it. */
  lemma MovedPrefix(es: seq<Entry>, e: Entry, idx: nat, j: nat)
    requires idx < j <= |es|
    ensures var moved := es[..idx] + [e] + es[idx..];
      && moved[j] == (es + [e])[j - 1]
      && |Flatten(moved[..j])| == |Flatten((es + [e])[..j - 1])| + |e.key| + |e.value|
  {
    var moved := es[..idx] + [e] + es[idx..];
    assert moved[..j] == es[..idx] + [e] + es[idx..j - 1];
    assert (es + [e])[..j - 1] == es[..idx] + es[idx..j - 1];
    FlattenAppend(es[..idx] + [e], es[idx..j - 1]);
    FlattenSnoc(es[..idx], e);
    FlattenAppend(es[..idx], es[idx..j - 1]);
  }

  /**
   * `sort` on a map whose items before the last are sorted: the last entry
   * ends up exactly where the reference insertion puts it.
   */
  lemma SortInserts(b: Builder, start: nat, es: seq<Entry>, e: Entry)
    requires Represents(b, start, es + [e]) && SortBounds(b)
    requires Sorted(b.modeSort, es)
    ensures Represents(Sort(b), start, InsertSorted(b.modeSort, es, e))
    ensures Sort(b).result[..start] == b.result[..start]
  {
    var idx := InsertionIndex(b);
    SearchFindsInsertionPoint(b, start, es, e);
    InsertSortedSplits(b.modeSort, es, e);
    if idx < |es| {
      MoveLastRepresents(b, start, es, e, idx);
    } else {
      InsertAtEnd(es, e);
    }
  }

  lemma InsertAtEnd(es: seq<Entry>, e: Entry)
    ensures es[..|es|] + [e] + es[|es|..] == es + [e]
  {
    assert es[..|es|] == es;
  }

  /** Moving the last entry to idx represents the entries with e inserted at idx. */
  lemma MoveLastRepresents(b: Builder, start: nat, es: seq<Entry>, e: Entry, idx: nat)
    requires Represents(b, start, es + [e]) && SortBounds(b) && idx < |es|
    ensures Represents(MoveLast(b, idx), start, es[..idx] + [e] + es[idx..])
    ensures MoveLast(b, idx).result[..start] == b.result[..start]
  {
    var moved := es[..idx] + [e] + es[idx..];
    MoveLastResult(b, start, es, e, idx);
    MoveLastOffsets(b, start, es, e, idx);
    assert MoveLast(b, idx).result[start..] == Flatten(moved);
  }

  /**
   * With the earlier keys sorted, the binary search stops at the first key the
   * new key sorts at or before: the reference insertion point.
   */
  lemma SearchFindsInsertionPoint(b: Builder, start: nat, es: seq<Entry>, e: Entry)
    requires Represents(b, start, es + [e])
    requires Sorted(b.modeSort, es)
    ensures InsertionIndex(b) == FirstNotBefore(b.modeSort, es, e.key)
  {
    KeysOfAll(b, start, es, e);
    SearchKeysFindsFirst(b.modeSort, Keys(b, |es|), es, e.key);
  }

  /** On keys that are the sorted entries' keys, the search returns the reference insertion point. */
  lemma SearchKeysFindsFirst(mode: ModeSort, keys: seq<seq<byte>>, es: seq<Entry>, x: seq<byte>)
    requires |keys| == |es| && forall i :: 0 <= i < |es| ==> keys[i] == es[i].key
    requires Sorted(mode, es)
    ensures SearchKeys(mode, keys, x) == FirstNotBefore(mode, es, x)
  {
    var idx := SearchKeys(mode, keys, x);
    if idx > 0 {
      assert keys[idx - 1] == es[idx - 1].key;
    }
    if idx < |es| {
      assert keys[idx] == es[idx].key;
    }
    SwitchPointIsFirst(mode, es, x, idx);
  }

  /** The stored keys are the entries' keys, and the last one is the new entry's. */
  lemma KeysOfAll(b: Builder, start: nat, es: seq<Entry>, e: Entry)
    requires Represents(b, start, es + [e])
    ensures forall i :: 0 <= i < |es| ==> Keys(b, |es|)[i] == es[i].key
    ensures KeyOf(b, |es|) == e.key
  {
    RepresentsInBounds(b, start, es + [e]);
    assert (es + [e])[|es|] == e;
    forall i | 0 <= i < |es|
      ensures Keys(b, |es|)[i] == es[i].key
    {
      KeysAt(b, |es|, i);
      assert (es + [e])[i] == es[i];
    }
  }

  lemma {:induction false} KeysAt(b: Builder, n: nat, i: nat)
    requires i < n
    ensures Keys(b, n)[i] == KeyOf(b, i)
    decreases n
  {
    if i < n - 1 {
      KeysAt(b, n - 1, i);
    }
  }

  /** In sorted keys, a point where "key sorts at or before" switches on is the first such point. */
  lemma SwitchPointIsFirst(mode: ModeSort, es: seq<Entry>, key: seq<byte>, idx: nat)
    requires Sorted(mode, es) && idx <= |es|
    requires idx == 0 || !KeyLessEq(mode, key, es[idx - 1].key)
    requires idx == |es| || KeyLessEq(mode, key, es[idx].key)
    ensures idx == FirstNotBefore(mode, es, key)
  {
    var p := FirstNotBefore(mode, es, key);
    if p < idx - 1 {
      KeyLessEqTransitive(mode, key, es[p].key, es[idx - 1].key);
    }
  }

  /**
   * One `addMapItem` call on a map that holds es: the map then holds es with
   * the contributed entry inserted as the sort mode dictates.
   */
  lemma AddMapItemInserts(b: Builder, start: nat, es: seq<Entry>, key: seq<byte>, value: seq<byte>)
    requires Represents(b, start, es) && b.mapSize < |b.offsets|
    requires b.modeSort != SortNone ==> Sorted(b.modeSort, es)
    ensures ItemsInBounds(b)
    ensures Represents(AddMapItem(b, key, value), start, Insert(b.modeSort, es, Contributed(b, key, value)))
    ensures AddMapItem(b, key, value).result[..start] == b.result[..start]
  {
    RepresentsInBounds(b, start, es);
    var e := Contributed(b, key, value);
    AppendItemRepresents(b, start, es, key, value);
    if b.modeSort != SortNone {
      SortInserts(AppendItem(b, key, value), start, es, e);
    }
  }

  /** Before sorting, the new entry is simply the last one. */
  lemma AppendItemRepresents(b: Builder, start: nat, es: seq<Entry>, key: seq<byte>, value: seq<byte>)
    requires Represents(b, start, es) && b.mapSize < |b.offsets| && ItemsInBounds(b)
    ensures Represents(AppendItem(b, key, value), start, es + [Contributed(b, key, value)])
  {
    var e := Contributed(b, key, value);
    var r := AppendItem(b, key, value);
    var all := es + [e];
    assert r.result == b.result + e.key + e.value;
    assert |b.result| == start + |Flatten(es)| by {
      SplitAt(b.result, start);
    }
    FlattenSnoc(es, e);
    assert b.result[start..] + e.key + e.value == (b.result + e.key + e.value)[start..];
    forall i | 0 <= i < |all|
      ensures r.offsets[i] == MapItem(start + |Flatten(all[..i])|, |all[i].key|)
    {
      if i < |es| {
        assert b.offsets[i] == MapItem(start + |Flatten(es[..i])|, |es[i].key|);
        assert all[..i] == es[..i];
      } else {
        assert all[..i] == es;
      }
    }
  }

  // A whole map, as a caller writes it.

  /** Where the map body starts: after the header, or nowhere new once an error is set. */
  function MapStart(b: Builder, length: nat): (start: nat)
    requires length < 0x1_0000_0000_0000_0000
    ensures b.err.None? ==> start == |b.result| + |Head(TypeMap, length)|
    ensures b.err.Some? ==> start == |b.result|
  {
    if b.err.Some? then |b.result| else |b.result| + |Head(TypeMap, length)|
  }

  /** The entries the items contribute: all empty once an error is set. */
  function Effective(b: Builder, items: seq<Entry>): (es: seq<Entry>)
    ensures |es| == |items|
    ensures forall i :: 0 <= i < |items| ==> es[i] == Contributed(b, items[i].key, items[i].value)
  {
    if |items| == 0 then []
    else Effective(b, items[..|items| - 1]) + [Contributed(b, items[|items| - 1].key, items[|items| - 1].value)]
  }

  /** Right after `AddMap`, the map body is empty and starts at the end of the header. */
  lemma AddMapStartsEmpty(b: Builder, length: int64)
    requires 0 <= length
    ensures Represents(AddMap(b, length), MapStart(b, length), [])
    ensures AddMap(b, length).result[..MapStart(b, length)] == b.result + (if b.err.None? then Head(TypeMap, length) else [])
  {
    assert Unsigned(length, 0x8000_0000_0000_0000) == length;
    var r := AddMap(b, length);
    var start := MapStart(b, length);
    assert r.result == b.result + (if b.err.None? then Head(TypeMap, length) else []);
    assert r.result[start..] == [];
  }

  /**
   * `AddMap(length)` followed by one item call per entry, for at most `length`
   * entries. The map is the header, then the entries in item order, or
   * insertion-sorted by key when a sort mode is set; after an error nothing is written.
   */
  function EncodeMap(b: Builder, length: int64, items: seq<Entry>): (r: Builder)
    requires |items| <= length
    ensures r.err == b.err && SamePolicies(b, r)
    ensures r.mapSize == |items| && |r.offsets| >= length
    ensures Represents(r, MapStart(b, length), Ordered(b.modeSort, Effective(b, items)))
    ensures r.result[..MapStart(b, length)] == b.result + (if b.err.None? then Head(TypeMap, length) else [])
    ensures b.err.Some? ==> r.result == b.result
    decreases |items|
  {
    if |items| == 0 then
      AddMapStartsEmpty(b, length);
      assert Effective(b, items) == [];
      AddMap(b, length)
    else
      var init := items[..|items| - 1];
      var item := items[|items| - 1];
      var m := EncodeMap(b, length, init);
      var es := Ordered(b.modeSort, Effective(b, init));
      RepresentsInBounds(m, MapStart(b, length), es);
      OrderedSortsAndPermutes(b.modeSort, Effective(b, init));
      AddMapItemInserts(m, MapStart(b, length), es, item.key, item.value);
      assert Effective(b, items) == Effective(b, init) + [Contributed(m, item.key, item.value)];
      AddMapItem(m, item.key, item.value)
  }

  /**
   * The encoded map: header, then the key/value bytes of the entries in their
   * final order, which is sorted and a permutation of the items.
   */
  lemma EncodeMapBytes(b: Builder, length: int64, items: seq<Entry>)
    requires |items| <= length && b.err.None?
    ensures EncodeMap(b, length, items).result == b.result + Head(TypeMap, length) + Flatten(Ordered(b.modeSort, items))
    ensures multiset(Ordered(b.modeSort, items)) == multiset(items)
    ensures b.modeSort != SortNone ==> Sorted(b.modeSort, Ordered(b.modeSort, items))
    ensures b.modeSort == SortNone ==> Ordered(b.modeSort, items) == items
  {
    var r := EncodeMap(b, length, items);
    var start := MapStart(b, length);
    assert Effective(b, items) == items by {
      assert forall i :: 0 <= i < |items| ==> Effective(b, items)[i] == items[i];
    }
    SplitAt(r.result, start);
    OrderedSortsAndPermutes(b.modeSort, items);
  }
}
