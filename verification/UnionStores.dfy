/** Reading a transaction: the buffer laid over a snapshot, by key, by batch, and in order. */
module UnionStores {
  import opened Addresses
  import opened Keys
  import opened RedBlack
  import opened NodeTable
  import opened Search
  import opened Arenas
  import opened LogRecords
  import opened ValueLog
  import opened Layering
  import opened Accounting
  import opened Invariants
  import opened MemDb
  import opened Iterators
  import opened Listings
  import opened BufferListings
  import opened UnionIters

  datatype ReadResult = Found(value: Value) | NotExist | Failed

  /** What a transaction reads: an entry of the buffer hides the snapshot's, and a tombstone reads as nothing. */
  function Overlay(snap: map<Key, Value>, buf: map<Key, Value>): map<Key, Value> {
    map k | k in snap.Keys + buf.Keys && (if k in buf then buf[k] != [] else true) ::
      if k in buf then buf[k] else snap[k]
  }

  /** What reading one key finds among some values; one of no bytes is not found. */
  function ReadOne(m: map<Key, Value>, k: Key): ReadResult {
    if k in m && m[k] != [] then Found(m[k]) else NotExist
  }

  lemma ReadOverlaid(snap: map<Key, Value>, buf: map<Key, Value>, k: Key)
    ensures ReadOne(Overlay(snap, buf), k) == if k in buf then ReadOne(buf, k) else ReadOne(snap, k)
  {
    hide Overlay;
    OverlayAt(snap, buf);
  }

  /** Merging two listings lists the overlay. */
  lemma MergeListsOverlay(d: seq<Entry>, s: seq<Entry>, buf: map<Key, Value>, snap: map<Key, Value>, range: iset<Key>,
                          reverse: bool)
    requires Lists(d, buf, range, reverse) && Lists(s, snap, range, reverse)
    ensures Lists(Merge(d, s, reverse), Overlay(snap, buf), range, reverse)
  {
    hide Merge, Sorted;
    MergeIsOverlay(d, s, reverse);
    forall k | k in range ensures HasKey(d, k) <==> k in buf {
      if HasKey(d, k) {
        var i :| 0 <= i < |d| && d[i].key == k;
        assert d[i] in d;
      }
      if k in buf {
        var i :| 0 <= i < |d| && d[i] == Entry(k, buf[k]);
      }
    }
    var o := Overlay(snap, buf);
    forall e | e in Merge(d, s, reverse) ensures e.key in range && e.key in o && o[e.key] == e.value {
      assert Overlaid(d, s, e);
    }
    forall k | k in o && k in range ensures Entry(k, o[k]) in Merge(d, s, reverse) {
      assert Overlaid(d, s, Entry(k, o[k]));
    }
  }

  // ---------- the snapshot ----------

  function Within(es: seq<Entry>, lo: Key, hi: Option<Key>): seq<Entry> {
    if es == [] then []
    else (if InRange(es[0].key, lo, hi) then [es[0]] else []) + Within(es[1..], lo, hi)
  }

  lemma {:induction false} WithinIs(es: seq<Entry>, lo: Key, hi: Option<Key>)
    requires Sorted(es, false)
    ensures Sorted(Within(es, lo, hi), false)
    ensures forall e :: e in Within(es, lo, hi) <==> e in es && InRange(e.key, lo, hi)
  {
    hide Less;
    if es != [] {
      TailMembers(es, false);
      WithinIs(es[1..], lo, hi);
      ConsSorted(es[0], Within(es[1..], lo, hi), false);
    }
  }

  lemma ReversedSorted(es: seq<Entry>)
    requires Sorted(es, false)
    ensures Sorted(Reversed(es), true) && forall e :: e in Reversed(es) <==> e in es
  {
    var r := Reversed(es);
    assert forall i | 0 <= i < |es| :: es[i] == r[|es| - 1 - i];
    assert forall i | 0 <= i < |es| :: r[i] == es[|es| - 1 - i];
  }

  /** A snapshot, of which only this is known: it holds fixed entries, and its calls may fail. */
  class KvSnapshot {
    const entries: seq<Entry>
    const failAfter: Option<nat>

    ghost predicate Valid() {
      Sorted(entries, false)
    }

    /** The first entry with a key, as the map sees it; there is only one. */
    ghost function Data(): (m: map<Key, Value>)
      requires Valid()
      ensures forall e | e in entries :: e.key in m && m[e.key] == e.value
      ensures forall k | k in m :: Entry(k, m[k]) in entries
    {
      OneEntryPerKey();
      map e | e in entries :: e.key := e.value
    }

    lemma OneEntryPerKey()
      requires Valid()
      ensures forall e, f | e in entries && f in entries && e.key == f.key :: e == f
    {
      forall e, f | e in entries && f in entries && e.key == f.key ensures e == f {
        var i :| 0 <= i < |entries| && entries[i] == e;
        var j :| 0 <= j < |entries| && entries[j] == f;
        if i < j { PrecedesAsymmetric(e.key, f.key, false); }
        if j < i { PrecedesAsymmetric(f.key, e.key, false); }
      }
    }

    method Get(key: Key) returns (r: ReadResult)
      requires Valid()
      ensures failAfter != Some(0) ==> r == if key in Data() then Found(Data()[key]) else NotExist
      ensures failAfter == Some(0) ==> r == Failed
    {
      if failAfter == Some(0) {
        return Failed;
      }
      for i := 0 to |entries|
        invariant forall j | 0 <= j < i :: entries[j].key != key
      {
        if entries[i].key == key {
          assert entries[i] in entries;
          return Found(entries[i].value);
        }
      }
      r := NotExist;
    }

    method BatchGet(keys: seq<Key>) returns (r: Option<map<Key, Value>>)
      requires Valid()
      ensures r.None? <==> failAfter == Some(0)
      ensures r.Some? ==> r.value == map k | k in keys && k in Data() :: Data()[k]
    {
      hide Sorted;
      ghost var data := Data();
      if failAfter == Some(0) {
        return None;
      }
      OneEntryPerKey();
      r := Some(map e | e in entries && e.key in keys :: e.key := e.value);
    }

    method Iter(lo: Key, hi: Option<Key>) returns (it: KvIter)
      requires Valid()
      ensures fresh(it) && Lists(it.rest, Data(), Range(lo, hi), false) && it.failAfter == failAfter
    {
      hide Sorted;
      WithinIs(entries, lo, hi);
      it := new KvIter(Within(entries, lo, hi), failAfter);
    }

    method IterReverse(hi: Option<Key>) returns (it: KvIter)
      requires Valid()
      ensures fresh(it) && Lists(it.rest, Data(), Range([], hi), true) && it.failAfter == failAfter
    {
      hide Sorted;
      WithinIs(entries, [], hi);
      ReversedSorted(Within(entries, [], hi));
      it := new KvIter(Reversed(Within(entries, [], hi)), failAfter);
    }
  }

  // ---------- the union store ----------

  method NewUnionIter(dirtyIt: MemdbIterator, snapshotIt: KvIter, reverse: bool) returns (it: UnionIter, ok: bool)
    requires dirtyIt.Valid() && !dirtyIt.includeFlags && dirtyIt.reverse == reverse && Sorted(snapshotIt.rest, reverse)
    modifies dirtyIt, snapshotIt
    ensures fresh(it) && it.dirtyIt == dirtyIt && it.snapshotIt == snapshotIt && it.reverse == reverse
    ensures ok ==> it.Valid() && it.Left() == Merge(old(Remaining(dirtyIt)), old(snapshotIt.rest), reverse)
    ensures old(snapshotIt.failAfter).None? ==> ok && snapshotIt.failAfter.None?
  {
    hide MemdbIterator.Valid, Remaining, Sorted, Merge, Heads;
    it := new UnionIter(dirtyIt, snapshotIt, reverse);
    ok := it.UpdateCur();
  }

  /** The value that the buffer has for a key, seen as a map. */
  lemma ContentsLookup(db: MemDb, key: Key)
    requires db.Valid()
    ensures Lookup(db.View().layers, key) == if key in Contents(db) then Some(Contents(db)[key]) else None
  {
    hide MemDb.Valid, Fold, Flatten, Lookup, ByKey;
    ContentsIsFlat(db);
    LookupInFlat(db.View().layers, key);
  }

  class UnionStore {
    const memBuffer: MemDb
    const snapshot: KvSnapshot

    ghost predicate Valid()
      reads memBuffer, memBuffer.nodeMem, memBuffer.vlog, memBuffer.vlog.mem
    {
      memBuffer.Valid() && snapshot.Valid()
    }

    /** What the store reads. */
    ghost function Reads(): map<Key, Value>
      requires Valid()
      reads memBuffer, memBuffer.nodeMem, memBuffer.vlog, memBuffer.vlog.mem
    {
      Overlay(snapshot.Data(), Contents(memBuffer))
    }

    constructor (memBuffer: MemDb, snapshot: KvSnapshot)
      ensures this.memBuffer == memBuffer && this.snapshot == snapshot
    {
      this.memBuffer, this.snapshot := memBuffer, snapshot;
    }

    /** A read succeeds on exactly the keys of the overlay, with their values.  A snapshot's value of no bytes reads as
        nothing here, although the iterator shows it. */
    method Get(k: Key) returns (r: ReadResult)
      requires Valid()
      ensures snapshot.failAfter != Some(0) ==> r == ReadOne(Reads(), k)
      ensures k in Contents(memBuffer) ==> r == ReadOne(Contents(memBuffer), k)
      ensures r == Failed <==> k !in Contents(memBuffer) && snapshot.failAfter == Some(0)
    {
      hide MemDb.Valid, MemDb.View, Contents, Lookup, Overlay, KvSnapshot.Data, KvSnapshot.Valid;
      ContentsLookup(memBuffer, k);
      ReadOverlaid(snapshot.Data(), Contents(memBuffer), k);
      var v := memBuffer.Get(k);
      if v.None? {
        r := snapshot.Get(k);
        if r == NotExist || r == Failed {
          return;
        }
      } else {
        r := Found(v.value);
      }
      if |r.value| == 0 {
        return NotExist;
      }
    }

    /** Iterating shows exactly the overlay in the range, in order. */
    method Iter(k: Key, upperBound: Option<Key>) returns (it: UnionIter, ok: bool)
      requires Valid()
      ensures fresh(it) && fresh(it.dirtyIt) && fresh(it.snapshotIt) && it.dirtyIt.db == memBuffer && !it.reverse
      ensures it.dirtyIt.start == k && it.dirtyIt.end == upperBound
      ensures ok ==> it.Valid() && Lists(it.Left(), Reads(), Range(k, upperBound), false)
      ensures snapshot.failAfter.None? ==> ok && it.snapshotIt.failAfter.None?
    {
      hide MemDb.Valid, Contents, Lookup, Remaining, Lists, MemdbIterator.Valid, Merge, Heads, Sorted;
      var bufferIt := new MemdbIterator(memBuffer, k, upperBound, false, false);
      AllLists(bufferIt);
      var retrieverIt := snapshot.Iter(k, upperBound);
      MergeListsOverlay(Remaining(bufferIt), retrieverIt.rest, Contents(memBuffer), snapshot.Data(),
                        Range(k, upperBound), false);
      SortedListing(retrieverIt.rest, snapshot.Data(), Range(k, upperBound), false);
      it, ok := NewUnionIter(bufferIt, retrieverIt, false);
    }

    /** In reverse from below `k`; an empty bound is none. */
    method IterReverse(k: Option<Key>) returns (it: UnionIter, ok: bool)
      requires Valid()
      ensures fresh(it) && fresh(it.dirtyIt) && fresh(it.snapshotIt) && it.dirtyIt.db == memBuffer && it.reverse
      ensures ok ==> it.Valid() && Lists(it.Left(), Reads(), Range([], if k == Some([]) then None else k), true)
      ensures snapshot.failAfter.None? ==> ok && it.snapshotIt.failAfter.None?
    {
      hide MemDb.Valid, Contents, Lookup, Remaining, Lists, MemdbIterator.Valid, Merge, Heads, Sorted;
      var bufferIt := new MemdbIterator(memBuffer, [], k, true, false);
      AllLists(bufferIt);
      var bound := if k == Some([]) then None else k;
      var retrieverIt := snapshot.IterReverse(bound);
      MergeListsOverlay(Remaining(bufferIt), retrieverIt.rest, Contents(memBuffer), snapshot.Data(), Range([], bound),
                        true);
      SortedListing(retrieverIt.rest, snapshot.Data(), Range([], bound), true);
      it, ok := NewUnionIter(bufferIt, retrieverIt, true);
    }
  }

  lemma SortedListing(es: seq<Entry>, m: map<Key, Value>, range: iset<Key>, reverse: bool)
    requires Lists(es, m, range, reverse)
    ensures Sorted(es, reverse)
  {
  }

  // ---------- batches ----------

  /** What a batch has for a key: the buffer's value, or else the cache's, or else the snapshot's.  A value of no bytes
      is left out, unless it is the snapshot's. */
  function ReadFirst(middle: Option<map<Key, Value>>, buf: map<Key, Value>, snap: map<Key, Value>, k: Key)
    : Option<Value>
  {
    if k in buf then (if buf[k] != [] then Some(buf[k]) else None)
    else if middle.Some? && k in middle.value then (if middle.value[k] != [] then Some(middle.value[k]) else None)
    else if k in snap then Some(snap[k]) else None
  }

  /** The overlay of snapshot, cache and buffer has just that. */
  lemma OverlayReadsFirst(middle: Option<map<Key, Value>>, buf: map<Key, Value>, snap: map<Key, Value>, k: Key)
    ensures var all := Overlay(snap, Early(middle, buf));
            (if k in all then Some(all[k]) else None) == ReadFirst(middle, buf, snap, k)
  {
    hide Overlay, Early;
    EarlyAt(middle, buf);
    OverlayAt(snap, Early(middle, buf));
  }

  /** Reads many keys at once, asking the snapshot only for those that neither the buffer nor the cache in the middle
      has.  With an empty buffer the cache is not asked. */
  method BatchGet(buffer: MemDb, middle: Option<map<Key, Value>>, snapshot: KvSnapshot, keys: seq<Key>)
    returns (r: Option<map<Key, Value>>)
    requires buffer.Valid() && snapshot.Valid()
    ensures r.None? <==> snapshot.failAfter == Some(0)
    ensures var early := if buffer.count == 0 then map[] else Early(middle, Contents(buffer));
            var all := Overlay(snapshot.Data(), early);
            r.Some? ==> r.value == map k | k in keys && k in all :: all[k]
    ensures middle.None? ==> var all := Overlay(snapshot.Data(), Contents(buffer));
                             r.Some? ==> r.value == map k | k in keys && k in all :: all[k]
  {
    hide MemDb.Valid, MemDb.View, Contents, Lookup, Early, Overlay, KvSnapshot.Data, KvSnapshot.Valid;
    EmptyContents(buffer);
    EarlyAt(middle, Contents(buffer));
    OverlayAt(snapshot.Data(), map[]);
    if buffer.count == 0 {
      r := snapshot.BatchGet(keys);
      return;
    }
    var bufferValues, shrinkKeys := ReadEarly(buffer, middle, keys);
    ghost var early := Early(middle, Contents(buffer));
    var storageValues := snapshot.BatchGet(shrinkKeys);
    if storageValues.None? {
      return None;
    }
    var values := AddEarly(keys, bufferValues, storageValues.value, early, snapshot.Data());
    r := Some(values);
  }

  /** Reading one key gives what a batch gives for it, except that a snapshot's value of no bytes which the buffer does
      not hide is in the batch. */
  lemma OneOrMany(snap: map<Key, Value>, buf: map<Key, Value>, keys: seq<Key>, k: Key)
    requires k in keys
    ensures var all := Overlay(snap, buf);
            var batch := map q | q in keys && q in all :: all[q];
            && (ReadOne(all, k) == (if k in batch then Found(batch[k]) else NotExist)
                <==> !(k !in buf && k in snap && snap[k] == []))
            && (k !in buf && k in snap && snap[k] == [] ==>
                  ReadOne(all, k) == NotExist && k in batch && batch[k] == [])
  {
    hide Overlay;
    OverlayAt(snap, buf);
  }

  /** One turn: what the buffer, or else the cache, has for a key. */
  method ReadBefore(buffer: MemDb, middle: Option<map<Key, Value>>, key: Key) returns (val: Option<Value>)
    requires buffer.Valid()
    ensures var early := Early(middle, Contents(buffer));
            val == if key in early then Some(early[key]) else None
  {
    hide MemDb.Valid, Contents, Lookup, Early;
    EarlyAt(middle, Contents(buffer));
    ContentsLookup(buffer, key);
    val := buffer.Get(key);
    if val.Some? {
      return;
    }
    if middle.Some? {
      if key in middle.value {
        return Some(middle.value[key]);
      }
    }
  }

  lemma TakeOneMore(keys: seq<Key>, i: nat)
    requires i < |keys|
    ensures forall k :: k in keys[..i + 1] <==> k in keys[..i] || k == keys[i]
  {
    assert keys[..i + 1] == keys[..i] + [keys[i]];
  }

  lemma AddedKey(keys: seq<Key>, key: Key)
    ensures forall k :: k in keys + [key] <==> k in keys || k == key
  {
  }

  /** The first loop: what the buffer or the cache has, and the keys to ask the snapshot for. */
  method ReadEarly(buffer: MemDb, middle: Option<map<Key, Value>>, keys: seq<Key>)
    returns (bufferValues: array<Value>, shrinkKeys: seq<Key>)
    requires buffer.Valid()
    ensures fresh(bufferValues) && bufferValues.Length == |keys|
    ensures var early := Early(middle, Contents(buffer));
            && (forall j | 0 <= j < |keys| :: bufferValues[j] == if keys[j] in early then early[keys[j]] else [])
            && (forall k :: k in shrinkKeys <==> k in keys && k !in early)
  {
    hide MemDb.Valid, Contents, Lookup, Early;
    bufferValues := new Value[|keys|](_ => []);
    shrinkKeys := [];
    ghost var early := Early(middle, Contents(buffer));
    for i := 0 to |keys|
      invariant forall j | 0 <= j < i :: bufferValues[j] == if keys[j] in early then early[keys[j]] else []
      invariant forall j | i <= j < |keys| :: bufferValues[j] == []
      invariant forall k :: k in shrinkKeys <==> k in keys[..i] && k !in early
    {
      TakeOneMore(keys, i);
      var val := ReadBefore(buffer, middle, keys[i]);
      if val.Some? {
        bufferValues[i] := val.value;
        continue;
      }
      AddedKey(shrinkKeys, keys[i]);
      shrinkKeys := shrinkKeys + [keys[i]];
    }
    assert keys[..|keys|] == keys;
  }

  /** The second loop: adds what was found early and is no tombstone to the snapshot's values. */
  method AddEarly(keys: seq<Key>, bufferValues: array<Value>, storageValues: map<Key, Value>,
                  ghost early: map<Key, Value>, ghost snap: map<Key, Value>)
    returns (values: map<Key, Value>)
    requires bufferValues.Length == |keys|
    requires forall j | 0 <= j < |keys| :: bufferValues[j] == if keys[j] in early then early[keys[j]] else []
    requires storageValues == map k | k in keys && k !in early && k in snap :: snap[k]
    ensures var all := Overlay(snap, early);
            values == map k | k in keys && k in all :: all[k]
  {
    hide Overlay;
    OverlayAt(snap, early);
    values := storageValues;
    for i := 0 to |keys|
      invariant forall k :: k in values <==> k in storageValues || (k in keys[..i] && k in early && early[k] != [])
      invariant forall k | k in values :: values[k] == if k in early then early[k] else snap[k]
    {
      TakeOneMore(keys, i);
      if |bufferValues[i]| == 0 {
        continue;
      }
      values := values[keys[i] := bufferValues[i]];
    }
    assert keys[..|keys|] == keys;
  }

  lemma OverlayAt(snap: map<Key, Value>, buf: map<Key, Value>)
    ensures forall k :: k in Overlay(snap, buf) <==> if k in buf then buf[k] != [] else k in snap
    ensures forall k | k in Overlay(snap, buf) :: Overlay(snap, buf)[k] == if k in buf then buf[k] else snap[k]
    ensures Overlay(snap, map[]) == snap
  {
  }

  /** What the buffer, or else the cache in the middle, has. */
  function Early(middle: Option<map<Key, Value>>, buf: map<Key, Value>): map<Key, Value> {
    middle.GetOr(map[]) + buf
  }

  lemma EarlyAt(middle: Option<map<Key, Value>>, buf: map<Key, Value>)
    ensures middle.None? ==> Early(middle, buf) == buf
    ensures forall k :: k in Early(middle, buf) <==> k in buf || (middle.Some? && k in middle.value)
    ensures forall k | k in Early(middle, buf) :: Early(middle, buf)[k] == if k in buf then buf[k] else middle.value[k]
  {
  }

  lemma EmptyContents(db: MemDb)
    requires db.Valid()
    ensures db.count == 0 ==> Contents(db) == map[]
  {
    hide At, IsRedBlack, Ascending, Linked, Allocated, Total, Fold, Layers, FlagsOf, InOrder, Vlog.Valid, Arena.Valid,
         Staged;
    assert |InOrder(db.tree)| == 0 ==> InOrder(db.tree) == [];
  }
}
