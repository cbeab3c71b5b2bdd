/** Dropping an index: deleting from the buffer while iterating over it. */
module IndexDrops {
  import opened Addresses
  import opened Keys
  import opened RedBlack
  import opened NodeTable
  import opened Search
  import opened Arenas
  import opened LogRecords
  import opened ValueLog
  import opened Layering
  import opened Accounting
  import opened Invariants
  import opened Flags
  import opened MemDb
  import opened Iterators
  import opened Listings
  import opened BufferListings
  import opened UnionIters
  import opened UnionStores

  // ---------- an iterator across a deletion ----------

  lemma WhereStands(it: MemdbIterator) returns (k: Key)
    requires it.Valid() && !it.includeFlags && it.curr != NULL
    ensures it.curr in it.db.nodes && k == it.db.nodes[it.curr].key
    ensures k in it.db.index && it.db.index[k] == it.curr && k in Contents(it.db) && AtMost(it.start, k)
    ensures Ahead(it) == Onward(it.start, it.UpperBound(), it.reverse, k)
  {
    hide At, IsRedBlack, Ascending, Linked, Allocated, Total, Fold, Layers, InOrder, Vlog.Valid, Arena.Valid, Less,
         Staged;
    AddrOfKey(it.db.nodes, InOrder(it.db.tree), it.db.index, it.curr);
    it.db.VptrIsNewest(it.curr);
    k := it.db.nodes[it.curr].key;
  }

  /** An iterator stays where it is as long as its node keeps its key and a value. */
  lemma StillStands(it: MemdbIterator, k: Key)
    requires it.db.Valid() && !it.reverse && !it.includeFlags
    requires k in it.db.index && it.db.index[k] == it.curr && k in Contents(it.db) && AtMost(it.start, k)
    ensures it.Valid() && Ahead(it) == Onward(it.start, it.UpperBound(), it.reverse, k)
  {
    hide At, IsRedBlack, Ascending, Linked, Allocated, Total, Fold, Layers, InOrder, Vlog.Valid, Arena.Valid, Less,
         Staged;
    IndexedAddr(it.db.nodes, InOrder(it.db.tree), it.db.index, k);
    it.db.VptrIsNewest(it.curr);
    it.OrderInTable();
  }

  /** What a deletion does to a listing: the entry becomes a tombstone if it is the first one, and a key outside the
      range does not matter. */
  lemma ListingAfterDelete(d: seq<Entry>, c: map<Key, Value>, range: iset<Key>, key: Key)
    requires Lists(d, c, range, false) && (key in range ==> d != [] && d[0].key == key)
    ensures Lists(if key in range then [Entry(key, [])] + d[1..] else d, c[key := []], range, false)
  {
    hide Less;
    if key in range {
      TailMembers(d, false);
      ConsSorted(Entry(key, []), d[1..], false);
      var d' := [Entry(key, [])] + d[1..];
      forall e | e in d[1..] ensures e.key != key {
        PrecedesAsymmetric(key, e.key, false);
      }
      forall k | k in c[key := []] && k in range ensures Entry(k, c[key := []][k]) in d' {
        if k == key { assert d'[0] == Entry(key, []); } else { assert Entry(k, c[k]) in d[1..]; }
      }
    }
  }

  /** The iterator after the deletion of a key that is the first one ahead of it, or not ahead. */
  lemma RemainingAfterDelete(it: MemdbIterator, d: seq<Entry>, c: map<Key, Value>, range: iset<Key>, key: Key, k: Key)
    requires it.db.Valid() && !it.reverse && !it.includeFlags && Contents(it.db) == c[key := []]
    requires it.curr == NULL ==> range == iset{}
    requires it.curr != NULL ==>
               && range == Onward(it.start, it.UpperBound(), false, k) && AtMost(it.start, k)
               && k in it.db.index && it.db.index[k] == it.curr && k in Contents(it.db)
    requires Lists(d, c, range, false) && (key in range ==> d != [] && d[0].key == key)
    ensures it.Valid() && Remaining(it) == if key in range then [Entry(key, [])] + d[1..] else d
  {
    hide MemDb.Valid, Contents, Remaining, Onward, Sorted, Less;
    if it.curr != NULL { StillStands(it, k); }
    RemainingLists(it);
    ListingAfterDelete(d, c, range, key);
    var d' := if key in range then [Entry(key, [])] + d[1..] else d;
    ListsUnique(Remaining(it), d', false);
  }

  /** Where the current key of a union iterator lies: it is the first one ahead in the buffer, or not ahead at all. */
  lemma CurrentAhead(it: UnionIter, key: Key)
    requires it.Valid() && it.isValid && !it.reverse && key == it.Left()[0].key
    requires it.curIsDirty || InRange(key, it.dirtyIt.start, it.dirtyIt.UpperBound())
    ensures key in Ahead(it.dirtyIt) ==> it.curIsDirty
    ensures it.curIsDirty ==> it.D() != [] && it.D()[0].key == key && key in Ahead(it.dirtyIt)
  {
    hide MemDb.Valid, Fold, Path, Select, Less, InOrder, From, EntriesOf, Sorted, Merge, MemdbIterator.Order;
    var d := it.dirtyIt;
    RemainingHead(d);
    if it.curIsDirty {
      RemainingLists(d);
      assert it.D()[0] in it.D();
    } else if d.curr != NULL {
      var ck := WhereStands(d);
      if d.IsValid() {
        PrecedesAsymmetric(key, ck, false);
      } else if key in Ahead(d) {
        d.LessTotalOf(ck);
        if key != ck { LessTransitive(ck, key, d.end.value); }
      }
    }
  }

  /** Deleting under an iterator of the buffer, either the entry it stands on or a key that it has not got. */
  method DeleteUnder(d: MemdbIterator, key: Key) returns (err: Error)
    requires d.Valid() && !d.reverse && !d.includeFlags && d.db.HasRoom() && |key| <= MAX_KEY_LEN
    requires key in Ahead(d) ==> Remaining(d) != [] && Remaining(d)[0].key == key
    modifies d.db, d.db.nodeMem, d.db.vlog, d.db.vlog.mem
    ensures d.db.Valid() && (err == EntryTooLarge <==> |key| > d.db.entrySizeLimit)
    ensures err == NoError || err == EntryTooLarge || (err == TxnTooLarge && d.db.size > d.db.bufferSizeLimit)
    ensures d.db.View() == old(Write(d.db.View(), d.db.entrySizeLimit, key, Some([]), []))
    ensures d.db.Blocks() <= old(d.db.Blocks()) + 1
    ensures |key| <= d.db.entrySizeLimit ==>
              && Contents(d.db) == old(Contents(d.db))[key := []] && d.Valid()
              && Remaining(d) == old(if key in Ahead(d) then [Entry(key, [])] + Remaining(d)[1..] else Remaining(d))
  {
    hide MemDb.Valid, Contents, Remaining, Onward, Sorted, Lists, MemDb.View, Write, Less, Flatten, Logged, Dirties;
    RemainingLists(d);
    var db := d.db;
    ghost var k: Key := [];
    if d.curr != NULL { k := WhereStands(d); }
    ContentsIsFlat(db);
    err := db.Delete(key);
    ContentsIsFlat(db);
    if |key| <= db.entrySizeLimit {
      WriteContents(old(db.View()), db.entrySizeLimit, key);
      RemainingAfterDelete(d, old(Remaining(d)), old(Contents(db)), old(Ahead(d)), key, k);
    }
  }

  /** Deletes the current entry.  The iterator stays on it, and what comes after it stays the same. */
  method DeleteCurrent(us: UnionStore, it: UnionIter) returns (key: Key, err: Error)
    requires us.Valid() && it.dirtyIt.db == us.memBuffer && !it.reverse && it.Valid() && it.isValid
    requires InRange(it.Left()[0].key, it.dirtyIt.start, it.dirtyIt.UpperBound())
    requires us.memBuffer.HasRoom() && |it.Left()[0].key| <= MAX_KEY_LEN
    modifies us.memBuffer, us.memBuffer.nodeMem, us.memBuffer.vlog, us.memBuffer.vlog.mem
    ensures us.Valid() && key == old(it.Left()[0].key)
    ensures err == EntryTooLarge <==> |key| > us.memBuffer.entrySizeLimit
    ensures err == NoError || err == EntryTooLarge
         || (err == TxnTooLarge && us.memBuffer.size > us.memBuffer.bufferSizeLimit)
    ensures us.memBuffer.View() == old(Write(us.memBuffer.View(), us.memBuffer.entrySizeLimit, it.Left()[0].key,
                                             Some([]), []))
    ensures us.memBuffer.Blocks() <= old(us.memBuffer.Blocks()) + 1
    ensures |key| <= us.memBuffer.entrySizeLimit ==>
              && Contents(us.memBuffer) == old(Contents(us.memBuffer))[key := []]
              && it.Based() && (if it.curIsDirty then it.D() else it.S()) != [] && it.Rest() == old(it.Rest())
  {
    hide MemDb.Valid, MemdbIterator.Valid, Contents, Remaining, Ahead, Sorted, Merge, MemDb.View, Write, Less, InRange;
    key := it.GetKey();
    CurrentAhead(it, key);
    err := DeleteUnder(it.dirtyIt, key);
  }

  lemma WriteContents(b: Buffer, limit: nat, key: Key)
    requires b.layers != [] && |key| <= limit
    ensures Write(b, limit, key, Some([]), []).layers == PutTop(b.layers, key, [])
    ensures Flatten(PutTop(b.layers, key, [])) == Flatten(b.layers)[key := []]
  {
    FlattenPut(b.layers, key, []);
  }

  lemma WriteTooLarge(b: Buffer, limit: nat, key: Key)
    requires b.layers != [] && |key| > limit
    ensures Write(b, limit, key, Some([]), []) == b
  {
  }

  // ---------- many deletions ----------

  /** Deleting keys one after the other. */
  ghost function DeleteAll(b: Buffer, limit: nat, ks: seq<Key>): (r: Buffer)
    requires b.layers != []
    ensures r.layers != []
  {
    if ks == [] then b else Write(DeleteAll(b, limit, ks[..|ks| - 1]), limit, ks[|ks| - 1], Some([]), [])
  }

  ghost function Without(m: map<Key, Value>, ks: seq<Key>): map<Key, Value> {
    map k | k in m && k !in ks :: m[k]
  }

  /** Deleted keys read as nothing, all others as before. */
  lemma {:induction false} DeleteAllReads(b: Buffer, limit: nat, ks: seq<Key>, snap: map<Key, Value>)
    requires b.layers != [] && forall k | k in ks :: |k| <= limit
    ensures Overlay(snap, Flatten(DeleteAll(b, limit, ks).layers)) == Without(Overlay(snap, Flatten(b.layers)), ks)
  {
    hide Overlay, Flatten, Write, PutTop;
    if ks == [] {
      assert Without(Overlay(snap, Flatten(b.layers)), ks) == Overlay(snap, Flatten(b.layers));
    } else {
      var front, last := ks[..|ks| - 1], ks[|ks| - 1];
      assert ks == front + [last];
      DeleteAllReads(b, limit, front, snap);
      var b1 := DeleteAll(b, limit, front);
      WriteContents(b1, limit, last);
      OverlayDelete(snap, Flatten(b1.layers), last);
      WithoutMore(Overlay(snap, Flatten(b.layers)), front, last);
    }
  }

  lemma WithoutMore(m: map<Key, Value>, ks: seq<Key>, k: Key)
    ensures Without(m, ks) - {k} == Without(m, ks + [k])
  {
  }

  lemma OverlayDelete(snap: map<Key, Value>, buf: map<Key, Value>, k: Key)
    ensures Overlay(snap, buf[k := []]) == Overlay(snap, buf) - {k}
  {
    hide Overlay;
    OverlayAt(snap, buf);
    OverlayAt(snap, buf[k := []]);
  }

  /** A listing has no more entries than the map. */
  lemma {:induction false} ListingLength(es: seq<Entry>, m: map<Key, Value>, reverse: bool)
    requires Sorted(es, reverse) && forall e | e in es :: e.key in m
    ensures |es| <= |m|
  {
    hide Less;
    if es != [] {
      TailMembers(es, reverse);
      forall e | e in es[1..] ensures e.key != es[0].key { PrecedesAsymmetric(es[0].key, e.key, reverse); }
      assert es[0] in es;
      ListingLength(es[1..], m - {es[0].key}, reverse);
    }
  }

  // ---------- the index ----------

  datatype DropResult = Dropped | IterFailed | DeleteFailed(err: Error)

  /** The keys that dropping an index with this prefix removes: those with the prefix.  If the prefix is all 255, the
      range that is walked holds only the prefix itself. */
  predicate Removes(prefix: Key, k: Key) {
    HasPrefix(k, prefix) && (AllMax(prefix) ==> k == prefix)
  }

  lemma RemovedRange(prefix: Key, k: Key)
    ensures Removes(prefix, k) <==> InRange(k, prefix, Some(PrefixNext(prefix))) && HasPrefix(k, prefix)
  {
    if AllMax(prefix) { AllMaxRange(prefix, k); } else { PrefixRange(prefix, k); }
  }

  /** Every key with the prefix is removed exactly if some byte of the prefix is below 255. */
  lemma RemovesAll(prefix: Key)
    ensures (forall k | HasPrefix(k, prefix) :: Removes(prefix, k)) <==> !AllMax(prefix)
  {
    var longer := prefix + [0];
    assert HasPrefix(longer, prefix) && longer != prefix;
  }

  /** Behind a key of the range without the prefix there is none with it, so stopping there misses nothing. */
  lemma NoneBehind(prefix: Key, x: Key, y: Key)
    requires AtMost(prefix, x) && Less(x, y) && !HasPrefix(x, prefix)
    ensures !HasPrefix(y, prefix)
  {
    if HasPrefix(y, prefix) {
      assert prefix + [] == prefix && y == prefix + y[|prefix|..];
      Squeezed(prefix, [], y[|prefix|..], x);
    }
  }

  ghost predicate Walked(l: seq<Entry>, gone: seq<Key>, prefix: Key) {
    && |gone| <= |l| && (forall j | 0 <= j < |gone| :: gone[j] == l[j].key && HasPrefix(gone[j], prefix))
  }

  lemma NothingWalked(l: seq<Entry>, prefix: Key)
    ensures Walked(l, [], prefix) && l[0..] == l
  {
  }

  lemma WalkedKeys(l: seq<Entry>, gone: seq<Key>, prefix: Key, m: map<Key, Value>)
    requires Walked(l, gone, prefix) && Lists(l, m, Range(prefix, Some(PrefixNext(prefix))), false)
    ensures |gone| <= |l| && forall k | k in gone :: k in m && Removes(prefix, k)
    ensures |gone| == |l| || !HasPrefix(l[|gone|].key, prefix) ==> forall k | k in m && Removes(prefix, k) :: k in gone
  {
    hide Less, HasPrefix, PrefixNext;
    forall k | k in gone ensures k in m && Removes(prefix, k) {
      var j :| 0 <= j < |gone| && gone[j] == k;
      assert l[j] in l;
      RemovedRange(prefix, k);
    }
    if |gone| == |l| || !HasPrefix(l[|gone|].key, prefix) {
      forall k | k in m && Removes(prefix, k) ensures k in gone {
        RemovedRange(prefix, k);
        var j :| 0 <= j < |l| && l[j] == Entry(k, m[k]);
        if j < |gone| {
          assert gone[j] == k;
        } else if j > |gone| {
          assert l[|gone|] in l;
          NoneBehind(prefix, l[|gone|].key, k);
        }
      }
    }
  }

  /** What the deletions so far have done. */
  ghost predicate Deleted(us: UnionStore, b0: Buffer, m0: map<Key, Value>, gone: seq<Key>)
    reads us.memBuffer, us.memBuffer.nodeMem, us.memBuffer.vlog, us.memBuffer.vlog.mem
  {
    && us.Valid() && b0.layers != []
    && us.memBuffer.View() == DeleteAll(b0, us.memBuffer.entrySizeLimit, gone)
    && m0 == Overlay(us.snapshot.Data(), Flatten(b0.layers))
    && (forall k | k in gone :: |k| <= us.memBuffer.entrySizeLimit)
  }

  lemma NothingDeleted(us: UnionStore)
    requires us.Valid()
    ensures Deleted(us, us.memBuffer.View(), us.Reads(), [])
  {
    hide MemDb.Valid, MemDb.View, Contents, Flatten, Overlay;
    ContentsIsFlat(us.memBuffer);
  }

  lemma DeletedIsValid(us: UnionStore, b0: Buffer, m0: map<Key, Value>, gone: seq<Key>)
    requires Deleted(us, b0, m0, gone)
    ensures us.Valid() && b0.layers != [] && m0 == Overlay(us.snapshot.Data(), Flatten(b0.layers))
    ensures us.memBuffer.View() == DeleteAll(b0, us.memBuffer.entrySizeLimit, gone)
    ensures forall k | k in gone :: |k| <= us.memBuffer.entrySizeLimit
  {
  }

  lemma DeletedReads(us: UnionStore, b0: Buffer, m0: map<Key, Value>, gone: seq<Key>)
    requires Deleted(us, b0, m0, gone)
    ensures us.Valid() && us.Reads() == Without(m0, gone)
    ensures b0.layers != [] && us.memBuffer.View() == DeleteAll(b0, us.memBuffer.entrySizeLimit, gone)
  {
    hide MemDb.Valid, MemDb.View, Contents, Flatten, Overlay, DeleteAll, Without;
    ContentsIsFlat(us.memBuffer);
    DeleteAllReads(b0, us.memBuffer.entrySizeLimit, gone, us.snapshot.Data());
  }

  /** One more deletion; a key that is too long is not deleted. */
  lemma DeletedMore(us: UnionStore, b0: Buffer, m0: map<Key, Value>, gone: seq<Key>, b: Buffer, key: Key)
    requires us.Valid() && b0.layers != [] && m0 == Overlay(us.snapshot.Data(), Flatten(b0.layers))
    requires b == DeleteAll(b0, us.memBuffer.entrySizeLimit, gone)
        && forall k | k in gone :: |k| <= us.memBuffer.entrySizeLimit
    requires us.memBuffer.View() == Write(b, us.memBuffer.entrySizeLimit, key, Some([]), [])
    ensures Deleted(us, b0, m0, if |key| > us.memBuffer.entrySizeLimit then gone else gone + [key])
  {
    hide MemDb.Valid, MemDb.View, Contents, Flatten, Overlay, Write;
    assert (gone + [key])[..|gone|] == gone;
    if |key| > us.memBuffer.entrySizeLimit { WriteTooLarge(b, us.memBuffer.entrySizeLimit, key); }
  }

  /** The iterator stands on the first of what is left of the listing. */
  lemma HeadListed(it: UnionIter, l: seq<Entry>, gone: seq<Key>, prefix: Key, m: map<Key, Value>)
    requires Lists(l, m, Range(prefix, Some(PrefixNext(prefix))), false) && Walked(l, gone, prefix)
    requires it.Valid() && it.isValid && it.Left() == l[|gone|..]
    ensures it.Left() != [] && |gone| < |l| <= |m|
    ensures var key := it.Left()[0].key;
            && l[|gone|].key == key && key in m && InRange(key, prefix, Some(PrefixNext(prefix)))
            && it.Rest() == l[|gone| + 1..] && (HasPrefix(key, prefix) ==> Walked(l, gone + [key], prefix))
  {
    hide Less, MemDb.Valid, Remaining, Merge, PrefixNext, MemdbIterator.Valid;
    var i := |gone|;
    assert it.Left() == [it.Left()[0]] + it.Rest();
    assert l[i..][1..] == l[i + 1..];
    assert l[i] in l;
    ListingLength(l, m, false);
  }

  class Index {
    const prefix: Key

    constructor (prefix: Key)
      ensures this.prefix == prefix
    {
      this.prefix := prefix;
    }

    /** One turn of the loop: deletes the current entry and moves on. */
    method DropOne(us: UnionStore, it: UnionIter, ghost b0: Buffer, ghost m0: map<Key, Value>, ghost l: seq<Entry>,
                   ghost gone: seq<Key>)
      returns (r: DropResult, ghost gone': seq<Key>)
      requires Deleted(us, b0, m0, gone) && us.memBuffer.HasRoom() && Walked(l, gone, prefix)
      requires it.dirtyIt.db == us.memBuffer && !it.reverse && it.Valid() && it.isValid
      requires it.dirtyIt.start == prefix && it.dirtyIt.end == Some(PrefixNext(prefix))
      requires it.Left() == l[|gone|..] && Lists(l, m0, Range(prefix, Some(PrefixNext(prefix))), false)
      requires HasPrefix(it.Left()[0].key, prefix) && |it.Left()[0].key| <= MAX_KEY_LEN
      modifies us.memBuffer, us.memBuffer.nodeMem, us.memBuffer.vlog, us.memBuffer.vlog.mem, it, it.dirtyIt,
          it.snapshotIt
      ensures Deleted(us, b0, m0, gone') && Walked(l, gone', prefix)
      ensures r == Dropped ==>
                && |gone'| == |gone| + 1 <= |l| && us.memBuffer.Blocks() <= old(us.memBuffer.Blocks()) + 1
                && it.Valid() && it.Left() == l[|gone'|..]
      ensures old(it.snapshotIt.failAfter).None? ==> r != IterFailed && it.snapshotIt.failAfter.None?
      ensures r.DeleteFailed? ==>
                || (r.err == EntryTooLarge && |l[|gone|].key| > us.memBuffer.entrySizeLimit)
                || (r.err == TxnTooLarge && us.memBuffer.size > us.memBuffer.bufferSizeLimit)
    {
      hide MemDb.Valid, Contents, Remaining, Onward, Sorted, Merge, Lists, MemDb.View, Write, Less, HasPrefix, Heads,
           MemdbIterator.Valid;
      hide UnionIter.Based, UnionIter.D, UnionIter.Rest, Walked, Deleted, DeleteAll, Without, PrefixNext, Removes,
           Overlay, Flatten;
      gone', r := gone, Dropped;
      DeletedIsValid(us, b0, m0, gone);
      HeadListed(it, l, gone, prefix, m0);
      ghost var b := us.memBuffer.View();
      var key, err := DeleteCurrent(us, it);
      DeletedMore(us, b0, m0, gone, b, key);
      if err != EntryTooLarge {
        gone' := gone + [key];
      }
      if err != NoError {
        return DeleteFailed(err), gone';
      }
      var ok := it.Next();
      if !ok {
        return IterFailed, gone';
      }
    }

    /** Deletes every entry of the index.  `gone` are the keys that were deleted, also if the loop was left early. */
    method Drop(us: UnionStore) returns (r: DropResult, ghost gone: seq<Key>)
      requires us.Valid() && us.memBuffer.Blocks() + |us.Reads()| < MAX_UINT32
      requires forall k | k in us.Reads() :: |k| <= MAX_KEY_LEN
      modifies us.memBuffer, us.memBuffer.nodeMem, us.memBuffer.vlog, us.memBuffer.vlog.mem
      ensures us.Valid() && old(us.memBuffer.View()).layers != []
      ensures us.memBuffer.View() == DeleteAll(old(us.memBuffer.View()), us.memBuffer.entrySizeLimit, gone)
      ensures us.Reads() == Without(old(us.Reads()), gone)
      ensures forall k | k in gone :: k in old(us.Reads()) && Removes(prefix, k)
      ensures r == Dropped ==> forall k | k in old(us.Reads()) && Removes(prefix, k) :: k in gone
      ensures r == IterFailed ==> us.snapshot.failAfter.Some?
      ensures r.DeleteFailed? ==>
                || (r.err == EntryTooLarge
                    && exists k | k in old(us.Reads()) :: Removes(prefix, k) && |k| > us.memBuffer.entrySizeLimit)
                || (r.err == TxnTooLarge && us.memBuffer.size > us.memBuffer.bufferSizeLimit)
    {
      hide MemDb.Valid, Contents, Remaining, Onward, Sorted, Merge, Lists, MemDb.View, Write, Less, HasPrefix, Heads,
           MemdbIterator.Valid;
      hide UnionIter.Based, UnionIter.D, UnionIter.Rest, Walked, Deleted, DeleteAll, Without, PrefixNext, Removes,
           Overlay, Flatten;
      gone, r := [], Dropped;
      ghost var b0, m0 := us.memBuffer.View(), us.Reads();
      NothingDeleted(us);
      var it, ok := us.Iter(prefix, Some(PrefixNext(prefix)));
      if !ok {
        DeletedReads(us, b0, m0, gone);
        return IterFailed, gone;
      }
      ghost var l := it.Left();
      NothingWalked(l, prefix);
      while it.isValid
        invariant |gone| <= |l| && Deleted(us, b0, m0, gone) && Walked(l, gone, prefix)
            && us.memBuffer.Blocks() <= old(us.memBuffer.Blocks()) + |gone|
        invariant it.Valid() && it.Left() == l[|gone|..]
        invariant r == Dropped && (us.snapshot.failAfter.None? ==> it.snapshotIt.failAfter.None?)
        decreases |l| - |gone|
      {
        DeletedIsValid(us, b0, m0, gone);
        HeadListed(it, l, gone, prefix, m0);
        var current := it.GetKey();
        if !HasPrefix(current, prefix) {
          break;
        }
        RemovedRange(prefix, current);
        assert current in m0 && Removes(prefix, current);
        r, gone := DropOne(us, it, b0, m0, l, gone);
        if r != Dropped {
          break;
        }
      }
      WalkedKeys(l, gone, prefix, m0);
      DeletedReads(us, b0, m0, gone);
    }
  }
}
