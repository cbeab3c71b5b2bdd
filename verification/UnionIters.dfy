/** The union iterator: a walk over the buffer's entries laid over a snapshot's. */
module UnionIters {
  import opened Addresses
  import opened Keys
  import opened RedBlack
  import opened NodeTable
  import opened Search
  import opened Arenas
  import opened LogRecords
  import opened ValueLog
  import opened Layering
  import opened Accounting
  import opened Invariants
  import opened MemDb
  import opened Iterators
  import opened Listings
  import opened BufferListings

  /** A snapshot's iterator, of which only this is known: it goes through its entries, and a call may fail.
      The call after `failAfter` more ones is the one that fails. */
  class KvIter {
    var rest: seq<Entry>
    var failAfter: Option<nat>

    constructor (entries: seq<Entry>, failAfter: Option<nat>)
      ensures rest == entries && this.failAfter == failAfter
    {
      rest, this.failAfter := entries, failAfter;
    }

    predicate IsValid()
      reads this
    {
      rest != []
    }

    method Next() returns (ok: bool)
      requires IsValid()
      modifies this
      ensures rest == if ok then old(rest)[1..] else old(rest)
      ensures old(failAfter).None? ==> ok && failAfter.None?
    {
      if failAfter == Some(0) {
        return false;
      }
      rest := rest[1..];
      failAfter := if failAfter.Some? then Some(failAfter.value - 1) else None;
      ok := true;
    }
  }

  // ---------- steps of the merge ----------

  /** The comparison that the source makes decides which entry comes first. */
  lemma CompareOrder(d: Key, s: Key, reverse: bool)
    ensures var cmp := if reverse then -Compare(d, s) else Compare(d, s);
            (cmp == 0 <==> d == s) && (cmp > 0 <==> Precedes(s, d, reverse))
  {
    LessTotal(d, s);
    if Less(d, s) { LessAsymmetric(d, s); }
    if Less(s, d) { LessAsymmetric(s, d); }
  }

  /** Whether the next entry of the merge is the buffer's first one, or else the snapshot's. */
  ghost predicate Heads(dirty: bool, d: seq<Entry>, s: seq<Entry>, reverse: bool) {
    && (if dirty then d else s) != []
    && (d != [] && s != [] ==>
      if dirty then Precedes(d[0].key, s[0].key, reverse) else Precedes(s[0].key, d[0].key, reverse))
    && Merge(d, s, reverse) == [(if dirty then d else s)[0]] + RestOf(dirty, d, s, reverse)
  }

  ghost function RestOf(dirty: bool, d: seq<Entry>, s: seq<Entry>, reverse: bool): seq<Entry> {
    if dirty then Merge(Tail(d), s, reverse) else Merge(d, Tail(s), reverse)
  }

  /** What comes next when the buffer has something left.  An entry of the buffer that hides the snapshot's first one
      stays the head when that one is dropped. */
  lemma MergeCases(d: seq<Entry>, s: seq<Entry>, reverse: bool)
    requires Sorted(s, reverse) && d != []
    ensures s == [] || (d[0].key != s[0].key && !Precedes(s[0].key, d[0].key, reverse)) ==>
              if d[0].value == [] then Merge(d[1..], s, reverse) == Merge(d, s, reverse) else Heads(true, d, s, reverse)
    ensures s != [] && Precedes(s[0].key, d[0].key, reverse) ==> Heads(false, d, s, reverse)
    ensures s != [] && d[0].key == s[0].key ==>
              && Merge(d, s[1..], reverse) == Merge(d, s, reverse)
              && if d[0].value == [] then Merge(d[1..], s[1..], reverse) == Merge(d, s, reverse)
                 else Heads(true, d, s[1..], reverse)
  {
    hide Less;
    if s != [] { PrecedesTotal(d[0].key, s[0].key, reverse); }
    if s != [] && d[0].key == s[0].key {
      if s[1..] != [] { PrecedesAsymmetric(s[0].key, s[1].key, reverse); }
      if Precedes(s[0].key, d[0].key, reverse) { PrecedesAsymmetric(s[0].key, d[0].key, reverse); }
    }
  }

  lemma MergeEmpty(s: seq<Entry>, reverse: bool)
    ensures Merge([], s, reverse) == s && (s != [] ==> Heads(false, [], s, reverse))
  {
  }

  /** The entry that the iterator stands on. */
  lemma RemainingHead(it: MemdbIterator)
    requires it.Valid() && !it.includeFlags
    ensures it.curr != NULL ==> it.curr in it.db.nodes
    ensures it.IsValid() <==> Remaining(it) != []
    ensures it.IsValid() ==>
              && it.curr in Fold(it.db.vlog.recs) && it.db.nodes[it.curr].vptr != NULL && it.CurrShown()
              && Remaining(it)[0] == Entry(it.db.nodes[it.curr].key, Fold(it.db.vlog.recs)[it.curr])
  {
    hide MemDb.Valid, Fold, Path, Select, Less, InOrder, From;
    it.ValidMeansPending();
    if it.curr != NULL { it.db.VptrIsNewest(it.curr); }
  }

  lemma RemainingTail(s: seq<Addr>, n: Table, vals: map<Addr, Value>)
    ensures EntriesOf(Tail(s), n, vals) == Tail(EntriesOf(s, n, vals))
  {
  }

  // ---------- the iterator ----------

  class UnionIter {
    const dirtyIt: MemdbIterator
    const snapshotIt: KvIter
    const reverse: bool
    var dirtyValid: bool
    var snapshotValid: bool
    var curIsDirty: bool
    var isValid: bool

    ghost function D(): seq<Entry>
      reads dirtyIt, dirtyIt.db, dirtyIt.db.vlog
    {
      Remaining(dirtyIt)
    }

    ghost function S(): seq<Entry>
      reads snapshotIt
    {
      snapshotIt.rest
    }

    /** A bound on the number of steps left. */
    ghost function Count(): nat
      reads dirtyIt, dirtyIt.db, dirtyIt.db.vlog, snapshotIt
    {
      |D()| + |S()|
    }

    /** What is left to be shown. */
    ghost function Left(): seq<Entry>
      reads dirtyIt, dirtyIt.db, dirtyIt.db.vlog, snapshotIt
    {
      Merge(D(), S(), reverse)
    }

    /** Both iterators are in order, and the union iterator knows whether they are valid. */
    ghost predicate Based()
      reads `dirtyValid, `snapshotValid, snapshotIt, dirtyIt, dirtyIt.db, dirtyIt.db.nodeMem, dirtyIt.db.vlog,
        dirtyIt.db.vlog.mem
    {
      && dirtyIt.Valid() && !dirtyIt.includeFlags && dirtyIt.reverse == reverse && Sorted(S(), reverse)
      && dirtyValid == (D() != []) && snapshotValid == (S() != [])
    }

    /** What is left after one step. */
    ghost function Rest(): seq<Entry>
      reads this, dirtyIt, dirtyIt.db, dirtyIt.db.vlog, snapshotIt
    {
      RestOf(curIsDirty, D(), S(), reverse)
    }

    /** The iterator is valid as long as something is left, and stands on the first of it. */
    ghost predicate Current()
      reads this, dirtyIt, dirtyIt.db, dirtyIt.db.vlog, snapshotIt
    {
      if isValid then Heads(curIsDirty, D(), S(), reverse) else Left() == []
    }

    ghost predicate Valid()
      reads this, snapshotIt, dirtyIt, dirtyIt.db, dirtyIt.db.nodeMem, dirtyIt.db.vlog, dirtyIt.db.vlog.mem
    {
      Based() && Current()
    }

    constructor (dirtyIt: MemdbIterator, snapshotIt: KvIter, reverse: bool)
      requires dirtyIt.Valid() && !dirtyIt.includeFlags && dirtyIt.reverse == reverse
          && Sorted(snapshotIt.rest, reverse)
      ensures Based() && this.dirtyIt == dirtyIt && this.snapshotIt == snapshotIt && this.reverse == reverse
    {
      hide MemDb.Valid, Fold, Path, Select, Less, InOrder, From, EntriesOf, Sorted;
      RemainingHead(dirtyIt);
      this.dirtyIt, this.snapshotIt, this.reverse := dirtyIt, snapshotIt, reverse;
      dirtyValid, snapshotValid := dirtyIt.IsValid(), snapshotIt.IsValid();
      curIsDirty, isValid := false, false;
    }

    lemma BasedFacts()
      requires Based()
      ensures dirtyValid == (D() != []) && snapshotValid == (S() != []) && Sorted(S(), reverse)
    {
    }

    method DirtyNext()
      requires Based() && dirtyValid
      modifies `dirtyValid, dirtyIt
      ensures Based() && D() == old(D())[1..]
    {
      hide MemDb.Valid, Fold, Path, Select, Less, InOrder, From, EntriesOf, MemdbIterator.Order;
      RemainingHead(dirtyIt);
      ghost var s := dirtyIt.Pending();
      RemainingTail(s, dirtyIt.db.nodes, Fold(dirtyIt.db.vlog.recs));
      dirtyIt.Next();
      RemainingHead(dirtyIt);
      dirtyValid := dirtyIt.IsValid();
    }

    method SnapshotNext() returns (ok: bool)
      requires Based() && snapshotValid
      modifies `snapshotValid, snapshotIt
      ensures Based() && S() == if ok then old(S())[1..] else old(S())
      ensures old(snapshotIt.failAfter).None? ==> ok && snapshotIt.failAfter.None?
    {
      hide MemDb.Valid, Fold, Path, Select, Less, InOrder, From, EntriesOf;
      ok := snapshotIt.Next();
      snapshotValid := snapshotIt.IsValid();
    }

    /** The entry that the buffer's iterator stands on. */
    method DirtyEntry() returns (key: Key, value: Value)
      requires Based() && dirtyValid
      ensures D()[0] == Entry(key, value)
    {
      hide MemDb.Valid, Fold, Path, Select, Less, InOrder, From, EntriesOf;
      RemainingHead(dirtyIt);
      key := dirtyIt.GetKey();
      value := dirtyIt.GetValue();
    }

    /** Skips tombstones and what they hide, and finds out which iterator stands on the next entry. */
    method UpdateCur() returns (ok: bool)
      requires Based()
      modifies this, dirtyIt, snapshotIt
      ensures Based() && Count() <= old(Count())
      ensures ok ==> Current() && Left() == old(Left())
      ensures old(snapshotIt.failAfter).None? ==> ok && snapshotIt.failAfter.None?
    {
      hide Based, D, Less, Sorted, Merge, Precedes, Heads;
      isValid := true;
      while true
        invariant Based() && isValid && Left() == old(Left()) && Count() <= old(Count())
        invariant old(snapshotIt.failAfter).None? ==> snapshotIt.failAfter.None?
        decreases |D()|
      {
        BasedFacts();
        MergeEmpty(S(), reverse);
        if dirtyValid { MergeCases(D(), S(), reverse); }
        if !dirtyValid && !snapshotValid {
          isValid := false;
          return true;
        }
        if !dirtyValid {
          curIsDirty := false;
          return true;
        }
        MergeCases(D(), S(), reverse);
        if !snapshotValid {
          curIsDirty := true;
          var _, dirtyValue := DirtyEntry();
          if |dirtyValue| == 0 {
            DirtyNext();
            continue;
          }
          return true;
        }
        var done;
        done, ok := UpdateFromBoth();
        if done || !ok {
          return;
        }
      }
    }

    /** The part of the loop for two valid iterators; `done` is where the source breaks out of the loop. */
    method UpdateFromBoth() returns (done: bool, ok: bool)
      requires Based() && dirtyValid && snapshotValid
      modifies `dirtyValid, `snapshotValid, `curIsDirty, dirtyIt, snapshotIt
      ensures Based() && Count() <= old(Count())
      ensures ok ==> Left() == old(Left()) && if done then Heads(curIsDirty, D(), S(), reverse) else |D()| < old(|D()|)
      ensures old(snapshotIt.failAfter).None? ==> ok && snapshotIt.failAfter.None?
    {
      hide Based, D, Less, Sorted, Merge, Precedes, Heads;
      BasedFacts();
      MergeCases(D(), S(), reverse);
      var dirtyKey, dirtyValue := DirtyEntry();
      var snapshotKey := snapshotIt.rest[0].key;
      var cmp := Compare(dirtyKey, snapshotKey);
      if reverse {
        cmp := -cmp;
      }
      CompareOrder(dirtyKey, snapshotKey, reverse);
      if cmp == 0 {
        if |dirtyValue| == 0 {
          DirtyNext();
          ok := SnapshotNext();
          return false, ok;
        }
        ok := SnapshotNext();
        curIsDirty := true;
        return true, ok;
      } else if cmp > 0 {
        curIsDirty := false;
        return true, true;
      } else {
        if |dirtyValue| == 0 {
          DirtyNext();
          return false, true;
        }
        curIsDirty := true;
        return true, true;
      }
    }

    /** Moves past the current entry.  The current entry may have been deleted in the buffer in the meantime. */
    method Next() returns (ok: bool)
      requires Based() && (if curIsDirty then D() else S()) != []
      modifies this, dirtyIt, snapshotIt
      ensures Based() && Count() <= old(Count())
      ensures ok ==> Current() && Left() == old(Rest()) && Count() < old(Count())
      ensures old(snapshotIt.failAfter).None? ==> ok && snapshotIt.failAfter.None?
    {
      hide MemdbIterator.Valid, Remaining, Less, Sorted;
      if !curIsDirty {
        ok := SnapshotNext();
        if !ok {
          return;
        }
      } else {
        DirtyNext();
      }
      ok := UpdateCur();
    }

    method GetKey() returns (key: Key)
      requires Valid() && isValid
      ensures key == Left()[0].key
    {
      hide MemdbIterator.Valid, Remaining, Less, Sorted;
      if !curIsDirty {
        return snapshotIt.rest[0].key;
      }
      var k, _ := DirtyEntry();
      key := k;
    }

    method GetValue() returns (value: Value)
      requires Valid() && isValid
      ensures value == Left()[0].value
    {
      hide MemdbIterator.Valid, Remaining, Less, Sorted;
      if !curIsDirty {
        return snapshotIt.rest[0].value;
      }
      var _, v := DirtyEntry();
      value := v;
    }
  }
}
