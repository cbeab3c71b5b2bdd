/** What an iterator over the buffer has left, as a listing of the buffer's contents. */
module BufferListings {
  import opened Addresses
  import opened Keys
  import opened RedBlack
  import opened NodeTable
  import opened Search
  import opened Arenas
  import opened LogRecords
  import opened ValueLog
  import opened Layering
  import opened Accounting
  import opened Invariants
  import opened MemDb
  import opened Iterators
  import opened Listings

  function EntryAt(n: Table, vals: map<Addr, Value>, a: Addr): Entry {
    Entry(if a in n then n[a].key else [], if a in vals then vals[a] else [])
  }

  function EntriesOf(s: seq<Addr>, n: Table, vals: map<Addr, Value>): seq<Entry> {
    seq(|s|, i requires 0 <= i < |s| => EntryAt(n, vals, s[i]))
  }

  /** The entries that an iterator has left to show. */
  ghost function Remaining(it: MemdbIterator): seq<Entry>
    reads it, it.db, it.db.vlog
  {
    EntriesOf(it.Pending(), it.db.nodes, Fold(it.db.vlog.recs))
  }

  predicate InRange(k: Key, lo: Key, hi: Option<Key>) {
    AtMost(lo, k) && (hi.Some? ==> Less(k, hi.value))
  }

  ghost function Range(lo: Key, hi: Option<Key>): iset<Key> {
    iset k | InRange(k, lo, hi)
  }

  /** The part of a range from a key on. */
  ghost function Onward(lo: Key, hi: Option<Key>, reverse: bool, from: Key): iset<Key> {
    iset k | InRange(k, lo, hi) && (k == from || Precedes(from, k, reverse))
  }

  /** The part of the iterator's range that begins where it stands. */
  ghost function Ahead(it: MemdbIterator): iset<Key>
    reads it, it.db
  {
    if it.curr == NULL || it.curr !in it.db.nodes then iset{}
    else Onward(it.start, it.UpperBound(), it.reverse, it.db.nodes[it.curr].key)
  }

  /** A selection from a path lists the values of the nodes on the path. */
  lemma SelectLists(n: Table, path: seq<Addr>, vals: map<Addr, Value>, index: map<Key, Addr>,
                    lo: Key, hi: Option<Key>, reverse: bool, range: iset<Key>)
    requires NoRepeats(path) && if reverse then Descending(n, path) else Ascending(n, path)
    requires forall a | a in path ::
        a in n && n[a].key in index && index[n[a].key] == a && (n[a].vptr != NULL <==> a in vals)
    requires forall k | k in index && index[k] in path :: n[index[k]].key == k
    requires forall k | k in range :: InRange(k, lo, hi) && (k in index && index[k] in vals ==> index[k] in path)
    requires forall a | a in path && InRange(n[a].key, lo, hi) :: n[a].key in range
    ensures Lists(EntriesOf(Select(n, path, false, lo, hi), n, vals), ByKey(vals, index), range, reverse)
  {
    hide Select, NoRepeats, Less, Sorted, Ascending, Descending, EntriesOf;
    var s := Select(n, path, false, lo, hi);
    SelectIs(n, path, false, lo, hi);
    SelectSorted(n, path, vals, lo, hi, reverse);
    EntriesAt(s, n, vals);
    var es := EntriesOf(s, n, vals);
    forall e | e in es ensures e.key in range && e.key in ByKey(vals, index) && ByKey(vals, index)[e.key] == e.value {
      var a :| a in s && EntryAt(n, vals, a) == e;
      assert a in path && Shown(n[a], false, lo, hi) && index[n[a].key] == a && InRange(n[a].key, lo, hi);
    }
    forall k | k in ByKey(vals, index) && k in range ensures Entry(k, ByKey(vals, index)[k]) in es {
      assert InRange(k, lo, hi);
      assert index[k] in path && Shown(n[index[k]], false, lo, hi);
      assert EntryAt(n, vals, index[k]) in es;
    }
  }

  lemma EntriesAt(s: seq<Addr>, n: Table, vals: map<Addr, Value>)
    ensures forall a | a in s :: EntryAt(n, vals, a) in EntriesOf(s, n, vals)
    ensures forall e | e in EntriesOf(s, n, vals) :: exists a :: a in s && EntryAt(n, vals, a) == e
  {
    var es := EntriesOf(s, n, vals);
    forall a | a in s ensures EntryAt(n, vals, a) in es {
      var i :| 0 <= i < |s| && s[i] == a;
      assert es[i] == EntryAt(n, vals, a);
    }
    forall e | e in es ensures exists a :: a in s && EntryAt(n, vals, a) == e {
      var i :| 0 <= i < |es| && es[i] == e;
      assert s[i] in s;
    }
  }

  lemma SelectSorted(n: Table, path: seq<Addr>, vals: map<Addr, Value>, lo: Key, hi: Option<Key>, reverse: bool)
    requires NoRepeats(path) && if reverse then Descending(n, path) else Ascending(n, path)
    ensures Sorted(EntriesOf(Select(n, path, false, lo, hi), n, vals), reverse)
  {
    hide Select, NoRepeats, Less;
    if reverse { SelectDescending(n, path, false, lo, hi); } else { SelectAscending(n, path, false, lo, hi); }
  }

  /** What the buffer holds, key by key. */
  ghost function Contents(db: MemDb): map<Key, Value>
    reads db, db.vlog
  {
    ByKey(Fold(db.vlog.recs), db.index)
  }

  lemma ContentsIsFlat(db: MemDb)
    requires db.Valid()
    ensures Contents(db) == Flatten(db.View().layers) && db.View().layers != []
  {
    hide At, IsRedBlack, Ascending, Indexed, Linked, Allocated, Total, Fold, Layers, FlagsOf, InOrder, Vlog.Valid,
         Arena.Valid, Flatten;
    hide Staged, CleanUnlessDirty;
    StagedMarks(db.vlog.recs, db.stages, db.marks);
    var flat := Flatten(db.View().layers);
    forall k ensures k in flat <==> k in Contents(db)
      ensures k in flat ==> flat[k] == Contents(db)[k]
    {
      LookupIsNewest(db.vlog.recs, db.marks, db.index, k);
      LookupInFlat(db.View().layers, k);
    }
  }

  lemma OrderFacts(it: MemdbIterator)
    requires it.db.Valid()
    ensures NoRepeats(it.Order()) && if it.reverse then Descending(it.db.nodes, it.Order())
        else Ascending(it.db.nodes, it.Order())
    ensures forall a | a in it.Order() ::
              && a in it.db.nodes && it.db.nodes[a].key in it.db.index && it.db.index[it.db.nodes[a].key] == a
              && (it.db.nodes[a].vptr != NULL <==> a in Fold(it.db.vlog.recs))
    ensures forall k | k in it.db.index ::
              it.db.index[k] in it.Order() && it.db.index[k] in it.db.nodes && it.db.nodes[it.db.index[k]].key == k
  {
    hide At, IsRedBlack, Linked, Allocated, Total, Fold, Layers, InOrder, Vlog.Valid, Arena.Valid, Path, Staged,
         CleanUnlessDirty;
    it.OrderInTable();
    forall a | a in it.Order()
      ensures a in it.db.nodes && (it.db.nodes[a].vptr != NULL <==> a in Fold(it.db.vlog.recs))
    {
      it.db.VptrIsNewest(a);
    }
  }

  /** A fresh iterator has everything in its range before it, in order and once each. */
  lemma AllLists(it: MemdbIterator)
    requires it.Valid() && !it.includeFlags && it.Pending() == it.All()
    ensures Lists(Remaining(it), Contents(it.db), Range(it.start, it.UpperBound()), it.reverse)
  {
    hide MemDb.Valid, Lists, Fold, ByKey, MemdbIterator.Order, Select, EntriesOf, NoRepeats, Descending, Ascending,
         Less;
    OrderFacts(it);
    SelectLists(it.db.nodes, it.Order(), Fold(it.db.vlog.recs), it.db.index, it.start, it.UpperBound(), it.reverse,
                Range(it.start, it.UpperBound()));
  }

  /** And an iterator on its way has what lies ahead of it. */
  lemma RemainingLists(it: MemdbIterator)
    requires it.Valid() && !it.includeFlags
    ensures Lists(Remaining(it), Contents(it.db), Ahead(it), it.reverse)
  {
    hide MemDb.Valid, Lists, Fold, ByKey, MemdbIterator.Order, Select, EntriesOf, Less, Descending, Ascending;
    OrderFacts(it);
    var i := it.Position();
    it.PendingAt(i);
    SuffixFacts(it, i);
    SelectLists(it.db.nodes, it.Order()[i..], Fold(it.db.vlog.recs), it.db.index, it.start, it.UpperBound(),
                it.reverse, Ahead(it));
  }

  lemma SuffixFacts(it: MemdbIterator, i: nat)
    requires it.db.Valid() && it.StandsAt(i) && (it.curr != NULL ==> i < |it.Order()|)
    ensures var s := it.Order()[i..];
            && NoRepeats(s) && (if it.reverse then Descending(it.db.nodes, s) else Ascending(it.db.nodes, s))
            && (forall a | a in s :: a in it.Order() && it.curr != NULL && it.curr in it.db.nodes
                 && (a == it.curr || Precedes(it.db.nodes[it.curr].key, it.db.nodes[a].key, it.reverse)))
            && (forall a | a in it.Order() && it.curr != NULL && it.curr in it.db.nodes
                 && (a == it.curr || Precedes(it.db.nodes[it.curr].key, it.db.nodes[a].key, it.reverse)) :: a in s)
  {
    hide MemDb.Valid, Fold, ByKey, Path, Select, EntriesOf, Less, InOrder;
    OrderFacts(it);
    it.OrderInTable();
    var order, s, n := it.Order(), it.Order()[i..], it.db.nodes;
    assert forall j | 0 <= j < |s| :: s[j] == order[i + j];
    forall a | a in order && it.curr != NULL && (a == it.curr || Precedes(n[it.curr].key, n[a].key, it.reverse))
      ensures a in s
    {
      var j :| 0 <= j < |order| && order[j] == a;
      if j < i { PrecedesAsymmetric(n[order[j]].key, n[order[i]].key, it.reverse); }
      assert s[j - i] == a;
    }
  }

  /** With flags asked for, a fresh iterator shows exactly the keys of its range that have a node, valued or not. */
  lemma AllWithFlags(it: MemdbIterator)
    requires it.Valid() && it.includeFlags
    ensures forall a | a in it.All() :: a in it.db.nodes && it.db.nodes[a].key in it.db.View().flags
                                        && InRange(it.db.nodes[a].key, it.start, it.UpperBound())
    ensures forall k | k in it.db.View().flags && InRange(k, it.start, it.UpperBound()) ::
              k in it.db.index && it.db.index[k] in it.All() && it.db.index[k] in it.db.nodes
                && it.db.nodes[it.db.index[k]].key == k
    ensures if it.reverse then Descending(it.db.nodes, it.All()) else Ascending(it.db.nodes, it.All())
  {
    hide At, IsRedBlack, Indexed, Linked, Allocated, Total, Fold, Layers, InOrder, Vlog.Valid, Arena.Valid, Less,
         MemdbIterator.Order;
    hide Select, Staged, CleanUnlessDirty, MemDb.Valid, Ascending, Descending;
    OrderFacts(it);
    SelectIs(it.db.nodes, it.Order(), true, it.start, it.UpperBound());
    if it.reverse { SelectDescending(it.db.nodes, it.Order(), true, it.start, it.UpperBound()); }
    else { SelectAscending(it.db.nodes, it.Order(), true, it.start, it.UpperBound()); }
  }
}
