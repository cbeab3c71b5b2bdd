/** What the snapshot iterator shows, as a listing of the bottom layer. */
module SnapshotListings {
  import opened Addresses
  import opened Keys
  import opened RedBlack
  import opened NodeTable
  import opened Search
  import opened Arenas
  import opened LogRecords
  import opened ValueLog
  import opened Layering
  import opened Accounting
  import opened Invariants
  import opened MemDb
  import opened Iterators
  import opened Listings
  import opened BufferListings
  import opened Snapshots

  lemma {:induction false} KeepIs(s: seq<Addr>, vals: map<Addr, Value>)
    ensures forall a :: a in Keep(s, vals) <==> a in s && a in vals
  {
    if s != [] { KeepIs(s[1..], vals); }
  }

  lemma {:induction false} KeepAscending(n: Table, s: seq<Addr>, vals: map<Addr, Value>)
    requires Ascending(n, s)
    ensures Ascending(n, Keep(s, vals))
  {
    hide Less;
    if s != [] {
      assert [] + [s[0]] + s[1..] == s;
      AscendingParts(n, [], s[0], s[1..]);
      KeepAscending(n, s[1..], vals);
      KeepIs(s[1..], vals);
    }
  }

  /** A fresh snapshot iterator lists the bottom layer: what each key of the range had when the first stage was opened,
      in ascending order and once each. */
  lemma SnapshotLists(s: MemdbSnapIter)
    requires s.Based() && s.it.db.stages != [] && s.it.db.marks != [] && s.k == s.it.db.marks[0]
    requires s.Pending() == Keep(s.it.All(), s.Vals())
    ensures Lists(EntriesOf(s.Pending(), s.it.db.nodes, s.Vals()), s.it.db.View().layers[0],
                  Range(s.it.start, s.it.UpperBound()), false)
  {
    hide At, IsRedBlack, Indexed, Linked, Allocated, Total, Fold, Layers, FlagsOf, InOrder, Vlog.Valid, Arena.Valid,
         Less, MemdbIterator.Order;
    hide Select, Ascending, EntriesOf, Sorted, Keep, CleanUnlessDirty;
    var db, vals := s.it.db, s.Vals();
    var all := s.it.All();
    StagedMarks(db.vlog.recs, db.stages, db.marks);
    BottomLayer(db.vlog.recs, db.marks, db.index);
    OrderFacts(s.it);
    SelectIs(db.nodes, s.it.Order(), false, s.it.start, s.it.UpperBound());
    SelectAscending(db.nodes, s.it.Order(), false, s.it.start, s.it.UpperBound());
    KeepIs(all, vals);
    KeepAscending(db.nodes, all, vals);
    KeptLists(s, Keep(all, vals));
  }

  /** A sequence of exactly the nodes of the range that have a snapshot value, in order, lists the bottom layer. */
  lemma KeptLists(s: MemdbSnapIter, kept: seq<Addr>)
    requires s.Based() && Ascending(s.it.db.nodes, kept)
    requires forall a :: a in kept <==> a in s.it.Order() && a in s.Vals() && a in s.it.db.nodes
                                        && Shown(s.it.db.nodes[a], false, s.it.start, s.it.UpperBound())
    ensures Lists(EntriesOf(kept, s.it.db.nodes, s.Vals()), ByKey(s.Vals(), s.it.db.index),
                  Range(s.it.start, s.it.UpperBound()), false)
  {
    hide At, IsRedBlack, Indexed, Linked, Allocated, Total, Fold, Layers, FlagsOf, InOrder, Vlog.Valid, Arena.Valid,
         Less, MemdbIterator.Order;
    hide Sorted, EntriesOf, Ascending, CleanUnlessDirty, MemDb.Valid;
    var db, vals, range := s.it.db, s.Vals(), Range(s.it.start, s.it.UpperBound());
    OrderFacts(s.it);
    KeptSorted(db.nodes, kept, vals);
    EntriesAt(kept, db.nodes, vals);
    var es := EntriesOf(kept, db.nodes, vals);
    forall e | e in es
      ensures e.key in range && e.key in ByKey(vals, db.index) && ByKey(vals, db.index)[e.key] == e.value
    {
      var a :| a in kept && EntryAt(db.nodes, vals, a) == e;
      assert InRange(db.nodes[a].key, s.it.start, s.it.UpperBound());
    }
    forall k | k in ByKey(vals, db.index) && k in range ensures Entry(k, ByKey(vals, db.index)[k]) in es {
      var a := db.index[k];
      NoneInPrefix(db.vlog.recs, a, s.k);
      assert InRange(k, s.it.start, s.it.UpperBound()) && a in kept;
      assert EntryAt(db.nodes, vals, a) in es;
    }
  }

  lemma KeptSorted(n: Table, s: seq<Addr>, vals: map<Addr, Value>)
    requires Ascending(n, s)
    ensures Sorted(EntriesOf(s, n, vals), false)
  {
    hide Less;
    assert forall i | 0 <= i < |s| :: s[i] in s;
  }
}
