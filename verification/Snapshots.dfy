/** Reading the buffer as it was when the first stage was opened, while writes go on. */
module Snapshots {
  import opened Addresses
  import opened Keys
  import opened RedBlack
  import opened NodeTable
  import opened Removal
  import opened Search
  import opened Arenas
  import opened LogRecords
  import opened ValueLog
  import opened Layering
  import opened Accounting
  import opened Invariants
  import opened MemDb
  import opened Iterators

  /** The start of the first stage if there is one, and otherwise the present end of the log. */
  method GetSnapshot(db: MemDb) returns (cp: Checkpoint, ghost k: nat)
    requires db.Valid()
    ensures Marks(db.vlog.recs, k, cp)
    ensures k == if db.marks == [] then |db.vlog.recs| else db.marks[0]
    ensures db.stages != [] ==> cp == db.stages[0]
  {
    if |db.stages| > 0 {
      return db.stages[0], db.marks[0];
    }
    cp := db.vlog.TakeCheckpoint();
    k := |db.vlog.recs|;
  }

  class MemdbSnapGetter {
    const db: MemDb
    const cp: Checkpoint
    /** How many records the checkpoint comes after. */
    ghost const k: nat

    constructor (db: MemDb)
      requires db.Valid()
      ensures this.db == db && Marks(db.vlog.recs, k, cp)
      ensures k == if db.marks == [] then |db.vlog.recs| else db.marks[0]
      ensures db.stages != [] ==> cp == db.stages[0]
    {
      this.db := db;
      var s; ghost var n;
      s, n := GetSnapshot(db);
      cp, k := s, n;
    }

    /** What the getter reads: by key, the newest values among the records before the checkpoint. */
    ghost function Shown(): Layer
      requires k <= |db.vlog.recs|
      reads db, db.vlog
    {
      ByKey(Fold(db.vlog.recs[..k]), db.index)
    }

    /** The newest value that a key had among the first `k` records. */
    method GetAt(key: Key, ghost k: nat) returns (value: Option<Value>)
      requires db.Valid() && Marks(db.vlog.recs, k, cp)
      ensures value == if key in ByKey(Fold(db.vlog.recs[..k]), db.index)
                       then Some(ByKey(Fold(db.vlog.recs[..k]), db.index)[key]) else None
    {
      hide At, IsRedBlack, Ascending, Indexed, Linked, Allocated, Total, Fold, Layers, InOrder, Vlog.Valid, Arena.Valid;
      var x, _, _ := db.Locate(key);
      if x == NULL {
        return None;
      }
      ghost var _ := db.NewestOf(key);
      NoneInPrefix(db.vlog.recs, x, k);
      if db.nodes[x].vptr == NULL {
        return None;
      }
      var v, ok := db.vlog.GetSnapshotValue(db.nodes[x].vptr, cp, x, k);
      if !ok {
        return None;
      }
      return Some(v);
    }

    /** While the stage that was the first when the getter was made is still open, the getter reads the bottom
        layer: what each key had when that stage was opened. */
    method Get(key: Key) returns (value: Option<Value>)
      requires db.Valid() && db.stages != [] && cp == db.stages[0]
      ensures value == if key in db.View().layers[0] then Some(db.View().layers[0][key]) else None
    {
      hide At, IsRedBlack, Ascending, Indexed, Linked, Allocated, Total, Fold, Layers, InOrder, Vlog.Valid, Arena.Valid,
           ByKey;
      StagedAt(db.vlog.recs, db.stages, db.marks, 0);
      BottomLayer(db.vlog.recs, db.marks, db.index);
      value := GetAt(key, db.marks[0]);
    }
  }

  lemma NoneInPrefix(recs: seq<LogRec>, a: Addr, k: nat)
    requires k <= |recs|
    ensures a !in Fold(recs) ==> a !in Fold(recs[..k])
  {
    assert recs == recs[..k] + recs[k..];
    FoldConcat(recs[..k], recs[k..]);
  }

  /** Without an open stage a write can reach below a snapshot: overwriting the newest record of a node in place
      leaves what the first `k` records say alone exactly if that record is not among them or keeps its value. */
  lemma OverwriteBelowSnapshot(recs: seq<LogRec>, a: Addr, j: nat, v: Value, k: nat)
    requires j < |recs| && k <= |recs| && j == LastIdx(recs, a) && |v| == |recs[j].value|
    ensures Fold(recs[j := recs[j].(value := v)][..k]) == Fold(recs[..k]) <==> k <= j || v == recs[j].value
  {
    var recs' := recs[j := recs[j].(value := v)];
    if k <= j {
      assert recs'[..k] == recs[..k];
    } else {
      LastIdxUnique(recs[..k], a, j);
      FoldOverwrite(recs[..k], a, j, v);
      assert recs'[..k] == recs[..k][j := recs[..k][j].(value := v)];
      FoldIsLast(recs[..k], a);
      if v == recs[j].value { assert recs' == recs; }
    }
  }

  /** A write changes what the first `k` records say: it overwrites one of them in place by another value. */
  ghost predicate WritesBelow(recs: seq<LogRec>, marks: seq<nat>, x: Addr, value: Value, k: nat) {
    InPlace(recs, marks, x, value) && LastIdx(recs, x) < k && recs[LastIdx(recs, x)].value != value
  }

  /** What setting a value does to the first `k` records, and that it leaves them alone exactly in all other cases. */
  lemma LoggedBelowSnapshot(recs: seq<LogRec>, after: seq<LogRec>, marks: seq<nat>, x: Addr, value: Value, k: nat)
    requires k <= |recs| && ValueLogged(recs, after, marks, x, value)
    ensures k <= |after| && (forall cp | Marks(recs, k, cp) :: Marks(after, k, cp))
    ensures Fold(after[..k]) == Fold(recs[..k]) <==> !WritesBelow(recs, marks, x, value, k)
    ensures WritesBelow(recs, marks, x, value, k) ==>
              x in Fold(recs[..k]) && Fold(recs[..k])[x] != value && Fold(after[..k]) == Fold(recs[..k])[x := value]
  {
    var j := LastIdx(recs, x);
    if !InPlace(recs, marks, x, value) {
      assert after[..k] == after[..|recs|][..k] == recs[..k];
    } else {
      OverwriteBelowSnapshot(recs, x, j, value, k);
      if j < k {
        LastIdxUnique(recs[..k], x, j);
        FoldOverwrite(recs[..k], x, j, value);
        assert after[..k] == recs[..k][j := recs[..k][j].(value := value)];
        FoldIsLast(recs[..k], x);
      }
    }
  }

  // ---------- the snapshot iterator ----------

  /** The nodes of a sequence that have a value in the snapshot. */
  function Keep(s: seq<Addr>, vals: map<Addr, Value>): seq<Addr> {
    if s == [] then []
    else if s[0] in vals then [s[0]] + Keep(s[1..], vals) else Keep(s[1..], vals)
  }

  /** An iterator over what the keys in [start, end) had when the first stage was opened. */
  method SnapshotIter(db: MemDb, start: Key, end: Option<Key>) returns (s: MemdbSnapIter)
    requires db.Valid()
    ensures fresh(s) && fresh(s.it) && s.Valid()
    ensures s.it.db == db && s.it.start == start && s.it.end == end
    ensures s.k == if db.marks == [] then |db.vlog.recs| else db.marks[0]
    ensures s.Pending() == Keep(s.it.All(), s.Vals())
  {
    hide MemDb.Valid;
    var it := new MemdbIterator.Unpositioned(db, start, end);
    var cp; ghost var k;
    cp, k := GetSnapshot(db);
    s := new MemdbSnapIter(it, cp, k);
    s.Init();
  }

  class MemdbSnapIter {
    const it: MemdbIterator
    const cp: Checkpoint
    var value: Value
    ghost const k: nat

    ghost predicate Based()
      reads this, it, it.db, it.db.nodeMem, it.db.vlog, it.db.vlog.mem
    {
      && it.db.Valid() && !it.reverse && !it.includeFlags && Marks(it.db.vlog.recs, k, cp)
      && (it.curr != NULL ==> it.Standing(it.curr))
    }

    /** The values of the snapshot. */
    ghost function Vals(): map<Addr, Value>
      reads this, it, it.db, it.db.vlog
    {
      if k <= |it.db.vlog.recs| then Fold(it.db.vlog.recs[..k]) else map[]
    }

    ghost function Pending(): seq<Addr>
      reads this, it, it.db, it.db.vlog
    {
      Keep(it.Pending(), Vals())
    }

    /** The inner iterator stands on a node before the upper bound. */
    ghost predicate Inside()
      reads this, it, it.db
    {
      it.curr != NULL && it.curr in it.db.nodes && it.IsValid()
    }

    /** Between calls the iterator stands on the first node left to show, with its snapshot value, or is done. */
    ghost predicate Valid()
      reads this, it, it.db, it.db.nodeMem, it.db.vlog, it.db.vlog.mem
    {
      Based() && Positioned()
    }

    ghost predicate Positioned()
      reads this, it, it.db, it.db.vlog
    {
      && (Inside() ==> Pending() != [] && Pending()[0] == it.curr && it.curr in Vals() && value == Vals()[it.curr])
      && (!Inside() ==> Pending() == [])
    }

    constructor (it: MemdbIterator, cp: Checkpoint, ghost k: nat)
      ensures this.it == it && this.cp == cp && this.k == k
    {
      this.it, this.cp, this.k, value := it, cp, k, [];
    }

    method Init()
      requires it.db.Valid() && !it.reverse && !it.includeFlags && Marks(it.db.vlog.recs, k, cp)
      modifies this, it
      ensures Valid() && Pending() == Keep(it.All(), Vals())
    {
      hide At, IsRedBlack, Indexed, Linked, Allocated, Total, Fold, Layers, FlagsOf, InOrder, Vlog.Valid, Arena.Valid,
           Staged;
      hide MemDb.Valid, Path, Less, Select, Keep;
      ghost var p := 0;
      if |it.start| == 0 {
        it.SeekToFirst();
        it.Unbounded();
      } else {
        p := it.Seek(it.start);
        it.BoundedFrom(p);
      }
      it.StartsAt(p);
      var found := SetValue();
      if found {
        OnValue();
      } else {
        ShownIsInside();
        Next();
      }
    }

    /** Picks up the snapshot value of the node that the inner iterator stands on, if it has one. */
    method SetValue() returns (found: bool)
      requires Based()
      modifies `value
      ensures Based()
      ensures found <==> Inside() && it.curr in Vals()
      ensures found ==> value == Vals()[it.curr]
    {
      hide At, IsRedBlack, Indexed, Linked, Allocated, Total, Fold, Layers, FlagsOf, InOrder, Vlog.Valid, Arena.Valid,
           Staged;
      if it.curr == NULL || !it.IsValid() {
        return false;
      }
      it.db.VptrIsNewest(it.curr);
      var v, ok := it.db.vlog.GetSnapshotValue(it.db.nodes[it.curr].vptr, cp, it.curr, k);
      if ok {
        value := v;
      }
      return ok;
    }

    /** A node with a snapshot value is shown, so it is the first one pending. */
    lemma OnValue()
      requires Based() && Inside() && it.curr in Vals()
      ensures Pending() != [] && Pending()[0] == it.curr && it.CurrShown()
    {
      hide At, IsRedBlack, Indexed, Linked, Allocated, Total, Fold, Layers, FlagsOf, InOrder, Vlog.Valid, Arena.Valid,
           Staged, Path, Select;
      it.db.VptrIsNewest(it.curr);
      NoneInPrefix(it.db.vlog.recs, it.curr, k);
      it.ValidMeansPending();
    }

    lemma ShownIsInside()
      requires Based()
      ensures it.CurrShown() ==> Inside()
    {
      hide At, IsRedBlack, Indexed, Linked, Allocated, Total, Fold, Layers, FlagsOf, InOrder, Vlog.Valid, Arena.Valid,
           Staged, Path, Select;
      AtDummy(it.db.nodes, it.db.root, Top, it.db.tree);
      if it.curr in it.db.nodes { it.LessTotalOf(it.db.nodes[it.curr].key); }
    }

    /** What stepping the inner iterator does to what is pending in the snapshot. */
    lemma KeepTail(s: seq<Addr>, vals: map<Addr, Value>)
      ensures s != [] ==> Keep(Tail(s), vals) == if s[0] in vals then Tail(Keep(s, vals)) else Keep(s, vals)
    {
    }

    /** Moves on to the next node with a value in the snapshot. */
    method Next()
      requires Based()
      modifies this, it
      ensures Valid()
      ensures Pending() == if old(it.CurrShown() && it.curr in Vals()) then Tail(old(Pending())) else old(Pending())
    {
      hide At, IsRedBlack, Indexed, Linked, Allocated, Total, Fold, Layers, FlagsOf, InOrder, Vlog.Valid, Arena.Valid,
           Staged;
      hide MemDb.Valid, Path, Select, Keep, Less, From;
      value := [];
      ghost var target := if it.CurrShown() && it.curr in Vals() then Tail(Pending()) else Pending();
      ghost var started := false;
      ShownIsInside();
      while it.curr != NULL && it.IsValid()
        invariant Based() && (started ==> Pending() == target && !(Inside() && it.curr in Vals()))
        invariant !started ==> it.Pending() == old(it.Pending()) && it.curr == old(it.curr)
        decreases |From(it.Order(), it.curr)|
      {
        ghost var s := it.Pending();
        StepKeeps(s);
        it.Next();
        started := true;
        var found := SetValue();
        if found {
          OnValue();
          return;
        }
      }
      it.InvalidMeansDone();
      KeepNone(Vals());
    }

    /** One step of the inner iterator drops its current node if that is shown. */
    lemma StepKeeps(s: seq<Addr>)
      requires Based() && Inside() && s == it.Pending()
      ensures it.CurrShown() ==> s != [] && s[0] == it.curr
      ensures s != [] ==> Keep(Tail(s), Vals()) == if s[0] in Vals() then Tail(Keep(s, Vals())) else Keep(s, Vals())
    {
      hide At, IsRedBlack, Indexed, Linked, Allocated, Total, Fold, Layers, FlagsOf, InOrder, Vlog.Valid, Arena.Valid,
           Staged, Path, Select;
      if it.CurrShown() { it.ValidMeansPending(); }
      KeepTail(s, Vals());
    }

    lemma KeepNone(vals: map<Addr, Value>)
      ensures Keep([], vals) == []
    {
    }
  }
}
