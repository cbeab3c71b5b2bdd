/** Going through what a stage and the stages above it have written. */
module Inspections {
  import opened Addresses
  import opened Keys
  import opened RedBlack
  import opened NodeTable
  import opened Search
  import opened Arenas
  import opened LogRecords
  import opened ValueLog
  import opened Layering
  import opened Accounting
  import opened Invariants
  import opened MemDb

  /** The upper layers are the back of the log. */
  lemma {:induction false} UpperLayers(recs: seq<LogRec>, marks: seq<nat>, index: map<Key, Addr>, h: nat)
    requires MarksOk(|recs|, marks) && 0 < h <= |marks|
    ensures Flatten(Layers(recs, marks, index)[h..]) == ByKey(Fold(recs[marks[h - 1]..]), index)
    decreases marks
  {
    hide Fold, ByKey;
    var below, m := marks[..|marks| - 1], marks[|marks| - 1];
    var lower, top := Layers(recs[..m], below, index), ByKey(Fold(recs[m..]), index);
    if h == |marks| {
      assert Layers(recs, marks, index)[h..] == [top];
      FlattenOne(top);
    } else {
      var k := marks[h - 1];
      UpperLayers(recs[..m], below, index, h);
      assert Layers(recs, marks, index)[h..] == lower[h..] + [top];
      FlattenSnoc(lower[h..], top);
      assert recs[k..] == recs[..m][k..] + recs[m..];
      ByKeyConcat(recs[..m][k..], recs[m..], index);
    }
  }

  lemma FlattenOne(top: Layer)
    ensures Flatten([top]) == top
  {
    assert [top][..0] == [];
  }

  /** One call of the function that the caller passes in. */
  datatype Call = Call(key: Key, flags: KeyFlags, value: Value)

  /** The records from `m` on that are the newest ones of their nodes, last first. */
  ghost function NewestFrom(recs: seq<LogRec>, m: nat): seq<nat>
    requires m <= |recs|
    decreases |recs| - m
  {
    if m == |recs| then []
    else NewestFrom(recs, m + 1) + if LastIdx(recs, recs[m].node) == m then [m] else []
  }

  lemma {:induction false} NewestFromIs(recs: seq<LogRec>, m: nat)
    requires m <= |recs|
    ensures forall i :: i in NewestFrom(recs, m) <==> m <= i < |recs| && LastIdx(recs, recs[i].node) == i
    ensures forall i, j | 0 <= i < j < |NewestFrom(recs, m)| :: NewestFrom(recs, m)[i] > NewestFrom(recs, m)[j]
    decreases |recs| - m
  {
    hide LastIdx;
    if m < |recs| {
      NewestFromIs(recs, m + 1);
      var front := NewestFrom(recs, m + 1);
      assert forall i | 0 <= i < |front| :: front[i] in front;
    }
  }

  ghost function CallOf(n: Table, r: LogRec): Call {
    Call(if r.node in n then n[r.node].key else [], if r.node in n then n[r.node].flags else 0, r.value)
  }

  ghost function CallsOf(n: Table, recs: seq<LogRec>, idxs: seq<nat>): seq<Call>
    requires forall i | i in idxs :: i < |recs|
  {
    seq(|idxs|, i requires 0 <= i < |idxs| => assert idxs[i] in idxs; CallOf(n, recs[idxs[i]]))
  }

  /** One turn: calls back if the record before the cursor is the newest one of its node, and moves back over it. */
  method InspectRecord(db: MemDb, cursor: Checkpoint, ghost m: nat) returns (call: Option<Call>, back: Checkpoint)
    requires db.Valid() && 0 < m <= |db.vlog.recs| && Marks(db.vlog.recs, m, cursor)
    ensures Marks(db.vlog.recs, m - 1, back)
    ensures var r := db.vlog.recs[m - 1];
            call == if LastIdx(db.vlog.recs, r.node) == m - 1 then Some(CallOf(db.nodes, r)) else None
  {
    hide At, IsRedBlack, Ascending, Indexed, Linked, Allocated, Total, Fold, Layers, FlagsOf, InOrder, Vlog.Valid,
         Arena.Valid;
    hide CleanUnlessDirty, LastIdx;
    AtNewest(db, m);
    var cursorAddr := Addr(cursor.blocks - 1, cursor.offsetInBlock);
    var hdr := db.vlog.ReadHdr(cursorAddr, m - 1);
    var node := hdr.nodeAddr;
    call := None;
    if db.nodes[node].vptr == cursorAddr {
      var value := db.vlog.GetValue(cursorAddr, m - 1);
      call := Some(Call(db.nodes[node].key, db.nodes[node].flags, value));
    }
    back := db.vlog.MoveBackCursor(cursor, hdr, m);
  }

  /** Calls back exactly once, newest first, for each key that the stage `h` or one above it has given a value,
      with the present value and flags. */
  method InspectStage(db: MemDb, h: nat) returns (calls: seq<Call>)
    requires db.Valid() && 0 < h <= |db.stages|
    ensures h <= |db.View().layers|
    ensures forall i, j | 0 <= i < j < |calls| :: calls[i].key != calls[j].key
    ensures var written := Flatten(db.View().layers[h..]);
            && (forall c | c in calls :: c.key in written && c.value == written[c.key])
            && (forall k | k in written :: exists c :: c in calls && c.key == k)
    ensures forall c | c in calls :: c.key in db.View().flags && c.flags == db.View().flags[c.key]
  {
    hide At, IsRedBlack, Ascending, Indexed, Linked, Allocated, Total, Fold, Layers, FlagsOf, InOrder, Vlog.Valid,
         Arena.Valid;
    hide CleanUnlessDirty, MemDb.Valid, NewestFrom, CallsOf, LastIdx;
    StageStart(db, h);
    var head := db.stages[h - 1];
    ghost var k, m, recs := db.marks[h - 1], |db.vlog.recs|, db.vlog.recs;
    var cursor := db.vlog.TakeCheckpoint();
    db.vlog.SamePosition(k, m, head, cursor);
    calls := [];
    NoneNewest(db.nodes, recs);
    while !head.IsSamePosition(cursor)
      invariant k <= m <= |recs| && Marks(recs, m, cursor) && (head.IsSamePosition(cursor) <==> k == m)
      invariant InRecs(recs, NewestFrom(recs, m)) && calls == CallsOf(db.nodes, recs, NewestFrom(recs, m))
      decreases m
    {
      MoreNewest(db.nodes, recs, m - 1);
      var call;
      call, cursor := InspectRecord(db, cursor, m);
      if call.Some? {
        calls := calls + [call.value];
      }
      m := m - 1;
      db.vlog.SamePosition(k, m, head, cursor);
    }
    CallsKeys(db, k);
    CallsAre(db, h, calls);
  }

  lemma StageStart(db: MemDb, h: nat)
    requires db.Valid() && 0 < h <= |db.stages|
    ensures |db.marks| == |db.stages| && MarksOk(|db.vlog.recs|, db.marks) && |db.View().layers| == |db.marks| + 1
    ensures Marks(db.vlog.recs, db.marks[h - 1], db.stages[h - 1]) && db.vlog.Valid()
  {
    hide At, IsRedBlack, Ascending, Indexed, Linked, Allocated, Total, Fold, Layers, FlagsOf, InOrder, Vlog.Valid,
         Arena.Valid;
    StagedAt(db.vlog.recs, db.stages, db.marks, h - 1);
  }

  ghost predicate InRecs(recs: seq<LogRec>, idxs: seq<nat>) {
    forall i | i in idxs :: i < |recs|
  }

  lemma NoneNewest(n: Table, recs: seq<LogRec>)
    ensures InRecs(recs, NewestFrom(recs, |recs|)) && CallsOf(n, recs, NewestFrom(recs, |recs|)) == []
  {
  }

  lemma MoreNewest(n: Table, recs: seq<LogRec>, m: nat)
    requires m < |recs| && InRecs(recs, NewestFrom(recs, m + 1))
    ensures InRecs(recs, NewestFrom(recs, m))
    ensures CallsOf(n, recs, NewestFrom(recs, m))
         == CallsOf(n, recs, NewestFrom(recs, m + 1)) + if LastIdx(recs, recs[m].node) == m then [CallOf(n, recs[m])]
           else []
  {
    hide LastIdx;
  }

  /** A node's value pointer is the address of a record exactly if that is its newest record. */
  lemma AtNewest(db: MemDb, m: nat)
    requires db.Valid() && 0 < m <= |db.vlog.recs|
    ensures var r := db.vlog.recs[m - 1];
            && r.node in db.nodes && r.node in InOrder(db.tree)
            && (db.nodes[r.node].vptr == r.At() <==> LastIdx(db.vlog.recs, r.node) == m - 1)
  {
    hide At, IsRedBlack, Ascending, Indexed, Allocated, Total, Fold, Layers, FlagsOf, InOrder, Arena.Valid,
         CleanUnlessDirty, Staged;
    hide Chained;
    var recs, r := db.vlog.recs, db.vlog.recs[m - 1];
    assert recs[..|recs|] == recs;
    db.VptrIsNewest(r.node);
    var i := LastIdx(recs, r.node);
    if recs[i].At() == r.At() { DistinctAddrs(db.vlog.mem.blocks, recs, m - 1, i); }
  }

  lemma FoldBack(recs: seq<LogRec>, k: nat, a: Addr)
    requires k <= |recs|
    ensures a in Fold(recs[k..]) <==> LastIdx(recs, a) >= k
    ensures LastIdx(recs, a) >= k ==> Fold(recs[k..])[a] == recs[LastIdx(recs, a)].value
  {
    hide Fold;
    FoldIsLast(recs[k..], a);
    var i := LastIdx(recs, a);
    assert forall j | k <= j < |recs| :: recs[k..][j - k] == recs[j];
    if i >= k { LastIdxUnique(recs[k..], a, i - k); }
  }

  /** What the `j`-th call tells about: the newest record of the node that its key has. */
  lemma CallAt(db: MemDb, k: nat, j: nat)
    requires db.Valid() && k <= |db.vlog.recs| && InRecs(db.vlog.recs, NewestFrom(db.vlog.recs, k))
    requires j < |NewestFrom(db.vlog.recs, k)|
    ensures var recs, i, c := db.vlog.recs, NewestFrom(db.vlog.recs, k)[j],
                              CallsOf(db.nodes, db.vlog.recs, NewestFrom(db.vlog.recs, k))[j];
            && k <= i < |recs| && i == LastIdx(recs, recs[i].node) && recs[i].node in db.nodes
            && c == Call(db.nodes[recs[i].node].key, db.nodes[recs[i].node].flags, recs[i].value)
            && c.key in db.index && db.index[c.key] == recs[i].node
  {
    hide At, IsRedBlack, Ascending, Indexed, Linked, Allocated, Total, Fold, Layers, InOrder, Vlog.Valid, Arena.Valid;
    hide CleanUnlessDirty, Staged, LastIdx, NewestFrom;
    var recs, idxs := db.vlog.recs, NewestFrom(db.vlog.recs, k);
    assert idxs[j] in idxs;
    NewestFromIs(recs, k);
    AtNewest(db, idxs[j] + 1);
    AddrOfKey(db.nodes, InOrder(db.tree), db.index, recs[idxs[j]].node);
  }

  /** A key that has a record behind the first `k` is called. */
  lemma CallOfKey(db: MemDb, k: nat, key: Key) returns (j: nat)
    requires db.Valid() && k <= |db.vlog.recs| && InRecs(db.vlog.recs, NewestFrom(db.vlog.recs, k))
    requires key in db.index && LastIdx(db.vlog.recs, db.index[key]) >= k
    ensures j < |NewestFrom(db.vlog.recs, k)|
    ensures CallsOf(db.nodes, db.vlog.recs, NewestFrom(db.vlog.recs, k))[j].key == key
  {
    hide At, IsRedBlack, Ascending, Indexed, Linked, Allocated, Total, Fold, Layers, InOrder, Vlog.Valid, Arena.Valid;
    hide CleanUnlessDirty, Staged, NewestFrom;
    var recs, idxs := db.vlog.recs, NewestFrom(db.vlog.recs, k);
    var i := LastIdx(recs, db.index[key]);
    NewestFromIs(recs, k);
    j :| 0 <= j < |idxs| && idxs[j] == i;
    IndexedAddr(db.nodes, InOrder(db.tree), db.index, key);
  }

  /** The calls go to different keys of the tree. */
  lemma CallsKeys(db: MemDb, k: nat)
    requires db.Valid() && k <= |db.vlog.recs| && InRecs(db.vlog.recs, NewestFrom(db.vlog.recs, k))
    ensures var calls := CallsOf(db.nodes, db.vlog.recs, NewestFrom(db.vlog.recs, k));
            && (forall i, j | 0 <= i < j < |calls| :: calls[i].key != calls[j].key)
            && (forall c | c in calls :: c.key in db.View().flags && c.flags == db.View().flags[c.key])
  {
    hide MemDb.Valid, Layers, LastIdx, NewestFrom, InRecs;
    var idxs := NewestFrom(db.vlog.recs, k);
    NewestFromIs(db.vlog.recs, k);
    var calls := CallsOf(db.nodes, db.vlog.recs, idxs);
    forall i, j | 0 <= i < j < |calls| ensures calls[i].key != calls[j].key {
      CallAt(db, k, i);
      CallAt(db, k, j);
    }
    forall c | c in calls ensures c.key in db.View().flags && c.flags == db.View().flags[c.key] {
      var i :| 0 <= i < |calls| && calls[i] == c;
      CallAt(db, k, i);
    }
  }

  /** The calls are what the stages hold. */
  lemma CallsAre(db: MemDb, h: nat, calls: seq<Call>)
    requires db.Valid() && 0 < h <= |db.stages| && h <= |db.marks| && db.marks[h - 1] <= |db.vlog.recs|
        && h <= |db.View().layers|
    requires InRecs(db.vlog.recs, NewestFrom(db.vlog.recs, db.marks[h - 1]))
    requires calls == CallsOf(db.nodes, db.vlog.recs, NewestFrom(db.vlog.recs, db.marks[h - 1]))
    ensures var written := Flatten(db.View().layers[h..]);
            && (forall c | c in calls :: c.key in written && c.value == written[c.key])
            && (forall k | k in written :: exists c :: c in calls && c.key == k)
  {
    hide MemDb.Valid, Fold, Layers, Flatten, LastIdx, NewestFrom, InRecs, FlagsOf;
    var recs, k := db.vlog.recs, db.marks[h - 1];
    StageStart(db, h);
    UpperLayers(recs, db.marks, db.index, h);
    var written := ByKey(Fold(recs[k..]), db.index);
    forall c | c in calls ensures c.key in written && c.value == written[c.key] {
      var i :| 0 <= i < |calls| && calls[i] == c;
      CallAt(db, k, i);
      FoldBack(recs, k, db.index[c.key]);
    }
    forall key | key in written ensures exists c :: c in calls && c.key == key {
      FoldBack(recs, k, db.index[key]);
      var j := CallOfKey(db, k, key);
      assert calls[j] in calls;
    }
  }
}
