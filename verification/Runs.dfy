/** Whole runs of the buffer: what a stage hides from the stages below it, and what it leaves behind. */
module Runs {
  import opened Addresses
  import opened Keys
  import opened RedBlack
  import opened NodeTable
  import opened Search
  import opened Arenas
  import opened LogRecords
  import opened ValueLog
  import opened Layering
  import opened Accounting
  import opened Invariants
  import opened Flags
  import opened MemDb
  import BufferListings

  /** One call.  A write without value only updates flags, and one with an empty value is a deletion. */
  datatype Op = Put(key: Key, value: Option<Value>, ops: seq<FlagsOp>) | Open | Release | Cleanup

  ghost function Step(b: Buffer, limit: nat, op: Op): (r: Buffer)
    requires b.layers != []
    ensures r.layers != []
  {
    match op
    case Put(key, value, ops) => Write(b, limit, key, value, ops)
    case Open => b.(layers := b.layers + [map[]])
    case Release => if |b.layers| > 1 then b.(layers := MergeTop(b.layers)) else b
    case Cleanup => if |b.layers| > 1 then Discard(b) else b
  }

  ghost function Run(b: Buffer, limit: nat, ops: seq<Op>): (r: Buffer)
    requires b.layers != []
    ensures r.layers != []
  {
    if ops == [] then b else Step(Run(b, limit, ops[..|ops| - 1]), limit, ops[|ops| - 1])
  }

  /** At every point of the run there are more than `d` layers. */
  ghost predicate StaysAbove(b: Buffer, limit: nat, ops: seq<Op>, d: nat)
    requires b.layers != []
  {
    forall i | 0 <= i <= |ops| :: |Run(b, limit, ops[..i]).layers| > d
  }

  lemma RunPrefix(b: Buffer, limit: nat, ops: seq<Op>, d: nat)
    requires b.layers != [] && StaysAbove(b, limit, ops, d) && ops != []
    ensures StaysAbove(b, limit, ops[..|ops| - 1], d)
    ensures |Run(b, limit, ops[..|ops| - 1]).layers| > d && |Run(b, limit, ops).layers| > d
  {
    hide Run;
    var front := ops[..|ops| - 1];
    forall i | 0 <= i <= |front| ensures |Run(b, limit, front[..i]).layers| > d {
      assert front[..i] == ops[..i];
    }
    assert ops[..|ops|] == ops;
  }

  // ---------- what a write does ----------

  /** A write within the limit is read back, and changes nothing about other keys and lower layers; one beyond the limit
      changes nothing at all. */
  lemma PutIsRead(b: Buffer, limit: nat, key: Key, value: Option<Value>, ops: seq<FlagsOp>, q: Key)
    requires b.layers != []
    ensures var r := Step(b, limit, Put(key, value, ops));
            if value.Some? && |key| + |value.value| > limit then r == b
            else
              && |r.layers| == |b.layers| && r.layers[..|b.layers| - 1] == b.layers[..|b.layers| - 1]
              && Lookup(r.layers, q) == (if q == key && value.Some? then value else Lookup(b.layers, q))
              && (q in r.flags <==> q == key || q in b.flags)
              && (q in r.flags && q != key ==> r.flags[q] == b.flags[q])
              && r.flags[key] == ApplyOps(if key in b.flags then b.flags[key] else 0, ops)
  {
    hide ApplyOps;
    var r := Step(b, limit, Put(key, value, ops));
    if value.Some? && |key| + |value.value| <= limit {
      assert r.layers[..|b.layers| - 1] == b.layers[..|b.layers| - 1];
    }
  }

  // ---------- what lies below stays ----------

  /** Layers that the run never gets down to are not touched, whatever is written, opened, released or discarded
      above them. */
  lemma {:induction false} LowerLayersStay(b: Buffer, limit: nat, ops: seq<Op>, d: nat)
    requires b.layers != [] && StaysAbove(b, limit, ops, d)
    ensures |b.layers| > d && |Run(b, limit, ops).layers| > d && Run(b, limit, ops).layers[..d] == b.layers[..d]
  {
    if ops == [] {
      assert ops[..0] == ops;
    } else {
      RunPrefix(b, limit, ops, d);
      LowerLayersStay(b, limit, ops[..|ops| - 1], d);
      StepAbove(Run(b, limit, ops[..|ops| - 1]), limit, ops[|ops| - 1], d);
    }
  }

  lemma StepAbove(b: Buffer, limit: nat, op: Op, d: nat)
    requires |b.layers| > d && |Step(b, limit, op).layers| > d
    ensures Step(b, limit, op).layers[..d] == b.layers[..d]
  {
    hide DiscardFlags;
  }

  /** While the first stage is open the bottom layer, which snapshots read, does not change. */
  lemma SnapshotStays(b: Buffer, limit: nat, ops: seq<Op>)
    requires b.layers != [] && StaysAbove(b, limit, ops, 1)
    ensures Run(b, limit, ops).layers[0] == b.layers[0]
  {
    LowerLayersStay(b, limit, ops, 1);
    assert Run(b, limit, ops).layers[..1][0] == b.layers[..1][0];
  }

  /** Opening a stage, doing anything above it, and discarding it, leaves all values as they were. */
  lemma StageIsUndone(b: Buffer, limit: nat, ops: seq<Op>)
    requires b.layers != [] && StaysAbove(Step(b, limit, Open), limit, ops, |b.layers|)
    requires |Run(Step(b, limit, Open), limit, ops).layers| == |b.layers| + 1
    ensures Step(Run(Step(b, limit, Open), limit, ops), limit, Cleanup).layers == b.layers
  {
    hide DiscardFlags;
    LowerLayersStay(Step(b, limit, Open), limit, ops, |b.layers|);
  }

  /** A key that had a value before the stage keeps its flags as they were last set; discarding does not touch them. */
  lemma FlagsOutliveStage(b: Buffer, limit: nat, ops: seq<Op>, k: Key)
    requires b.layers != [] && StaysAbove(Step(b, limit, Open), limit, ops, |b.layers|)
    requires |Run(Step(b, limit, Open), limit, ops).layers| == |b.layers| + 1
    requires Lookup(b.layers, k).Some?
    ensures var r := Run(Step(b, limit, Open), limit, ops);
            && (k in Step(r, limit, Cleanup).flags <==> k in r.flags)
            && (k in r.flags ==> Step(r, limit, Cleanup).flags[k] == r.flags[k])
  {
    LowerLayersStay(Step(b, limit, Open), limit, ops, |b.layers|);
    var r := Run(Step(b, limit, Open), limit, ops);
    assert r.layers[..|b.layers|] == b.layers;
  }

  // ---------- a released stage ----------

  /** The same buffer with two layers, `i` and the next one, in place of their merge. */
  ghost predicate Split(l: Buffer, r: Buffer, i: nat) {
    && l.flags == r.flags && i + 2 <= |l.layers|
    && r.layers == l.layers[..i] + [l.layers[i] + l.layers[i + 1]] + l.layers[i + 2..]
  }

  lemma {:induction false} SplitReadsSame(l: seq<Layer>, r: seq<Layer>, i: nat)
    requires i + 2 <= |l| && r == l[..i] + [l[i] + l[i + 1]] + l[i + 2..]
    ensures Flatten(l) == Flatten(r)
    decreases |l|
  {
    hide Flatten;
    var n := |l|;
    if n == i + 2 {
      FlattenPair(l[..i], l[i], l[i + 1]);
      assert l == l[..i] + [l[i], l[i + 1]] && r == l[..i] + [l[i] + l[i + 1]];
    } else {
      var l', r' := l[..n - 1], l[..n - 1][..i] + [l[i] + l[i + 1]] + l[..n - 1][i + 2..];
      SplitReadsSame(l', r', i);
      assert l == l' + [l[n - 1]] && r == r' + [l[n - 1]];
      FlattenSnoc(l', l[n - 1]);
      FlattenSnoc(r', l[n - 1]);
    }
  }

  lemma FlattenPair(layers: seq<Layer>, x: Layer, y: Layer)
    ensures Flatten(layers + [x, y]) == Flatten(layers + [x + y])
  {
    assert layers + [x, y] == (layers + [x]) + [y];
    FlattenSnoc(layers + [x], y);
    FlattenSnoc(layers, x);
    FlattenSnoc(layers, x + y);
  }

  /** Reading does not notice a release. */
  lemma ReleaseReadsSame(b: Buffer, limit: nat, k: Key)
    requires b.layers != []
    ensures Lookup(Step(b, limit, Release).layers, k) == Lookup(b.layers, k)
  {
    if |b.layers| > 1 {
      var n := |b.layers|;
      var r := MergeTop(b.layers);
      assert r == b.layers[..n - 2] + [b.layers[n - 2] + b.layers[n - 1]] + b.layers[n..];
      SplitReadsSame(b.layers, r, n - 2);
      LookupInFlat(b.layers, k);
      LookupInFlat(r, k);
    }
  }

  lemma SplitStep(l: Buffer, r: Buffer, i: nat, limit: nat, op: Op)
    requires Split(l, r, i) && |Step(l, limit, op).layers| >= i + 2
    ensures Split(Step(l, limit, op), Step(r, limit, op), i)
  {
    match op
    case Put(key, value, ops) => SplitPut(l, r, i, limit, op);
    case Open => assert Split(Step(l, limit, op), Step(r, limit, op), i);
    case Release => SplitRelease(l, r, i, limit);
    case Cleanup => SplitCleanup(l, r, i, limit);
  }

  lemma MergedIs(l: seq<Layer>, r: seq<Layer>, i: nat)
    requires i + 2 <= |l| && r == l[..i] + [l[i] + l[i + 1]] + l[i + 2..]
    ensures |r| == |l| - 1 && (forall j | 0 <= j < i :: r[j] == l[j]) && r[i] == l[i] + l[i + 1]
    ensures forall j | i < j < |r| :: r[j] == l[j + 1]
  {
  }

  lemma Merged(l: seq<Layer>, r: seq<Layer>, i: nat)
    requires i + 2 <= |l| && |r| == |l| - 1 && (forall j | 0 <= j < i :: r[j] == l[j]) && r[i] == l[i] + l[i + 1]
    requires forall j | i < j < |r| :: r[j] == l[j + 1]
    ensures r == l[..i] + [l[i] + l[i + 1]] + l[i + 2..]
  {
  }

  lemma SplitPut(l: Buffer, r: Buffer, i: nat, limit: nat, op: Op)
    requires Split(l, r, i) && op.Put?
    ensures Split(Step(l, limit, op), Step(r, limit, op), i)
  {
    if op.value.Some? && |op.key| + |op.value.value| <= limit {
      var k, v := op.key, op.value.value;
      MergedIs(l.layers, r.layers, i);
      PutAbove(l.layers[i], l.layers[i + 1], k, v);
      Merged(PutTop(l.layers, k, v), PutTop(r.layers, k, v), i);
    }
  }

  lemma PutAbove(x: Layer, y: Layer, k: Key, v: Value)
    ensures x + y[k := v] == (x + y)[k := v]
  {
  }

  lemma MergeThree(x: Layer, y: Layer, z: Layer)
    ensures x + (y + z) == (x + y) + z
  {
  }

  lemma SplitRelease(l: Buffer, r: Buffer, i: nat, limit: nat)
    requires Split(l, r, i) && |l.layers| > i + 2
    ensures Split(Step(l, limit, Release), Step(r, limit, Release), i)
  {
    MergedIs(l.layers, r.layers, i);
    MergeThree(l.layers[i], l.layers[i + 1], l.layers[i + 2]);
    Merged(MergeTop(l.layers), MergeTop(r.layers), i);
  }

  lemma SplitCleanup(l: Buffer, r: Buffer, i: nat, limit: nat)
    requires Split(l, r, i) && |l.layers| > i + 2
    ensures Split(Step(l, limit, Cleanup), Step(r, limit, Cleanup), i)
  {
    hide DiscardFlags, Flatten, OnlyInTop;
    var n := |l.layers|;
    var l', r' := l.layers[..n - 1], r.layers[..n - 2];
    MergedIs(l.layers, r.layers, i);
    Merged(l', r', i);
    SplitReadsSame(l', r', i);
    SameDiscarded(l.layers, r.layers, l.flags);
  }

  lemma SameDiscarded(l: seq<Layer>, r: seq<Layer>, flags: map<Key, KeyFlags>)
    requires l != [] && r != [] && l[|l| - 1] == r[|r| - 1] && Flatten(l[..|l| - 1]) == Flatten(r[..|r| - 1])
    ensures DiscardFlags(l, flags) == DiscardFlags(r, flags)
  {
    hide Flatten, OnlyInTop;
    forall k ensures OnlyInTop(l, k) <==> OnlyInTop(r, k) {
      SameTops(l, r, k);
    }
  }

  /** Whether a key is in the top layer only depends on that layer and on what the others read. */
  lemma SameTops(l: seq<Layer>, r: seq<Layer>, k: Key)
    requires l != [] && r != [] && l[|l| - 1] == r[|r| - 1] && Flatten(l[..|l| - 1]) == Flatten(r[..|r| - 1])
    ensures OnlyInTop(l, k) <==> OnlyInTop(r, k)
  {
    hide Flatten;
    LookupInFlat(l[..|l| - 1], k);
    LookupInFlat(r[..|r| - 1], k);
  }

  lemma {:induction false} SplitRun(l: Buffer, r: Buffer, i: nat, limit: nat, ops: seq<Op>)
    requires l.layers != [] && r.layers != [] && Split(l, r, i) && StaysAbove(l, limit, ops, i + 1)
    ensures Split(Run(l, limit, ops), Run(r, limit, ops), i)
  {
    hide Split, Step;
    if ops != [] {
      RunPrefix(l, limit, ops, i + 1);
      SplitRun(l, r, i, limit, ops[..|ops| - 1]);
      SplitStep(Run(l, limit, ops[..|ops| - 1]), Run(r, limit, ops[..|ops| - 1]), i, limit, ops[|ops| - 1]);
    }
  }

  lemma OpenSplits(b: Buffer, limit: nat)
    requires b.layers != []
    ensures Split(Step(b, limit, Open), b, |b.layers| - 1)
  {
    var l, i := b.layers + [map[]], |b.layers| - 1;
    assert l[i] + l[i + 1] == b.layers[i];
    Merged(l, b.layers, i);
  }

  lemma ReleaseJoins(l: Buffer, r: Buffer, i: nat, limit: nat)
    requires Split(l, r, i) && |l.layers| == i + 2
    ensures Step(l, limit, Release) == r
  {
    assert l.layers[i + 2..] == [];
  }

  /** Opening a stage, doing anything that closes what it opens, and releasing the stage, comes to the same as doing it
      without the stage. */
  lemma StageIsTransparent(b: Buffer, limit: nat, ops: seq<Op>)
    requires b.layers != [] && StaysAbove(Step(b, limit, Open), limit, ops, |b.layers|)
    requires |Run(Step(b, limit, Open), limit, ops).layers| == |b.layers| + 1
    ensures Step(Run(Step(b, limit, Open), limit, ops), limit, Release) == Run(b, limit, ops)
  {
    hide Split, Step, Run;
    OpenSplits(b, limit);
    SplitRun(Step(b, limit, Open), b, |b.layers| - 1, limit, ops);
    ReleaseJoins(Run(Step(b, limit, Open), limit, ops), Run(b, limit, ops), |b.layers| - 1, limit);
  }

  // ---------- the buffer does this ----------

  /** A call that the source does not answer with a panic: an entry fits, and a stage is closed only if one is open. */
  ghost predicate Allowed(b: Buffer, op: Op) {
    && (op.Put? ==> EntryFits(op.key, op.value.GetOr([])))
    && (op.Release? || op.Cleanup? ==> |b.layers| > 1)
  }

  ghost predicate Legal(b: Buffer, limit: nat, ops: seq<Op>)
    requires b.layers != []
  {
    forall i | 0 <= i < |ops| :: Allowed(Run(b, limit, ops[..i]), ops[i])
  }

  lemma LayersOfStages(db: MemDb)
    requires db.Valid()
    ensures |db.View().layers| == |db.stages| + 1
  {
    hide At, IsRedBlack, Ascending, Indexed, Linked, Allocated, Total, Fold, FlagsOf, InOrder, Vlog.Valid, Arena.Valid;
  }

  /** Some key is locked, or was found to have a value when it was locked. */
  ghost predicate Locked(b: Buffer) {
    exists k | k in b.flags :: Locks(b.flags[k])
  }

  /** At some point of the first `n` calls of a run a key is locked. */
  ghost predicate EverLocked(b: Buffer, limit: nat, ops: seq<Op>, n: nat)
    requires b.layers != [] && n <= |ops|
  {
    exists i | 0 <= i <= n :: Locked(Run(b, limit, ops[..i]))
  }

  lemma NeverLocked(b: Buffer, limit: nat, ops: seq<Op>)
    requires b.layers != []
    ensures EverLocked(b, limit, ops, 0) <==> Locked(b)
  {
    hide Locked;
    assert ops[..0] == [];
  }

  lemma EverLockedMore(b: Buffer, limit: nat, ops: seq<Op>, n: nat)
    requires b.layers != [] && n < |ops|
    ensures EverLocked(b, limit, ops, n + 1) <==>
              EverLocked(b, limit, ops, n) || Locked(Run(b, limit, ops[..n + 1]))
  {
    hide Run, Locked;
  }

  lemma NodesOfRecords(db: MemDb)
    requires db.Valid()
    ensures Injective(db.index) && forall i | 0 <= i < |db.vlog.recs| :: db.vlog.recs[i].node in db.index.Values
  {
    hide At, IsRedBlack, Ascending, Allocated, Total, Fold, Layers, FlagsOf, InOrder, Vlog.Valid, Arena.Valid, Staged,
         CleanUnlessDirty;
    assert db.vlog.recs[..|db.vlog.recs|] == db.vlog.recs;
    forall i | 0 <= i < |db.vlog.recs| ensures db.vlog.recs[i].node in db.index.Values {
      var a := db.vlog.recs[i].node;
      assert a in InOrder(db.tree);
      assert db.nodes[a].key in db.index && db.index[db.nodes[a].key] == a;
    }
  }

  /** A write makes the buffer dirty only without a stage, or by leaving its key locked. */
  lemma DirtyPut(b: Buffer, limit: nat, staged: bool, op: Op)
    requires b.layers != [] && op.Put?
    ensures Dirties(b, limit, staged, op.key, op.value, op.ops) ==>
              if staged then Locked(Step(b, limit, op)) else op.value.None? || |op.key| + |op.value.value| <= limit
    ensures !staged && (op.value.None? || |op.key| + |op.value.value| <= limit) ==>
              Dirties(b, limit, staged, op.key, op.value, op.ops)
  {
    hide ApplyOps, Locks, Dirties;
    DirtiesIs(b, limit, staged, op.key, op.value, op.ops);
    if Dirties(b, limit, staged, op.key, op.value, op.ops) && staged {
      var f := ApplyOps(if op.key in b.flags then b.flags[op.key] else 0, op.ops);
      assert op.key in Step(b, limit, op).flags && Step(b, limit, op).flags[op.key] == f;
    }
  }

  lemma LockedIsDirty(db: MemDb)
    requires db.Valid() && Locked(db.View())
    ensures db.dirty
  {
    hide MemDb.Valid, MemDb.View, LockBits;
    PersistentFlagsAreLocks();
    if !db.dirty { CleanHoldsNothing(db); }
  }

  /** The first stage has left records in the log exactly if its layer has values. */
  lemma WrittenAbove(db: MemDb)
    requires db.Valid() && |db.stages| == 1
    ensures |db.marks| == 1 && |db.View().layers| == 2
    ensures |db.vlog.recs| != db.marks[0] <==> db.View().layers[1] != map[]
  {
    hide At, IsRedBlack, Ascending, Indexed, Linked, Allocated, Total, Fold, FlagsOf, InOrder, Vlog.Valid, Arena.Valid,
         CleanUnlessDirty, Layers;
    var recs, m := db.vlog.recs, db.marks[0];
    StagedMarks(recs, db.stages, db.marks);
    LastLayer(recs, db.marks, db.index);
    NodesOfRecords(db);
    if |recs| != m {
      var last := recs[m..][|recs| - m - 1];
      assert last.node in db.index.Values;
      var k :| k in db.index && db.index[k] == last.node;
      LastInFold(recs[m..]);
      assert k in db.View().layers[1];
    } else {
      assert recs[m..] == [];
      EmptyFold(db.index);
    }
  }

  lemma LastInFold(recs: seq<LogRec>)
    requires recs != []
    ensures recs[|recs| - 1].node in Fold(recs)
  {
  }

  /** One call.  It leaves the first stage alone unless it closes that one.  It makes the buffer dirty exactly if a key
      is locked afterwards, if it writes without a stage, or if it releases a first stage with values. */
  method Perform(db: MemDb, op: Op)
    requires db.Valid() && db.HasRoom() && db.View().layers != [] && Allowed(db.View(), op)
    modifies db, db.nodeMem, db.vlog, db.vlog.mem
    ensures db.Valid() && old(db.View()).layers != [] && db.View() == Step(old(db.View()), db.entrySizeLimit, op)
    ensures db.Blocks() <= old(db.Blocks()) + 1
    ensures old(db.stages) != [] && db.stages != [] ==> db.stages[0] == old(db.stages)[0]
    ensures |old(db.View()).layers| == |old(db.stages)| + 1
    ensures old(db.stages) != [] && db.stages != [] ==> db.dirty == (old(db.dirty) || Locked(db.View()))
    ensures db.dirty == (
              || old(db.dirty) || Locked(db.View())
              || (op.Put? && old(db.stages) == []
                  && (op.value.None? || |op.key| + |op.value.value| <= db.entrySizeLimit))
              || (op.Release? && |old(db.stages)| == 1 && old(db.View()).layers[1] != map[]))
  {
    hide MemDb.Valid, MemDb.View, Write, MergeTop, Discard, Logged, LockBits, Dirties, ApplyOps, Locked;
    LayersOfStages(db);
    if op.Release? && |db.stages| == 1 { WrittenAbove(db); }
    match op {
      case Put(key, value, flagsOps) =>
        DirtyPut(db.View(), db.entrySizeLimit, db.stages != [], op);
        var _ := db.SetEntry(key, value, flagsOps);
      case Open =>
        var _ := db.Staging();
        assert old(db.stages) != [] ==> db.stages[..|db.stages| - 1][0] == old(db.stages)[0];
      case Release =>
        db.Release(|db.stages|);
      case Cleanup =>
        db.Cleanup(|db.stages|);
    }
    if Locked(db.View()) { LockedIsDirty(db); }
  }

  /** Over every run the buffer is what its calls make of the layers and flags, and a first stage that is not closed
      meanwhile stays the same one.  Until then the run makes the buffer dirty exactly if it ever locks a key. */
  method Execute(db: MemDb, ops: seq<Op>)
    requires db.Valid() && db.Blocks() + |ops| < MAX_UINT32
    requires db.View().layers != [] && Legal(db.View(), db.entrySizeLimit, ops)
    modifies db, db.nodeMem, db.vlog, db.vlog.mem
    ensures db.Valid() && old(db.View()).layers != [] && db.View() == Run(old(db.View()), db.entrySizeLimit, ops)
    ensures db.Blocks() <= old(db.Blocks()) + |ops|
    ensures StaysAbove(old(db.View()), db.entrySizeLimit, ops, 1) ==>
              old(db.stages) != [] && db.stages != [] && db.stages[0] == old(db.stages)[0]
    ensures StaysAbove(old(db.View()), db.entrySizeLimit, ops, 1) ==>
              (db.dirty <==> old(db.dirty) || EverLocked(old(db.View()), db.entrySizeLimit, ops, |ops|))
  {
    hide MemDb.Valid, MemDb.View, MemDb.Blocks, Step, Allowed, EverLocked, Locked;
    ghost var b, limit := db.View(), db.entrySizeLimit;
    assert ops[..0] == [];
    LayersOfStages(db);
    if Locked(b) { LockedIsDirty(db); }
    NeverLocked(b, limit, ops);
    for i := 0 to |ops|
      invariant db.Valid() && db.View() == Run(b, limit, ops[..i]) && db.Blocks() <= old(db.Blocks()) + i
      invariant |db.View().layers| == |db.stages| + 1
      invariant StaysAbove(b, limit, ops, 1) ==>
                  old(db.stages) != [] && db.stages != [] && db.stages[0] == old(db.stages)[0]
      invariant StaysAbove(b, limit, ops, 1) ==> (db.dirty <==> old(db.dirty) || EverLocked(b, limit, ops, i))
    {
      assert ops[..i + 1][..i] == ops[..i] && ops[i] in ops;
      EverLockedMore(b, limit, ops, i);
      Perform(db, ops[i]);
      LayersOfStages(db);
    }
    assert ops[..|ops|] == ops;
  }

  /** Opening a stage, doing anything above it, and discarding it.  All values are as before, and the buffer is dirty
      afterwards exactly if it was, or if the run has ever locked a key: a clean buffer stays clean otherwise. */
  method ExecuteAndDiscard(db: MemDb, ops: seq<Op>)
    requires db.Valid() && db.Blocks() + |ops| < MAX_UINT32 && db.View().layers != []
    requires var b, limit := Step(db.View(), db.entrySizeLimit, Open), db.entrySizeLimit;
             && Legal(b, limit, ops) && StaysAbove(b, limit, ops, |db.View().layers|)
             && |Run(b, limit, ops).layers| == |db.View().layers| + 1
    modifies db, db.nodeMem, db.vlog, db.vlog.mem
    ensures db.Valid() && old(db.View()).layers != [] && db.View().layers == old(db.View()).layers
    ensures db.dirty <==>
              old(db.dirty) || EverLocked(Step(old(db.View()), db.entrySizeLimit, Open), db.entrySizeLimit, ops, |ops|)
  {
    hide MemDb.Valid, MemDb.View, Write, MergeTop, DiscardFlags, Allowed, Legal, Run, EverLocked, Locked;
    ghost var b, limit := db.View(), db.entrySizeLimit;
    StageIsUndone(b, limit, ops);
    LayersOfStages(db);
    var h := db.Staging();
    Execute(db, ops);
    LayersOfStages(db);
    db.Cleanup(|db.stages|);
  }

  // ---------- what outlives a discarded stage ----------

  /** Of the flags of a key that loses its only value, exactly the bits that locking sets are kept, and the key stays
      exactly if it has one of them. */
  lemma LocksOutliveStage(b: Buffer, limit: nat, k: Key)
    requires |b.layers| > 1 && k in b.flags && k in b.layers[|b.layers| - 1]
    requires Lookup(b.layers[..|b.layers| - 1], k).None?
    ensures var r, kept := Step(b, limit, Cleanup), b.flags[k] & LockBits();
            && (k in r.flags <==> kept != 0)
            && (k in r.flags ==> r.flags[k] == kept)
  {
    hide Lookup, LockBits;
    PersistentFlagsAreLocks();
  }

  /** The flags of all other keys stay. */
  lemma OtherFlagsStay(b: Buffer, limit: nat, k: Key)
    requires |b.layers| > 1 && (k !in b.layers[|b.layers| - 1] || Lookup(b.layers[..|b.layers| - 1], k).Some?)
    ensures var r := Step(b, limit, Cleanup);
            (k in r.flags <==> k in b.flags) && (k in b.flags ==> r.flags[k] == b.flags[k])
  {
    hide Lookup;
  }

  /** The same for a key that is written in the stage with any flag operations. */
  lemma WrittenThenDiscarded(b: Buffer, limit: nat, key: Key, value: Value, ops: seq<FlagsOp>)
    requires |b.layers| > 1 && Lookup(b.layers[..|b.layers| - 1], key).None? && |key| + |value| <= limit
    ensures var r := Step(Step(b, limit, Put(key, Some(value), ops)), limit, Cleanup);
            var kept := ApplyOps(if key in b.flags then b.flags[key] else 0, ops) & LockBits();
            && Lookup(r.layers, key).None?
            && (key in r.flags <==> kept != 0)
            && (key in r.flags ==> r.flags[key] == kept)
  {
    hide Lookup, LockBits, ApplyOps, DiscardFlags;
    var w := Step(b, limit, Put(key, Some(value), ops));
    assert w.layers[..|w.layers| - 1] == b.layers[..|b.layers| - 1];
    LocksOutliveStage(w, limit, key);
  }

  /** What is left of a new key for each operation that sets flags. */
  lemma SingleFlags(b: Buffer, limit: nat, key: Key, value: Value, op: FlagsOp)
    requires |b.layers| > 1 && Lookup(b.layers[..|b.layers| - 1], key).None? && |key| + |value| <= limit
    requires key !in b.flags
    ensures var r := Step(Step(b, limit, Put(key, Some(value), [op])), limit, Cleanup);
            match op
            case SetKeyLocked => key in r.flags && r.flags[key] == 2
            case SetKeyLockedValueExists => key in r.flags && r.flags[key] == 4
            case SetPresumeKeyNotExists => key !in r.flags
            case SetNoNeedCommit => key !in r.flags
            case _ => key !in r.flags
  {
    WrittenThenDiscarded(b, limit, key, value, [op]);
    hide Step, Lookup;
    OneOp(op);
  }

  lemma OneOp(op: FlagsOp)
    ensures ApplyOps(0, [op]) & LockBits() ==
              match op case SetKeyLocked => 2 case SetKeyLockedValueExists => 4 case _ => 0
  {
    assert [op][..0] == [];
  }

  lemma NewKeyDiscarded(b: Buffer, limit: nat, key: Key, value: Value, ops: seq<FlagsOp>)
    requires b == Buffer([map[]] + [map[]], map[]) && |key| + |value| <= limit
    ensures var w, kept := Write(b, limit, key, Some(value), ops), ApplyOps(0, ops) & LockBits();
            && |w.layers| == 2
            && (key in Discard(w).flags <==> kept != 0)
            && (key in Discard(w).flags ==> Discard(w).flags[key] == kept)
            && (Dirties(b, limit, true, key, Some(value), ops) <==> kept != 0)
  {
    hide LockBits, ApplyOps, DiscardFlags;
    NewKey(b.layers, key);
    WrittenThenDiscarded(b, limit, key, value, ops);
    NewKeyDirties(b, limit, key, value, ops);
  }

  lemma NewKey(layers: seq<Layer>, key: Key)
    requires layers == [map[]] + [map[]]
    ensures Lookup(layers[..|layers| - 1], key).None?
  {
    var bottom: seq<Layer> := [map[]];
    assert layers[..1] == bottom && bottom[..0] == [];
  }

  lemma NewKeyDirties(b: Buffer, limit: nat, key: Key, value: Value, ops: seq<FlagsOp>)
    requires key !in b.flags && |key| + |value| <= limit
    ensures Dirties(b, limit, true, key, Some(value), ops) <==> ApplyOps(0, ops) & LockBits() != 0
  {
    DirtiesIs(b, limit, true, key, Some(value), ops);
  }

  /** On a new buffer: a key is written in a stage with flag operations, and the stage is discarded. */
  method WriteAndDiscard(key: Key, value: Value, ops: seq<FlagsOp>) returns (flags: Option<KeyFlags>, dirty: bool)
    requires EntryFits(key, value) && value != []
    ensures var kept := ApplyOps(0, ops) & LockBits();
            flags == (if kept != 0 then Some(kept) else None) && dirty == (kept != 0)
  {
    hide MemDb.Valid, MemDb.View, Discard, LockBits, ApplyOps, Dirties, Write, Logged, Grown;
    var db := new MemDb(|key| + |value|, |key| + |value|);
    var h := db.Staging();
    NewKeyDiscarded(db.View(), db.entrySizeLimit, key, value, ops);
    var _ := db.SetWithFlags(key, value, ops);
    db.Cleanup(h);
    flags := db.GetFlags(key);
    dirty := db.dirty;
  }

  // ---------- what the fields say ----------

  /** A buffer that is not dirty holds nothing that discarding the open stages would leave behind: the bottom layer is
      empty, and no key has a persistent flag. */
  lemma CleanHoldsNothing(db: MemDb)
    requires db.Valid() && !db.dirty
    ensures db.View().layers != [] && db.View().layers[0] == map[]
    ensures forall k | k in db.View().flags :: db.View().flags[k] & PERSISTENT_FLAGS == 0
  {
    hide At, IsRedBlack, Ascending, Linked, Allocated, Total, Fold, Layers, InOrder, Vlog.Valid, Arena.Valid;
    StagedMarks(db.vlog.recs, db.stages, db.marks);
    BottomLayer(db.vlog.recs, db.marks, db.index);
    assert db.vlog.recs[..0] == [];
    EmptyFold(db.index);
  }

  lemma EmptyFold(index: map<Key, Addr>)
    ensures ByKey(Fold([]), index) == map[]
  {
  }

  /** Len is the number of keys that have a node. */
  lemma LenCountsKeys(db: MemDb)
    requires db.Valid()
    ensures db.count == |db.View().flags|
  {
    hide At, IsRedBlack, Ascending, Linked, Allocated, Total, Fold, Layers, InOrder, Vlog.Valid, Arena.Valid, Staged,
         CleanUnlessDirty;
    OrderNoRepeats(db.nodes, db.root, db.tree);
    IndexSize(db.nodes, InOrder(db.tree), db.index);
    FlagsKeys(db.nodes, InOrder(db.tree), db.index);
    assert db.View().flags.Keys == db.index.Keys;
  }

  lemma {:induction false} IndexSize(n: Table, s: seq<Addr>, index: map<Key, Addr>)
    requires NoRepeats(s) && Indexed(n, s, index)
    ensures |index| == |s|
  {
    if s == [] {
      assert index == map[];
    } else {
      var i := |s| - 1;
      IndexedRemove(n, s, index, i);
      assert s[..i] + s[i + 1..] == s[..i];
      assert NoRepeats(s[..i]);
      var k := n[s[i]].key;
      IndexSize(n, s[..i], index - {k});
      assert index.Keys == (index - {k}).Keys + {k};
    }
  }

  /** The bytes of some keys and of the values that they have. */
  ghost function EntryBytes(keys: set<Key>, values: Layer): nat {
    if keys == {} then 0
    else
      var k :| k in keys;
      |k| + (if k in values then |values[k]| else 0) + EntryBytes(keys - {k}, values)
  }

  /** The order in which the keys are counted does not matter. */
  lemma {:induction false} EntryBytesWithout(keys: set<Key>, values: Layer, k: Key)
    requires k in keys
    ensures EntryBytes(keys, values) == |k| + (if k in values then |values[k]| else 0) + EntryBytes(keys - {k}, values)
  {
    var q :| q in keys && EntryBytes(keys, values)
                          == |q| + (if q in values then |values[q]| else 0) + EntryBytes(keys - {q}, values);
    if q != k {
      EntryBytesWithout(keys - {q}, values, k);
      EntryBytesWithout(keys - {k}, values, q);
      assert keys - {q} - {k} == keys - {k} - {q};
    }
  }

  /** Size is the bytes of all keys that have a node and of the newest values, of which a layer below counts only if no
      layer above has the key. */
  lemma SizeCountsBytes(db: MemDb)
    requires db.Valid()
    ensures db.size == EntryBytes(db.View().flags.Keys, Flatten(db.View().layers))
  {
    hide At, IsRedBlack, Ascending, Linked, Allocated, Total, Fold, Layers, InOrder, Vlog.Valid, Arena.Valid, Staged,
         CleanUnlessDirty;
    hide EntryBytes, Flatten;
    var s := InOrder(db.tree);
    assert db.vlog.recs[..|db.vlog.recs|] == db.vlog.recs;
    OrderNoRepeats(db.nodes, db.root, db.tree);
    FlagsKeys(db.nodes, s, db.index);
    assert db.View().flags.Keys == db.index.Keys;
    BufferListings.ContentsIsFlat(db);
    TotalIsBytes(db.nodes, s, db.index, Fold(db.vlog.recs), BufferListings.Contents(db));
  }

  /** Summing node by node is summing key by key. */
  lemma {:induction false} TotalIsBytes(n: Table, s: seq<Addr>, index: map<Key, Addr>, vals: map<Addr, Value>,
                                        values: Layer)
    requires NoRepeats(s) && Indexed(n, s, index) && (forall a | a in s :: a in n)
    requires forall k | k in index ::
        (k in values <==> index[k] in vals) && (k in values ==> values[k] == vals[index[k]])
    ensures Total(s, n, vals) == EntryBytes(index.Keys, values)
    decreases |s|
  {
    hide Indexed, NoRepeats;
    if s == [] {
      NoneIndexed(n, s, index);
    } else {
      FirstIndexed(n, s, index);
      var k := n[s[0]].key;
      TotalIsBytes(n, s[1..], index - {k}, vals, values);
      EntryBytesWithout(index.Keys, values, k);
    }
  }

  lemma NoneIndexed(n: Table, s: seq<Addr>, index: map<Key, Addr>)
    requires Indexed(n, s, index) && s == []
    ensures index.Keys == {}
  {
  }

  lemma FirstIndexed(n: Table, s: seq<Addr>, index: map<Key, Addr>)
    requires NoRepeats(s) && Indexed(n, s, index) && s != []
    ensures s[0] in n && n[s[0]].key in index && index[n[s[0]].key] == s[0]
    ensures NoRepeats(s[1..]) && Indexed(n, s[1..], index - {n[s[0]].key})
    ensures (index - {n[s[0]].key}).Keys == index.Keys - {n[s[0]].key}
  {
    assert s[0] in s;
    IndexedRemove(n, s, index, 0);
    assert s[..0] + s[1..] == s[1..];
  }
}
