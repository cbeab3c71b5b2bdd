/** What a snapshot reads after the buffer has been used: exactly when it still shows what it was made of. */
module SnapshotRuns {
  import opened Addresses
  import opened Keys
  import opened RedBlack
  import opened NodeTable
  import opened Search
  import opened Arenas
  import opened LogRecords
  import opened ValueLog
  import opened Layering
  import opened Accounting
  import opened Invariants
  import opened Flags
  import opened MemDb
  import opened Snapshots
  import opened Runs

  // ---------- below an open stage ----------

  /** While the first stage stays open, a getter reads what each key had when that stage was opened, after any writes,
      nested stages, releases and rollbacks. */
  method ReadAfterRun(g: MemdbSnapGetter, ops: seq<Op>, key: Key) returns (value: Option<Value>)
    requires g.db.Valid() && g.db.Blocks() + |ops| < MAX_UINT32 && g.db.View().layers != []
    requires g.db.stages != [] && g.cp == g.db.stages[0]
    requires Legal(g.db.View(), g.db.entrySizeLimit, ops) && StaysAbove(g.db.View(), g.db.entrySizeLimit, ops, 1)
    modifies g.db, g.db.nodeMem, g.db.vlog, g.db.vlog.mem
    ensures g.db.Valid() && old(g.db.View()).layers != []
    ensures g.db.View() == Run(old(g.db.View()), g.db.entrySizeLimit, ops)
    ensures g.db.stages != [] && g.db.stages[0] == g.cp
    ensures value == LayerAt(old(g.db.View()).layers[0], key)
  {
    hide MemDb.Valid, MemDb.View, MemDb.Blocks, Legal, StaysAbove, Run;
    SnapshotStays(g.db.View(), g.db.entrySizeLimit, ops);
    Execute(g.db, ops);
    value := g.Get(key);
  }

  ghost function LayerAt(layer: Layer, key: Key): Option<Value> {
    if key in layer then Some(layer[key]) else None
  }

  lemma OneLayer(layers: seq<Layer>, key: Key)
    requires |layers| == 1
    ensures Lookup(layers, key) == LayerAt(layers[0], key)
  {
    assert layers[..0] == [];
  }

  /** The same from the moment the first stage is opened: the getter may be made at once or after the run. */
  method OpenRunRead(db: MemDb, ops: seq<Op>, key: Key) returns (early: Option<Value>, late: Option<Value>)
    requires db.Valid() && db.Blocks() + |ops| < MAX_UINT32 && db.stages == [] && db.View().layers != []
    requires var b := Step(db.View(), db.entrySizeLimit, Open);
             Legal(b, db.entrySizeLimit, ops) && StaysAbove(b, db.entrySizeLimit, ops, 1)
    modifies db, db.nodeMem, db.vlog, db.vlog.mem
    ensures early == late == old(Lookup(db.View().layers, key))
  {
    hide MemDb.Valid, MemDb.View, Legal, StaysAbove, Run;
    LayersOfStages(db);
    OneLayer(db.View().layers, key);
    var _ := db.Staging();
    SnapshotStays(db.View(), db.entrySizeLimit, ops);
    var g := new MemdbSnapGetter(db);
    early := ReadAfterRun(g, ops, key);
    var g' := new MemdbSnapGetter(db);
    late := g'.Get(key);
  }

  // ---------- without an open stage ----------

  /** A write reaches below the snapshot: it overwrites, by another value, what one of the first `k` records says. */
  ghost predicate Overwrites(db: MemDb, k: nat, key: Key, value: Option<Value>)
    reads db, db.vlog
  {
    && value.Some? && |key| + |value.value| <= db.entrySizeLimit && key in db.index
    && WritesBelow(db.vlog.recs, db.marks, db.index[key], value.value, k)
  }

  /** Any write leaves a getter usable.  The getter goes on showing the same exactly if the write does not reach below
      the snapshot; if it does, the getter shows the new value of that key. */
  method WriteUnder(g: MemdbSnapGetter, key: Key, value: Option<Value>, ops: seq<FlagsOp>)
    requires g.db.Valid() && g.db.HasRoom() && EntryFits(key, value.GetOr([])) && Marks(g.db.vlog.recs, g.k, g.cp)
    modifies g.db, g.db.nodeMem, g.db.vlog, g.db.vlog.mem
    ensures g.db.Valid() && g.db.View() == old(Write(g.db.View(), g.db.entrySizeLimit, key, value, ops))
    ensures g.db.Blocks() <= old(g.db.Blocks()) + 1 && Marks(g.db.vlog.recs, g.k, g.cp)
    ensures g.db.stages == old(g.db.stages) && g.db.marks == old(g.db.marks)
    ensures g.Shown() == old(g.Shown()) <==> !old(Overwrites(g.db, g.k, key, value))
    ensures old(Overwrites(g.db, g.k, key, value)) ==> g.Shown() == old(g.Shown())[key := value.value]
  {
    hide MemDb.Valid, MemDb.View, MemDb.Blocks, Write, Logged, WritesBelow, Injective, Grown, ByKey, Fold, Dirties;
    NodesOfRecords(g.db);
    var _ := g.db.SetEntry(key, value, ops);
    NodesOfRecords(g.db);
    ShownAfter(old(g.db.vlog.recs), g.db.vlog.recs, g.db.marks, old(g.db.index), g.db.index, g.db.entrySizeLimit, key,
               value, g.k);
  }

  lemma ShownAfter(recs: seq<LogRec>, after: seq<LogRec>, marks: seq<nat>, index: map<Key, Addr>,
                   index': map<Key, Addr>,
                   limit: nat, key: Key, value: Option<Value>, k: nat)
    requires k <= |recs| && Logged(recs, after, marks, index', limit, key, value) && Grown(index, index')
        && Injective(index')
    requires forall i | 0 <= i < |recs| :: recs[i].node in index.Values
    ensures k <= |after| && (forall cp | Marks(recs, k, cp) :: Marks(after, k, cp))
    ensures var below := value.Some? && |key| + |value.value| <= limit && key in index
                         && WritesBelow(recs, marks, index[key], value.value, k);
            var s, s' := ByKey(Fold(recs[..k]), index), ByKey(Fold(after[..k]), index');
            && (s' == s <==> !below)
            && (below ==> s' == s[key := value.value])
  {
    hide Fold, ByKey, WritesBelow, ValueLogged;
    GrownShows(recs, index, index', k);
    if value.Some? && |key| + |value.value| <= limit {
      var x, v := index'[key], value.value;
      LoggedBelowSnapshot(recs, after, marks, x, v, k);
      if WritesBelow(recs, marks, x, v, k) {
        BelowHasRecord(recs, marks, x, v, k);
        assert recs[LastIdx(recs, x)].node in index.Values;
        OldKey(index, index', key);
        ByKeyPut(Fold(recs[..k]), index', key, v);
        ByKeyAt(Fold(recs[..k]), index, key);
        assert ByKey(Fold(recs[..k]), index)[key := v][key] == v;
      }
    }
  }

  lemma BelowHasRecord(recs: seq<LogRec>, marks: seq<nat>, x: Addr, value: Value, k: nat)
    requires WritesBelow(recs, marks, x, value, k)
    ensures 0 <= LastIdx(recs, x)
  {
  }

  lemma OldKey(index: map<Key, Addr>, index': map<Key, Addr>, key: Key)
    requires Grown(index, index') && Injective(index') && key in index' && index'[key] in index.Values
    ensures key in index && index[key] == index'[key]
  {
    var q :| q in index && index[q] == index'[key];
  }

  /** Keys that came later have no record. */
  lemma GrownShows(recs: seq<LogRec>, index: map<Key, Addr>, index': map<Key, Addr>, k: nat)
    requires k <= |recs| && Grown(index, index') && Injective(index')
    requires forall i | 0 <= i < |recs| :: recs[i].node in index.Values
    ensures ByKey(Fold(recs[..k]), index') == ByKey(Fold(recs[..k]), index)
  {
    hide Fold, Injective;
    forall q | q in index' && index'[q] in Fold(recs[..k]) ensures q in index && index[q] == index'[q] {
      FoldIsLast(recs[..k], index'[q]);
      assert recs[LastIdx(recs[..k], index'[q])].node in index.Values;
      OldKey(index, index', q);
    }
  }

  lemma ByKeyAt(m: map<Addr, Value>, index: map<Key, Addr>, key: Key)
    requires key in index && index[key] in m
    ensures key in ByKey(m, index) && ByKey(m, index)[key] == m[index[key]]
  {
  }

  /** In terms of values: right after a getter has been made without a stage, the writes that reach below it are those
      that give a key with a value another one of the same length. */
  lemma FreshOverwrites(db: MemDb, key: Key, value: Option<Value>)
    requires db.Valid() && db.stages == []
    ensures Overwrites(db, |db.vlog.recs|, key, value) <==>
              && value.Some? && |key| + |value.value| <= db.entrySizeLimit && value.value != []
              && var u := Lookup(db.View().layers, key); u.Some? && |u.value| == |value.value| && u.value != value.value
  {
    hide At, IsRedBlack, Ascending, Indexed, Linked, Allocated, Total, Fold, Layers, FlagsOf, InOrder, Vlog.Valid,
         Arena.Valid, CleanUnlessDirty;
    StagedMarks(db.vlog.recs, db.stages, db.marks);
    assert db.marks == [];
    LookupIsNewest(db.vlog.recs, db.marks, db.index, key);
    if key in db.index { FoldIsLast(db.vlog.recs, db.index[key]); }
  }

  /** With the first stage open no write reaches below it. */
  lemma StageProtects(db: MemDb, key: Key, value: Option<Value>)
    requires db.Valid() && db.marks != []
    ensures !Overwrites(db, db.marks[0], key, value)
  {
    hide At, IsRedBlack, Ascending, Indexed, Linked, Allocated, Total, Fold, Layers, FlagsOf, InOrder, Vlog.Valid,
         Arena.Valid, CleanUnlessDirty;
    StagedMarks(db.vlog.recs, db.stages, db.marks);
  }

  /** The input: a key is set, a snapshot getter made, and the key set again to a value of the same length. */
  method SnapshotShowsOverwrite(key: Key, v: Value, w: Value) returns (before: Option<Value>, after: Option<Value>)
    requires EntryFits(key, v) && |v| == |w| && v != []
    ensures before == Some(v) && after == Some(w)
  {
    hide MemDb.Valid, MemDb.View, Write, Fold, ByKey, Logged, Overwrites;
    var db := new MemDb(|key| + |v|, |key| + |v|);
    FirstWrite(db.entrySizeLimit, key, v);
    var _ := db.Set(key, v);
    var g := new MemdbSnapGetter(db);
    ShownNow(g, key);
    FreshOverwrites(db, key, Some(w));
    before := g.GetAt(key, g.k);
    WriteUnder(g, key, Some(w), []);
    after := g.GetAt(key, g.k);
  }

  lemma FirstWrite(limit: nat, key: Key, v: Value)
    requires |key| + |v| <= limit
    ensures Lookup(Write(Buffer([map[]], map[]), limit, key, Some(v), []).layers, key) == Some(v)
  {
  }

  /** A getter shows what the buffer holds when it is made without a stage. */
  lemma ShownNow(g: MemdbSnapGetter, key: Key)
    requires g.db.Valid() && g.db.stages == [] && g.k == |g.db.vlog.recs|
    ensures LayerAt(g.Shown(), key) == Lookup(g.db.View().layers, key)
  {
    hide At, IsRedBlack, Ascending, Indexed, Linked, Allocated, Total, Fold, Layers, FlagsOf, InOrder, Vlog.Valid,
         Arena.Valid, CleanUnlessDirty;
    StagedMarks(g.db.vlog.recs, g.db.stages, g.db.marks);
    LookupIsNewest(g.db.vlog.recs, g.db.marks, g.db.index, key);
    assert g.db.vlog.recs[..g.k] == g.db.vlog.recs;
  }
}
