/** Keeping the schema up to date: reloading it by diffs or as a whole, and telling the validator. */
module Petris {
  import opened Bits
  import opened Layering
  import opened Catalogs
  import opened Replicants
  import opened SchemaSteps
  import opened DiffLoads
  import opened Builders
  import opened FullLoads
  import opened SchemaValidators

  const INITIAL_VERSION := 0
  const MAX_NUMBER_OF_DIFFS_TO_LOAD := 100

  /** A snapshot of storage: the schema version, the catalog at that version, and the diffs that are still there. */
  datatype Meta = Meta(version: int, catalog: Catalog, diffs: map<int, Diff>)

  predicate IsTooOldSchema(usedVersion: int, newVersion: int) {
    usedVersion == INITIAL_VERSION || newVersion - usedVersion > MAX_NUMBER_OF_DIFFS_TO_LOAD
  }

  /** The objects that a replicant is made of. */
  ghost function Parts(r: SchemaReplicant?): set<object>
    reads r
  {
    if r == null then {} else {r} + r.schemaMap.Values + set s | s in r.buckets
  }

  /** The published replicant. */
  class Handle {
    var value: SchemaReplicant?

    constructor ()
      ensures value == null
    {
      value := null;
    }
  }

  /** The databases have been read, but for some. */
  ghost predicate ReadBut(dbInfos: seq<DbInfo>, f: Catalog, ids: set<nat>) {
    && (forall i, j | 0 <= i < j < |dbInfos| :: dbInfos[i].db.id != dbInfos[j].db.id)
    && (forall x | x in dbInfos :: x.db.id in f.dbs && x.db.id !in ids && f.dbs[x.db.id] == x.db && TablesOf(x, f))
    && (forall i | i in f.dbs && i !in ids :: exists x :: x in dbInfos && x.db.id == i)
  }

  lemma NoneRead(f: Catalog)
    ensures ReadBut([], f, f.dbs.Keys)
  {
  }

  lemma AllReadNow(dbInfos: seq<DbInfo>, f: Catalog)
    requires ReadBut(dbInfos, f, {})
    ensures ReadsAll(dbInfos, f)
  {
  }

  lemma ReadMore(dbInfos: seq<DbInfo>, f: Catalog, ids: set<nat>, x: DbInfo)
    requires ReadBut(dbInfos, f, ids) && x.db.id in ids && x.db.id in f.dbs && f.dbs[x.db.id] == x.db && TablesOf(x, f)
    ensures ReadBut(dbInfos + [x], f, ids - {x.db.id})
  {
    hide TablesOf;
    assert forall i | 0 <= i < |dbInfos| :: dbInfos[i] in dbInfos;
    Appended(dbInfos, x);
    forall i | i in f.dbs && i !in ids - {x.db.id} ensures exists y :: y in dbInfos + [x] && y.db.id == i {
      if i == x.db.id { assert x in dbInfos + [x]; }
    }
  }

  /** Reads all databases and tables. */
  method FetchAllSchemasWithBlocks(f: Catalog) returns (dbInfos: seq<DbInfo>)
    requires WellFormed(f)
    ensures ReadsAll(dbInfos, f)
  {
    hide UniqueIds, SamePlace, ReadBut;
    dbInfos := [];
    var ids := f.dbs.Keys;
    NoneRead(f);
    while ids != {}
      invariant ids <= f.dbs.Keys && ReadBut(dbInfos, f, ids)
      decreases ids
    {
      NoIndex(ids);
      var id :| id in ids;
      var infos := ListBlocks(f, id);
      var x := DbInfo(f.dbs[id], infos);
      ReadMore(dbInfos, f, ids, x);
      dbInfos := dbInfos + [x];
      ids := ids - {id};
    }
    AllReadNow(dbInfos, f);
  }

  lemma Appended(s: seq<DbInfo>, x: DbInfo)
    ensures forall y :: y in s + [x] <==> y in s || y == x
  {
  }

  method ListBlocks(f: Catalog, db: nat) returns (infos: seq<BlockInfo>)
    requires WellFormed(f)
    ensures UniqueIds(infos) && forall t :: t in infos <==> t.id in f.tables && f.tables[t.id] == Placed(db, t)
  {
    hide UniqueIds, SamePlace;
    infos := [];
    NoIds();
    var ids := f.tables.Keys;
    while ids != {}
      invariant ids <= f.tables.Keys && UniqueIds(infos)
      invariant forall t :: t in infos <==> t.id in f.tables && t.id !in ids && f.tables[t.id] == Placed(db, t)
      decreases ids
    {
      NoIndex(ids);
      var id :| id in ids;
      if f.tables[id].db == db {
        AppendUnique(infos, f.tables[id].info);
        infos := infos + [f.tables[id].info];
      }
      ids := ids - {id};
    }
  }

  /** A partition that a table has at every version, from just before the given one on, at which the table is there. */
  ghost predicate Lasts(ws: int -> Catalog, v: int, j: nat, p: nat) {
    forall u | u >= v - 1 && j in ws(u).tables :: p in ws(u).tables[j].info.parts
  }

  /** The partitions of the tables that a version changes, as far as they last. */
  ghost function LastingParts(ws: int -> Catalog, v: int): set<nat> {
    set j, p | j in Changed(ws(v - 1), ws(v)) && p in PartsAt(ws(v - 1), j) + PartsAt(ws(v), j)
      && Lasts(ws, v, j, p) :: p
  }

  function PartsAt(c: Catalog, j: nat): seq<nat> {
    if j in c.tables then c.tables[j].info.parts else []
  }

  /** What the versions change that running transactions must know: tables, and partitions that last. */
  ghost function Log(ws: int -> Catalog, ds: int -> Diff): int -> set<int> {
    v => if v > 0 && ds(v).tp != SetTiFlashReplica && ds(v).tp != UpdateTiFlashReplicaStatus
         then Changed(ws(v - 1), ws(v)) + LastingParts(ws, v) else {}
  }

  /** Every change of these versions is reported, with the bit of its action. */
  ghost predicate Covers(change: seq<Touch>, ws: int -> Catalog, ds: int -> Diff, lo: int, hi: int) {
    forall v, j | lo < v <= hi && j in Log(ws, ds)(v) :: Touch(j, ds(v).bit) in change
  }

  /** One of these versions has such a touch, read when the schema is at version `hi`. */
  ghost predicate Reported(t: Touch, ws: int -> Catalog, ds: int -> Diff, lo: int, v: int, hi: int) {
    exists u | lo < u <= v ::
      && ds(u).tp != SetTiFlashReplica && ds(u).tp != UpdateTiFlashReplicaStatus
      && t.action == ds(u).bit && Concerns(ws(u - 1), ws(hi), ds(u), t.id)
  }

  /** Nothing else is reported. */
  ghost predicate OnlyThese(change: seq<Touch>, ws: int -> Catalog, ds: int -> Diff, lo: int, v: int, hi: int) {
    forall t | t in change :: Reported(t, ws, ds, lo, v, hi)
  }

  function Touches(ids: seq<nat>, bit: bv64): seq<Touch> {
    seq(|ids|, i requires 0 <= i < |ids| => Touch(ids[i], bit))
  }

  lemma TouchesAre(ids: seq<nat>, bit: bv64)
    ensures forall t :: t in Touches(ids, bit) <==> t.id in ids && t.action == bit
  {
    forall t: Touch | t.id in ids && t.action == bit ensures t in Touches(ids, bit) {
      var k :| 0 <= k < |ids| && ids[k] == t.id;
      assert Touches(ids, bit)[k] == t;
    }
  }

  lemma CoversMore(change: seq<Touch>, ids: seq<nat>, bit: bv64, ws: int -> Catalog, ds: int -> Diff, lo: int, v: int)
    requires Covers(change, ws, ds, lo, v - 1) && bit == ds(v).bit
    requires (forall j | j in Changed(ws(v - 1), ws(v)) :: j in ids)
        && (forall p | p in LastingParts(ws, v) :: p in ids)
    ensures Covers(change + Touches(ids, bit), ws, ds, lo, v)
  {
    hide Changed, LastingParts, Touches;
    TouchesAre(ids, bit);
    forall u, j | lo < u <= v && j in Log(ws, ds)(u) ensures Touch(j, ds(u).bit) in change + Touches(ids, bit) {
      if u == v { assert Touch(j, bit) in Touches(ids, bit); }
    }
  }

  lemma OnlyMore(change: seq<Touch>, ids: seq<nat>, bit: bv64, ws: int -> Catalog, ds: int -> Diff, lo: int, v: int,
                 hi: int)
    requires OnlyThese(change, ws, ds, lo, v - 1, hi) && lo < v && bit == ds(v).bit && !CanSkipCheck(ds(v).tp)
    requires forall q | q in ids :: Concerns(ws(v - 1), ws(hi), ds(v), q)
    ensures OnlyThese(change + Touches(ids, bit), ws, ds, lo, v, hi)
  {
    hide Touches, Concerns, Reported;
    TouchesAre(ids, bit);
    forall t | t in change + Touches(ids, bit) ensures Reported(t, ws, ds, lo, v, hi) {
      if t in change { ReportedLater(t, ws, ds, lo, v - 1, v, hi); } else { ReportedNow(t, ws, ds, lo, v, hi); }
    }
  }

  lemma ReportedLater(t: Touch, ws: int -> Catalog, ds: int -> Diff, lo: int, v: int, v': int, hi: int)
    requires Reported(t, ws, ds, lo, v, hi) && v <= v'
    ensures Reported(t, ws, ds, lo, v', hi)
  {
    hide Concerns;
  }

  lemma ReportedNow(t: Touch, ws: int -> Catalog, ds: int -> Diff, lo: int, v: int, hi: int)
    requires lo < v && t.action == ds(v).bit && !CanSkipCheck(ds(v).tp) && Concerns(ws(v - 1), ws(hi), ds(v), t.id)
    ensures Reported(t, ws, ds, lo, v, hi)
  {
    hide Concerns;
  }

  lemma Skipped(change: seq<Touch>, ws: int -> Catalog, ds: int -> Diff, lo: int, v: int, hi: int)
    requires Covers(change, ws, ds, lo, v - 1) && OnlyThese(change, ws, ds, lo, v - 1, hi) && CanSkipCheck(ds(v).tp)
    ensures Covers(change, ws, ds, lo, v) && OnlyThese(change, ws, ds, lo, v, hi)
  {
    hide Changed, LastingParts, Reported;
    forall t | t in change ensures Reported(t, ws, ds, lo, v, hi) {
      ReportedLater(t, ws, ds, lo, v - 1, v, hi);
    }
  }

  class Petri {
    const handle: Handle
    const validator: SchemaValidator
    ghost const ws: int -> Catalog
    ghost const ds: int -> Diff

    constructor (lease: int, maxCnt: int, ghost ws: int -> Catalog, ghost ds: int -> Diff)
      ensures fresh(handle) && fresh(validator) && this.ws == ws && this.ds == ds && handle.value == null
      ensures validator.Valid() && validator.isStarted && !validator.updated && validator.history == []
      ensures validator.lease == lease && validator.maxCnt == maxCnt
    {
      handle := new Handle();
      validator := new SchemaValidator(lease, maxCnt);
      this.ws, this.ds := ws, ds;
    }

    /** A snapshot of the recorded history. */
    ghost predicate Snapshot(meta: Meta) {
      && meta.version > 0 && meta.catalog == ws(meta.version)
      && forall v | v in meta.diffs && 0 < v <= meta.version :: meta.diffs[v] == ds(v)
    }

    /** The published replicant is the full load of its version. */
    ghost predicate Published()
      reads handle, Parts(handle.value)
    {
      handle.value != null ==>
        && handle.value.Distinct() && handle.value.version > 0
        && IsFull(handle.value.Value(), ws(handle.value.version))
    }

    /** When a diff load succeeds: the used version is not too old, no diff is missing, and what the diffs read is
        still there. */
    ghost predicate CanDiffLoad(meta: Meta, usedVersion: int) {
      && !IsTooOldSchema(usedVersion, meta.version)
      && forall v | usedVersion < v <= meta.version :: v in meta.diffs && Readable(ds(v), meta.catalog)
    }

    /** Collects the diffs between two versions; none may be missing. */
    method CollectDiffs(meta: Meta, usedVersion: int, newVersion: int) returns (diffs: Option<seq<Diff>>)
      requires Snapshot(meta) && 0 <= usedVersion <= newVersion == meta.version
      ensures diffs.Some? <==> forall v | usedVersion < v <= newVersion :: v in meta.diffs
      ensures diffs.Some? ==> |diffs.value| == newVersion - usedVersion
      ensures diffs.Some? ==> forall i | 0 <= i < |diffs.value| :: diffs.value[i] == ds(usedVersion + 1 + i)
    {
      var v, r := usedVersion, [];
      while v < newVersion
        invariant usedVersion <= v <= newVersion && |r| == v - usedVersion
        invariant forall u | usedVersion < u <= v :: u in meta.diffs
        invariant forall i | 0 <= i < |r| :: r[i] == ds(usedVersion + 1 + i)
      {
        v := v + 1;
        if v !in meta.diffs {
          return None;
        }
        r := r + [meta.diffs[v]];
      }
      return Some(r);
    }

    /** Tries to get to the latest version by diffs.  A result is published only if all diffs can be applied, and it
        is then what a full load would give.  Nothing that was published before is touched. */
    method TryLoadSchemaDiffs(meta: Meta, usedVersion: int, newVersion: int) returns (ok: bool, change: seq<Touch>)
      requires Recorded(ws, ds) && Snapshot(meta) && Published() && 0 <= usedVersion <= newVersion == meta.version
      requires usedVersion != INITIAL_VERSION ==> handle.value != null && handle.value.version == usedVersion
      modifies handle
      ensures ok <==> CanDiffLoad(meta, usedVersion)
      ensures !ok ==> handle.value == old(handle.value)
      ensures ok ==> handle.value != null && fresh(handle.value) && handle.value.version == newVersion && Published()
      ensures ok ==>
                && Covers(change, ws, ds, usedVersion, newVersion)
                && OnlyThese(change, ws, ds, usedVersion, newVersion, newVersion)
    {
      hide Recorded, IsFull, Covers, OnlyThese, LoadedTo, DistinctParts, SchemaValues, BucketValues, Holds, Final,
           Mixed, Snapshot, Readable;
      if IsTooOldSchema(usedVersion, newVersion) {
        return false, [];
      }
      var diffs := CollectDiffs(meta, usedVersion, newVersion);
      if diffs.None? {
        return false, [];
      }
      ok, change := LoadDiffs(meta, diffs.value, usedVersion, newVersion);
    }

    /** Builds the next replicant from the published one, and publishes it if all diffs could be applied. */
    method LoadDiffs(meta: Meta, diffs: seq<Diff>, usedVersion: int, newVersion: int)
      returns (ok: bool, change: seq<Touch>)
      requires Recorded(ws, ds) && Snapshot(meta) && Published() && 0 <= usedVersion <= newVersion == meta.version
      requires handle.value != null && handle.value.version == usedVersion
      requires |diffs| == newVersion - usedVersion && forall i | 0 <= i < |diffs| :: diffs[i] == ds(usedVersion + 1 + i)
      modifies handle
      ensures ok <==> forall v | usedVersion < v <= newVersion :: Readable(ds(v), meta.catalog)
      ensures !ok ==> handle.value == old(handle.value)
      ensures ok ==> handle.value != null && fresh(handle.value) && handle.value.version == newVersion && Published()
      ensures ok ==>
                && Covers(change, ws, ds, usedVersion, newVersion)
                && OnlyThese(change, ws, ds, usedVersion, newVersion, newVersion)
    {
      hide Recorded, IsFull, Covers, OnlyThese, LoadedTo, DistinctParts, SchemaValues, BucketValues, Holds, Final,
           Mixed, Readable;
      var builder := new Builder();
      builder.InitWithOldSchemaReplicant(handle.value);
      LoadBegins(builder.rep.Value(), ws, usedVersion, newVersion);
      ok, change := ApplyAll(builder, meta, diffs, usedVersion, newVersion);
      if ok {
        handle.value := builder.rep;
      }
    }

    /** Applies the diffs one after the other. */
    method ApplyAll(builder: Builder, meta: Meta, diffs: seq<Diff>, usedVersion: int, newVersion: int)
      returns (ok: bool, change: seq<Touch>)
      requires Recorded(ws, ds) && Snapshot(meta) && 0 <= usedVersion <= newVersion == meta.version
      requires |diffs| == newVersion - usedVersion && forall i | 0 <= i < |diffs| :: diffs[i] == ds(usedVersion + 1 + i)
      requires builder.Distinct() && builder.rep.version == usedVersion
      requires LoadedTo(builder.rep.Value(), ws(usedVersion), ws, usedVersion, newVersion)
      modifies builder`own, builder.rep, builder.own
      ensures builder.Distinct()
      ensures ok <==> forall v | usedVersion < v <= newVersion :: Readable(ds(v), meta.catalog)
      ensures ok ==>
                && builder.rep.version == newVersion && IsFull(builder.rep.Value(), ws(newVersion))
                && Covers(change, ws, ds, usedVersion, newVersion)
                && OnlyThese(change, ws, ds, usedVersion, newVersion, newVersion)
    {
      hide Recorded, Holds, Mixed, ApplyCatalog, ApplyRep, Timeline, IsFull, Covers, LoadedTo, DistinctParts,
           SchemaValues, BucketValues, Readable, AffectedBy, Changed, LastingParts, Situation, Concerns, OnlyThese;
      RecordedTimeline(ws, ds, usedVersion, newVersion);
      ghost var m := ws(usedVersion);
      change := [];
      NothingToCover(ws, ds, usedVersion, newVersion);
      for i := 0 to |diffs|
        invariant builder.Distinct() && fresh(builder.own - old(builder.own)) && builder.rep.version == usedVersion + i
        invariant LoadedTo(builder.rep.Value(), m, ws, usedVersion + i, newVersion)
        invariant Covers(change, ws, ds, usedVersion, usedVersion + i)
        invariant OnlyThese(change, ws, ds, usedVersion, usedVersion + i, newVersion)
        invariant forall v | usedVersion < v <= usedVersion + i :: Readable(ds(v), meta.catalog)
      {
        ghost var v, r0 := usedVersion + i + 1, builder.rep.Value();
        var diff := diffs[i];
        StepReady(r0, m, usedVersion, v, newVersion);
        AppliesIfReadable(r0, m, ws(v - 1), ds(v), ws(v), ws(newVersion));
        var ids := builder.ApplyDiff(meta.catalog, diff, m, ws(v - 1), ws(v));
        if ids.None? {
          return false, [];
        }
        LoadStep(r0, m, ws, ds, usedVersion, v, newVersion);
        if CanSkipCheck(diff.tp) {
          m := ApplyCatalog(m, ws(newVersion), ds(v));
          Skipped(change, ws, ds, usedVersion, v, newVersion);
          continue;
        }
        forall j | j in Changed(ws(v - 1), ws(v)) ensures j in ids.value {
          ChangedIsReported(r0, m, ws(v - 1), ds(v), ws(v), ws(newVersion), j);
        }
        forall p | p in LastingParts(ws, v) ensures p in ids.value {
          var j := LastingPart(ws, v, newVersion, p);
          PartsReported(r0, m, ws(v - 1), ds(v), ws(v), ws(newVersion), j, p);
        }
        forall q | q in ids.value ensures Concerns(ws(v - 1), ws(newVersion), ds(v), q) {
          ReportedConcerns(r0, m, ws(v - 1), ds(v), ws(v), ws(newVersion), q);
        }
        m := ApplyCatalog(m, ws(newVersion), ds(v));
        OnlyMore(change, ids.value, diff.bit, ws, ds, usedVersion, v, newVersion);
        CoversMore(change, ids.value, diff.bit, ws, ds, usedVersion, v);
        change := change + Touches(ids.value, diff.bit);
      }
      LoadEnds(builder.rep.Value(), m, ws, newVersion);
      ok := true;
    }

    lemma LastingPart(ws: int -> Catalog, v: int, hi: int, p: nat) returns (j: nat)
      requires p in LastingParts(ws, v) && v <= hi
      ensures j in Changed(ws(v - 1), ws(v))
      ensures (j in ws(v - 1).tables ==> p in ws(v - 1).tables[j].info.parts)
           && (j in ws(hi).tables ==> p in ws(hi).tables[j].info.parts)
    {
      hide Changed;
      j :| j in Changed(ws(v - 1), ws(v)) && p in PartsAt(ws(v - 1), j) + PartsAt(ws(v), j) && Lasts(ws, v, j, p);
    }

    lemma StepReady(r: Rep, m: Catalog, lo: int, v: int, hi: int)
      requires Timeline(ws, ds, lo, hi) && lo < v <= hi && LoadedTo(r, m, ws, v - 1, hi) && Recorded(ws, ds) && lo >= 0
      ensures Situation(ws(v - 1), ds(v), ws(v), ws(hi)) && Holds(r, m) && Mixed(m, ws(v - 1), ws(hi))
          && ds(v).version == v
    {
      hide Holds, Mixed, Situation, Named;
    }

    lemma NothingToCover(ws: int -> Catalog, ds: int -> Diff, v: int, hi: int)
      ensures Covers([], ws, ds, v, v) && OnlyThese([], ws, ds, v, v, hi)
    {
    }

    /** Loads the schema of the latest version, by diffs if possible. */
    method LoadSchemaReplicant(meta: Meta, usedVersion: int)
      returns (neededVersion: int, change: Option<seq<Touch>>, fullLoad: bool)
      requires Recorded(ws, ds) && Snapshot(meta) && Published() && usedVersion <= meta.version
      requires usedVersion == if handle.value == null then INITIAL_VERSION else handle.value.version
      modifies handle
      ensures neededVersion == meta.version && handle.value != null && handle.value.version == neededVersion
          && Published()
      ensures fullLoad <==>
                || usedVersion == 0 || meta.version - usedVersion > 100
                || exists v :: usedVersion < v <= meta.version && (v !in meta.diffs || !Readable(ds(v), meta.catalog))
      ensures fullLoad ==> change == None && neededVersion != usedVersion
      ensures !fullLoad && neededVersion != usedVersion ==>
                && change.Some? && Covers(change.value, ws, ds, usedVersion, neededVersion)
                && OnlyThese(change.value, ws, ds, usedVersion, neededVersion, neededVersion)
    {
      hide Recorded, IsFull, Covers, OnlyThese, DistinctParts, SchemaValues, BucketValues, Readable;
      neededVersion := meta.version;
      if usedVersion != INITIAL_VERSION && usedVersion == neededVersion {
        return neededVersion, None, false;
      }
      var ok, ch := TryLoadSchemaDiffs(meta, usedVersion, neededVersion);
      if ok {
        return neededVersion, Some(ch), false;
      }
      FullLoad(meta);
      return neededVersion, None, true;
    }

    method FullLoad(meta: Meta)
      requires Recorded(ws, ds) && Snapshot(meta)
      modifies handle
      ensures handle.value != null && fresh(handle.value) && handle.value.version == meta.version && Published()
    {
      hide IsFull, DistinctParts, SchemaValues, BucketValues, ReadsAll, WellFormed, Describes, Compatible;
      assert WellFormed(meta.catalog);
      var dbInfos := FetchAllSchemasWithBlocks(meta.catalog);
      var builder := new Builder();
      InitWithDBInfos(builder, dbInfos, meta.version, meta.catalog);
      handle.value := builder.rep;
    }

    /** The published schema is a full load, and the validator knows what has changed. */
    ghost predicate Valid()
      reads handle, Parts(handle.value), validator
    {
      && Recorded(ws, ds) && Published() && validator.Valid() && Faithful(validator.history, Log(ws, ds))
      && (validator.updated ==> handle.value != null && validator.loaded == handle.value.version)
    }

    lemma SnapshotVersion(meta: Meta)
      requires Snapshot(meta)
      ensures meta.version > 0
    {
    }

    /** Loads the latest schema and reports the change to the validator, which starts anew after a full load. */
    method Reload(meta: Meta, now: int) returns (fullLoad: bool, ghost touches: seq<Touch>)
      requires Valid() && Snapshot(meta) && (handle.value != null ==> handle.value.version <= meta.version)
      modifies handle, validator
      ensures fullLoad <==> old(handle.value) == null || !CanDiffLoad(meta, old(handle.value).version)
      ensures fullLoad ==> validator.history == [Delta(meta.version, [])]
      ensures !fullLoad ==>
                && Covers(touches, ws, ds, old(handle.value.version), meta.version)
                && OnlyThese(touches, ws, ds, old(handle.value.version), meta.version, meta.version)
                && (old(validator.isStarted) ==>
                      validator.history == if meta.version == old(handle.value.version) then old(validator.history)
                                           else old(validator.history) + [Delta(meta.version, touches)])
      ensures !fullLoad && !old(validator.isStarted) ==> validator.history == []
      ensures !fullLoad && old(validator.isStarted) && validator.maxCnt > 0
              && (meta.version == old(handle.value.version) || |old(validator.deltaSchemaInfos)| < validator.maxCnt) ==>
                forall v :: old(validator.Covers(v)) ==> validator.Covers(v)
      ensures Valid() && handle.value != null && handle.value.version == meta.version == validator.loaded
      ensures validator.isStarted == (old(validator.isStarted) || fullLoad) && validator.updated == validator.isStarted
      ensures validator.updated ==> validator.latestSchemaExpire == now + validator.lease - 1_000_000
    {
      hide Recorded, IsFull, Covers, OnlyThese, DistinctParts, SchemaValues, BucketValues, Faithful, Reports, Snapshot,
           Readable, SchemaValidator.Valid, SchemaValidator.Covers;
      SnapshotVersion(meta);
      validator.LastReport();
      var schemaVersion := INITIAL_VERSION;
      if handle.value != null {
        schemaVersion := handle.value.version;
      }
      NothingToCover(ws, ds, meta.version, meta.version);
      var neededVersion, change;
      neededVersion, change, fullLoad := LoadSchemaReplicant(meta, schemaVersion);
      touches := if neededVersion != schemaVersion then change.GetOr([]) else [];
      if fullLoad {
        validator.Reset();
        FaithfulShort(validator.history, Log(ws, ds));
      }
      validator.LastReport();
      Report(schemaVersion, neededVersion, change, now);
    }

    /** A check after a reload by diffs.  A transaction passes if what the validator knew before does not touch its
        tables after the version that it read, no diff concerns them, and the queue still reaches back to that version,
        as it does if it did before and was not full.  If a diff changes one of its tables the transaction fails, and
        the answer shows the bit of that diff. */
    method ReloadAndCheck(meta: Meta, now: int, txnTime: int, schemaVer: int, blockIDs: seq<int>)
      returns (change: Option<seq<Touch>>, r: CheckResult)
      requires Valid() && Snapshot(meta) && handle.value != null && handle.value.version <= meta.version
      requires CanDiffLoad(meta, handle.value.version) && validator.isStarted && validator.lease != 0
      requires blockIDs != [] && schemaVer < meta.version
      modifies handle, validator
      ensures Valid() && handle.value != null && handle.value.version == meta.version
      ensures (forall d, t | d in old(validator.history) && d.version > schemaVer && t in d.touches ::
                 t.id !in blockIDs)
              && Quiet(old(handle.value.version), meta.version, blockIDs) && validator.Covers(schemaVer) ==>
                r == Succ
      ensures validator.maxCnt > 0 && old(validator.Covers(schemaVer))
              && (meta.version == old(handle.value.version) || |old(validator.deltaSchemaInfos)| < validator.maxCnt) ==>
                validator.Covers(schemaVer)
      ensures forall v, id | old(handle.value.version) < v <= meta.version && id in blockIDs && id in Log(ws, ds)(v) ::
                r == Fail && (change.Some? ==> Shows(change.value, id, ds(v).bit))
    {
      hide Recorded, IsFull, Covers, OnlyThese, DistinctParts, SchemaValues, BucketValues, Faithful, Snapshot, Log,
           CanDiffLoad, SchemaValidator.Valid, Quiet, Shows, Summary;
      var fullLoad; ghost var touches;
      fullLoad, touches := Reload(meta, now);
      validator.LastReport();
      change, r := validator.Check(txnTime, schemaVer, blockIDs);
      ghost var lo, h := old(handle.value.version), old(validator.history);
      if Quiet(lo, meta.version, blockIDs) { Untouched(h, lo, meta.version, touches, blockIDs); }
      forall v, id | lo < v <= meta.version && id in blockIDs && id in Log(ws, ds)(v)
        ensures r == Fail && (change.Some? ==> Shows(change.value, id, ds(v).bit))
      {
        LastTouched(h, lo, meta.version, touches, schemaVer, v, id);
        if change.Some? {
          SummaryShows(change.value, Touched(validator.history, schemaVer), blockIDs, Touch(id, ds(v).bit));
        }
      }
    }

    /** What was loaded does not touch tables that no diff concerns. */
    lemma Untouched(h: seq<Delta>, lo: int, hi: int, touches: seq<Touch>, blockIDs: seq<int>)
      requires OnlyThese(touches, ws, ds, lo, hi, hi) && Quiet(lo, hi, blockIDs)
      ensures forall d, t | d in h + [Delta(hi, touches)] && t in d.touches :: d in h || t.id !in blockIDs
    {
      hide Concerns;
      forall t | t in touches ensures t.id !in blockIDs {
        assert Reported(t, ws, ds, lo, hi, hi);
      }
    }

    /** What was loaded touches what a diff changes. */
    lemma LastTouched(h: seq<Delta>, lo: int, hi: int, touches: seq<Touch>, schemaVer: int, v: int, id: int)
      requires Covers(touches, ws, ds, lo, hi) && lo < v <= hi && schemaVer < hi && id in Log(ws, ds)(v)
      ensures Delta(hi, touches) in h + [Delta(hi, touches)] && Touch(id, ds(v).bit) in Delta(hi, touches).touches
      ensures Touch(id, ds(v).bit) in Touched(h + [Delta(hi, touches)], schemaVer)
    {
      hide Log;
    }

    /** No version from one to another concerns one of these tables, except by an action that is not checked. */
    ghost predicate Quiet(lo: int, hi: int, blockIDs: seq<int>) {
      forall v, id | lo < v <= hi && id in blockIDs ::
        || ds(v).tp == SetTiFlashReplica || ds(v).tp == UpdateTiFlashReplicaStatus
        || !Concerns(ws(v - 1), ws(hi), ds(v), id)
    }

    /** Tells the validator of a reload. */
    method Report(oldVer: int, currVer: int, change: Option<seq<Touch>>, now: int)
      requires Recorded(ws, ds) && Published() && handle.value != null && handle.value.version == currVer
      requires validator.Valid() && Faithful(validator.history, Log(ws, ds)) && 0 <= oldVer <= currVer
      requires validator.updated ==> validator.loaded == oldVer
      requires validator.history != [] && currVer != oldVer ==>
          change.Some? && Covers(change.value, ws, ds, oldVer, currVer)
      modifies validator
      ensures Valid() && validator.loaded == currVer && validator.isStarted == old(validator.isStarted)
      ensures validator.history == if currVer == oldVer || !validator.isStarted then old(validator.history)
                                   else old(validator.history) + [Delta(currVer, change.GetOr([]))]
      ensures validator.isStarted && validator.maxCnt > 0
              && (currVer == oldVer || |old(validator.deltaSchemaInfos)| < validator.maxCnt) ==>
                forall v :: old(validator.Covers(v)) ==> validator.Covers(v)
      ensures validator.updated == validator.isStarted
      ensures validator.updated ==> validator.latestSchemaExpire == now + validator.lease - 1_000_000
    {
      hide Recorded, IsFull, DistinctParts, SchemaValues, BucketValues, Covers, Faithful, Reports,
           SchemaValidator.Valid;
      ghost var h := validator.history;
      validator.LastReport();
      validator.Update(now, oldVer, currVer, change);
      validator.LastReport();
      if h == [] {
        FaithfulShort(validator.history, Log(ws, ds));
      } else if currVer != oldVer && validator.isStarted {
        FaithfulMore(h, Delta(currVer, change.GetOr([])), oldVer, ws, ds);
      }
    }

    /** The steps of the schema loop when the connection was lost: the validator stops, the schema is reloaded, the
        validator starts again.  Unless the reload was a full one the validator then knows nothing. */
    method RestartSyncer(meta: Meta, now: int) returns (fullLoad: bool)
      requires Valid() && Snapshot(meta) && (handle.value != null ==> handle.value.version <= meta.version)
      modifies handle, validator
      ensures Valid() && handle.value != null && handle.value.version == meta.version == validator.loaded
      ensures validator.isStarted && (validator.updated <==> fullLoad)
      ensures validator.history == if fullLoad then [Delta(meta.version, [])] else []
    {
      hide Recorded, IsFull, DistinctParts, SchemaValues, BucketValues, QueueKeeps, Faithful, Reports, Snapshot;
      validator.Stop();
      FaithfulShort(validator.history, Log(ws, ds));
      ghost var touches;
      fullLoad, touches := Reload(meta, now);
      validator.Restart();
    }

    /** What success of a check means for the stored schema: no version after the one used changed a related table,
        except for changes that transactions need not know about. */
    lemma SuccessMeansSameTables(txnTime: int, schemaVer: int, blockIDs: seq<int>, id: nat)
      requires Valid() && validator.updated && validator.lease != 0
          && validator.Answer(txnTime, schemaVer, blockIDs) == Succ
      requires 0 <= schemaVer < validator.loaded && id in blockIDs
      ensures forall v | schemaVer < v <= validator.loaded ::
                || ds(v).tp == SetTiFlashReplica || ds(v).tp == UpdateTiFlashReplicaStatus
                || id !in Changed(ws(v - 1), ws(v))
      ensures (forall v | schemaVer < v <= validator.loaded ::
                 ds(v).tp != SetTiFlashReplica && ds(v).tp != UpdateTiFlashReplicaStatus) ==>
                Same(ws(schemaVer), ws(validator.loaded), id)
    {
      hide Valid, Changed, SchemaValidator.Answer, SchemaValidator.Valid;
      forall v | schemaVer < v <= validator.loaded
        && ds(v).tp != SetTiFlashReplica && ds(v).tp != UpdateTiFlashReplicaStatus
        ensures id !in Changed(ws(v - 1), ws(v))
      {
        NotChanged(txnTime, schemaVer, blockIDs, id, v);
      }
      if forall v | schemaVer < v <= validator.loaded ::
           ds(v).tp != SetTiFlashReplica && ds(v).tp != UpdateTiFlashReplicaStatus
      {
        UnchangedIsSame(ws, schemaVer, validator.loaded, id);
      }
    }

    /** The same for partitions: no version after the one used changed a table that the partition lastingly belongs to.
        A partition that its table loses is an exception; `DiffLoads.InPlaceParts` says when it goes unreported. */
    lemma SuccessMeansSameParts(txnTime: int, schemaVer: int, blockIDs: seq<int>, p: nat, v: int, j: nat)
      requires Valid() && validator.updated && validator.lease != 0
          && validator.Answer(txnTime, schemaVer, blockIDs) == Succ
      requires 0 <= schemaVer < v <= validator.loaded && p in blockIDs
      requires ds(v).tp != SetTiFlashReplica && ds(v).tp != UpdateTiFlashReplicaStatus
      requires p in PartsAt(ws(v - 1), j) + PartsAt(ws(v), j) && Lasts(ws, v, j, p)
      ensures j !in Changed(ws(v - 1), ws(v))
    {
      hide Valid, Changed, Lasts, PartsAt, SchemaValidator.Answer, SchemaValidator.Valid;
      NotChanged(txnTime, schemaVer, blockIDs, p, v);
    }

    lemma NotChanged(txnTime: int, schemaVer: int, blockIDs: seq<int>, id: nat, v: int)
      requires Valid() && validator.updated && validator.lease != 0
          && validator.Answer(txnTime, schemaVer, blockIDs) == Succ
      requires 0 <= schemaVer < v <= validator.loaded && id in blockIDs
      requires ds(v).tp != SetTiFlashReplica && ds(v).tp != UpdateTiFlashReplicaStatus
      ensures id !in Changed(ws(v - 1), ws(v)) && id !in LastingParts(ws, v)
    {
      hide Recorded, Published, Faithful, Changed, LastingParts, SchemaValidator.Answer, SchemaValidator.Valid;
      validator.SuccessMeansUnchanged(txnTime, schemaVer, blockIDs, Log(ws, ds), v);
      assert id !in Log(ws, ds)(v);
    }
  }

  lemma SummaryShows(res: seq<Touch>, ts: set<Touch>, blockIDs: seq<int>, t: Touch)
    requires Summary(res, ts, blockIDs) && t in ts && t.id in blockIDs
    ensures Shows(res, t.id, t.action)
  {
    hide Clear;
    var r :| r in res && r.id == t.id;
    assert IsOrOf(r.action, ts, r.id);
  }

  /** A summary shows a table with all bits of this action. */
  ghost predicate Shows(summary: seq<Touch>, id: int, bit: bv64) {
    exists t :: t in summary && t.id == id && forall mask :: Clear(t.action, mask) ==> Clear(bit, mask)
  }

  ghost predicate Same(c: Catalog, c': Catalog, id: nat) {
    (id in c.tables <==> id in c'.tables) && (id in c.tables ==> c.tables[id] == c'.tables[id])
  }

  lemma {:induction false} UnchangedIsSame(ws: int -> Catalog, lo: int, hi: int, id: nat)
    requires lo <= hi && forall v | lo < v <= hi :: id !in Changed(ws(v - 1), ws(v))
    ensures Same(ws(lo), ws(hi), id)
    decreases hi - lo
  {
    if lo < hi {
      UnchangedIsSame(ws, lo, hi - 1, id);
      assert id !in Changed(ws(hi - 1), ws(hi));
    }
  }

  lemma FaithfulShort(history: seq<Delta>, log: int -> set<int>)
    requires |history| <= 1
    ensures Faithful(history, log)
  {
  }

  lemma FaithfulMore(history: seq<Delta>, d: Delta, since: int, ws: int -> Catalog, ds: int -> Diff)
    requires Faithful(history, Log(ws, ds)) && Covers(d.touches, ws, ds, since, d.version)
    requires history != [] && history[|history| - 1].version == since
    ensures Faithful(history + [d], Log(ws, ds))
  {
    hide Log;
    assert Reports(d, since, Log(ws, ds));
  }
}
