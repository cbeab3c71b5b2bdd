/** Why loading the schema by diffs gives what a full load gives, although every table is read as it is at the latest
    version and not as it was when the diff was made. */
module DiffLoads {
  import opened Layering
  import opened Catalogs
  import opened Replicants
  import opened SchemaSteps

  // ---------- one diff ----------

  /** Applying a diff to a replicant that holds `m`, reading from the latest catalog `f`.  There is no result if a
      database or a table that the diff needs is missing. */
  ghost function ApplyRep(r: Rep, m: Catalog, f: Catalog, d: Diff): Option<Rep>
    requires Holds(r, m)
  {
    if d.tp == CreateSchema then
      if d.schemaID in f.dbs then Some(CreateDb(r, f.dbs[d.schemaID])) else None
    else if d.tp == DropSchema then
      Some(if d.schemaID in m.dbs then DropDb(r, m.dbs[d.schemaID].name) else r)
    else if d.tp == ModifySchemaCharset then
      if d.schemaID in f.dbs && f.dbs[d.schemaID].name in r.schemas
      then Some(ModifyDb(r, f.dbs[d.schemaID].name, f.dbs[d.schemaID].charset)) else None
    else ApplyBlock(r, m, f, d)
  }

  ghost function ApplyBlock(r: Rep, m: Catalog, f: Catalog, d: Diff): Option<Rep>
    requires Holds(r, m)
  {
    var o, n := OldBlock(d), NewBlock(d);
    if d.schemaID !in m.dbs || (o != 0 && OldSchema(d) !in m.dbs) then None
    else
      var r1 := if o != 0 then DropTable(r, m.dbs[OldSchema(d)].name, o) else r;
      if n == 0 then Some(r1)
      else if n in f.tables && f.tables[n].db == d.schemaID then
        Some(CreateTable(r1, m.dbs[d.schemaID].name, f.tables[n].info))
      else None
  }

  /** What a diff reads is still there in the latest catalog. */
  predicate Readable(d: Diff, f: Catalog) {
    if d.tp == CreateSchema || d.tp == ModifySchemaCharset then d.schemaID in f.dbs
    else if d.tp == DropSchema || NewBlock(d) == 0 then true
    else NewBlock(d) in f.tables && f.tables[NewBlock(d)].db == d.schemaID
  }

  /** By action: databases to create or to change, and tables to bring or to change, have to be there, tables in the
      database that the diff names.  Nothing else has to. */
  lemma ReadableByAction(d: Diff, f: Catalog)
    requires d.blockID != 0
    ensures Readable(d, f) <==>
              match d.tp
              case CreateSchema | ModifySchemaCharset => d.schemaID in f.dbs
              case DropSchema | DropBlock | DropView | DropSequence => true
              case CreateBlock | CreateSequence | RecoverBlock | TruncateBlock | CreateView
                | RenameBlock | SetTiFlashReplica | UpdateTiFlashReplicaStatus | AlterBlock =>
                d.blockID in f.tables && f.tables[d.blockID].db == d.schemaID
  {
  }

  /** The ids that applying a diff reports: those of the tables it takes away or brings, with their partitions; a table
      changed in place is reported as it is afterwards. */
  ghost function AffectedBy(r: Rep, m: Catalog, f: Catalog, d: Diff): seq<nat> {
    var o, n := OldBlock(d), NewBlock(d);
    if d.tp == CreateSchema || d.tp == ModifySchemaCharset then []
    else if d.tp == DropSchema then
      if d.schemaID in m.dbs && m.dbs[d.schemaID].name in r.schemas
      then AffectedIds(r.schemas[m.dbs[d.schemaID].name].infos) else []
    else
      (if o != 0 && o != n && o in m.tables then [o] + m.tables[o].info.parts else [])
      + (if n != 0 && n in f.tables then [n] + f.tables[n].info.parts else [])
  }

  /** The catalog that the replicant holds after a diff: what the diff touches is as in the latest one. */
  ghost function ApplyCatalog(m: Catalog, f: Catalog, d: Diff): Catalog {
    if d.tp == CreateSchema then
      if d.schemaID in f.dbs then m.(dbs := m.dbs[d.schemaID := f.dbs[d.schemaID]]) else m
    else if d.tp == DropSchema then
      Catalog(m.dbs - {d.schemaID}, TablesElsewhere(m.tables, d.schemaID))
    else if d.tp == ModifySchemaCharset then
      if d.schemaID in f.dbs && d.schemaID in m.dbs
      then m.(dbs := m.dbs[d.schemaID := m.dbs[d.schemaID].(charset := f.dbs[d.schemaID].charset)]) else m
    else m.(tables := WithNew(WithoutOld(m.tables, OldBlock(d)), f, NewBlock(d)))
  }

  ghost function WithoutOld(tables: map<nat, Placed>, o: nat): map<nat, Placed> {
    if o != 0 then tables - {o} else tables
  }

  ghost function WithNew(tables: map<nat, Placed>, f: Catalog, n: nat): map<nat, Placed> {
    if n != 0 && n in f.tables then tables[n := f.tables[n]] else tables
  }

  // ---------- between the versions ----------

  /** A catalog in which everything is either as at one version, or already as at the latest one. */
  ghost predicate Mixed(m: Catalog, w: Catalog, f: Catalog) {
    && m.dbs.Keys == w.dbs.Keys && m.tables.Keys == w.tables.Keys
    && (forall i | i in m.dbs :: m.dbs[i] == w.dbs[i] || (i in f.dbs && m.dbs[i] == f.dbs[i]))
    && (forall i | i in m.tables :: m.tables[i].db == w.tables[i].db)
    && (forall i | i in m.tables :: m.tables[i] == w.tables[i] || (i in f.tables && m.tables[i] == f.tables[i]))
  }

  /** A database keeps its name, and the id of a partition is never that of a table. */
  ghost predicate Compatible(w: Catalog, f: Catalog) {
    && (forall i | i in w.dbs && i in f.dbs :: w.dbs[i].name == f.dbs[i].name)
    && PartsApart(w, f) && PartsApart(f, w) && PartsApart(w, w) && PartsApart(f, f)
  }

  ghost predicate PartsApart(w: Catalog, f: Catalog) {
    forall j, p | j in w.tables && p in w.tables[j].info.parts :: p !in f.tables
  }

  ghost predicate Situation(w: Catalog, d: Diff, w': Catalog, f: Catalog) {
    && WellFormed(w) && WellFormed(w') && WellFormed(f) && Describes(w, d, w')
    && Compatible(w, f) && Compatible(w', f)
  }

  lemma MixedDb(m: Catalog, w: Catalog, f: Catalog, i: nat)
    requires Mixed(m, w, f) && WellFormed(w) && WellFormed(f) && Compatible(w, f) && i in m.dbs
    ensures m.dbs[i].id == i && m.dbs[i].name == w.dbs[i].name
    ensures i in f.dbs ==> m.dbs[i].(charset := f.dbs[i].charset) == f.dbs[i]
  {
    hide PartsApart;
  }

  lemma MixedParts(m: Catalog, w: Catalog, f: Catalog)
    requires Mixed(m, w, f) && Compatible(w, f)
    ensures PartsApart(m, m)
  {
  }

  lemma StepMixed(r: Rep, m: Catalog, w: Catalog, d: Diff, w': Catalog, f: Catalog)
    requires Situation(w, d, w', f) && Mixed(m, w, f) && Holds(r, m) && ApplyRep(r, m, f, d).Some?
    ensures Mixed(ApplyCatalog(m, f, d), w', f)
  {
    hide PartsApart, Holds, CreateDb, DropDb, ModifyDb, DropTable, CreateTable, Mixed;
    if d.tp == CreateSchema {
      CreateMixed(m, w, w', f, d.schemaID);
    } else if d.tp == DropSchema {
      DropMixed(m, w, w', f, d.schemaID);
    } else if d.tp == ModifySchemaCharset {
      MixedKeys(m, w, f);
      MixedDb(m, w, f, d.schemaID);
      ModifyMixed(m, w, w', f, d.schemaID);
    } else {
      BlockMixed(m, w, w', f, d);
    }
  }

  lemma MixedKeys(m: Catalog, w: Catalog, f: Catalog)
    requires Mixed(m, w, f)
    ensures m.dbs.Keys == w.dbs.Keys && m.tables.Keys == w.tables.Keys
    ensures forall i | i in m.dbs :: i in w.dbs
    ensures forall i | i in w.dbs :: i in m.dbs
    ensures forall i | i in m.tables :: i in w.tables && m.tables[i].db == w.tables[i].db
  {
  }

  lemma CreateMixed(m: Catalog, w: Catalog, w': Catalog, f: Catalog, i: nat)
    requires Mixed(m, w, f) && i in f.dbs && i !in w.dbs && i in w'.dbs
    requires w'.dbs == w.dbs[i := w'.dbs[i]] && w'.tables == w.tables
    ensures Mixed(m.(dbs := m.dbs[i := f.dbs[i]]), w', f)
  {
  }

  lemma DropMixed(m: Catalog, w: Catalog, w': Catalog, f: Catalog, i: nat)
    requires Mixed(m, w, f) && w'.dbs == w.dbs - {i} && w'.tables == TablesElsewhere(w.tables, i)
    ensures Mixed(Catalog(m.dbs - {i}, TablesElsewhere(m.tables, i)), w', f)
  {
  }

  lemma ModifyMixed(m: Catalog, w: Catalog, w': Catalog, f: Catalog, i: nat)
    requires Mixed(m, w, f) && i in f.dbs && i in m.dbs && i in w'.dbs
    requires m.dbs[i].(charset := f.dbs[i].charset) == f.dbs[i]
    requires w'.dbs == w.dbs[i := w'.dbs[i]] && w'.tables == w.tables
    ensures Mixed(m.(dbs := m.dbs[i := f.dbs[i]]), w', f)
  {
  }

  lemma BlockMixed(m: Catalog, w: Catalog, w': Catalog, f: Catalog, d: Diff)
    requires Mixed(m, w, f) && DescribesBlock(w, d, w')
    requires NewBlock(d) != 0 ==> NewBlock(d) in f.tables && f.tables[NewBlock(d)].db == d.schemaID
    requires (forall i | i in w.tables :: i != 0) && (forall i | i in w'.tables :: i != 0)
    ensures Mixed(m.(tables := WithNew(WithoutOld(m.tables, OldBlock(d)), f, NewBlock(d))), w', f)
  {
    hide OldBlock, NewBlock, OldSchema, DescribesBlock, WithNew, WithoutOld;
    var m' := WithNew(WithoutOld(m.tables, OldBlock(d)), f, NewBlock(d));
    forall i ensures i in m' <==> i in w'.tables
      ensures i in m' ==>
          m'[i].db == w'.tables[i].db && (m'[i] == w'.tables[i] || (i in f.tables && m'[i] == f.tables[i]))
    {
      BlockMixedAt(m, w, w', f, d, i);
    }
    assert m'.Keys == w'.tables.Keys;
    SameDbs(w, d, w');
  }

  lemma SameDbs(w: Catalog, d: Diff, w': Catalog)
    requires DescribesBlock(w, d, w')
    ensures w'.dbs == w.dbs
  {
  }

  lemma BlockMixedAt(m: Catalog, w: Catalog, w': Catalog, f: Catalog, d: Diff, i: nat)
    requires Mixed(m, w, f) && DescribesBlock(w, d, w')
    requires NewBlock(d) != 0 ==> NewBlock(d) in f.tables && f.tables[NewBlock(d)].db == d.schemaID
    requires (forall i | i in w.tables :: i != 0) && (forall i | i in w'.tables :: i != 0)
    ensures var m' := WithNew(WithoutOld(m.tables, OldBlock(d)), f, NewBlock(d));
            && (i in m' <==> i in w'.tables)
            && (i in m' ==>
              m'[i].db == w'.tables[i].db && (m'[i] == w'.tables[i] || (i in f.tables && m'[i] == f.tables[i])))
  {
    hide OldBlock, NewBlock, OldSchema;
  }

  lemma StepHolds(r: Rep, m: Catalog, w: Catalog, d: Diff, w': Catalog, f: Catalog)
    requires Situation(w, d, w', f) && Mixed(m, w, f) && Holds(r, m) && ApplyRep(r, m, f, d).Some?
    ensures Holds(ApplyRep(r, m, f, d).value, ApplyCatalog(m, f, d))
  {
    hide Holds, CreateDb, DropDb, ModifyDb, DropTable, CreateTable, DescribesBlock, TablesElsewhere;
    if d.tp == CreateSchema {
      NewNames(m, w, w', f, d.schemaID);
      CreateDbHolds(r, m, f.dbs[d.schemaID]);
    } else if d.tp == DropSchema {
      if d.schemaID in m.dbs {
        MixedDb(m, w, f, d.schemaID);
        MixedParts(m, w, f);
        DropDbHolds(r, m, d.schemaID);
      } else {
        assert m.dbs - {d.schemaID} == m.dbs;
        NoneElsewhere(m, w, f, d.schemaID);
      }
    } else if d.tp == ModifySchemaCharset {
      MixedDb(m, w, f, d.schemaID);
      ModifyDbHolds(r, m, d.schemaID, f.dbs[d.schemaID].charset);
    } else {
      StepBlockHolds(r, m, w, d, w', f);
    }
  }

  /** A diff can be applied exactly if what it reads is still there. */
  lemma AppliesIfReadable(r: Rep, m: Catalog, w: Catalog, d: Diff, w': Catalog, f: Catalog)
    requires Situation(w, d, w', f) && Mixed(m, w, f) && Holds(r, m)
    ensures ApplyRep(r, m, f, d).Some? <==> Readable(d, f)
  {
    hide CreateDb, DropDb, ModifyDb, DropTable, CreateTable, PartsApart, BucketsHold, SchemaHolds;
    if d.tp == ModifySchemaCharset {
      if d.schemaID in f.dbs { MixedDb(m, w, f, d.schemaID); }
    } else if d.tp != CreateSchema && d.tp != DropSchema {
      HalfwayHolds(r, m, w, d, w', f);
    }
  }

  lemma NoneElsewhere(m: Catalog, w: Catalog, f: Catalog, db: nat)
    requires Mixed(m, w, f) && WellFormed(w) && db !in m.dbs
    ensures TablesElsewhere(m.tables, db) == m.tables
  {
  }

  /** The replicant after the old table is gone, and before the new one has come. */
  ghost function Halfway(r: Rep, m: Catalog, d: Diff): Rep
    requires Holds(r, m) && (OldBlock(d) != 0 ==> OldSchema(d) in m.dbs)
  {
    if OldBlock(d) != 0 then DropTable(r, m.dbs[OldSchema(d)].name, OldBlock(d)) else r
  }

  lemma HalfwayHolds(r: Rep, m: Catalog, w: Catalog, d: Diff, w': Catalog, f: Catalog)
    requires Situation(w, d, w', f) && !IsSchemaAction(d.tp) && Mixed(m, w, f) && Holds(r, m)
    ensures d.schemaID in m.dbs && (OldBlock(d) != 0 ==> OldSchema(d) in m.dbs)
    ensures Holds(Halfway(r, m, d), m.(tables := WithoutOld(m.tables, OldBlock(d))))
    ensures NewBlock(d) != 0 ==> NewBlock(d) !in WithoutOld(m.tables, OldBlock(d))
  {
    hide Holds, DropTable, PartsApart;
    if OldBlock(d) != 0 {
      DropTableHolds(r, m, OldBlock(d));
    }
  }

  lemma StepBlockHolds(r: Rep, m: Catalog, w: Catalog, d: Diff, w': Catalog, f: Catalog)
    requires Situation(w, d, w', f) && !IsSchemaAction(d.tp) && Mixed(m, w, f) && Holds(r, m)
        && ApplyRep(r, m, f, d).Some?
    ensures Holds(ApplyRep(r, m, f, d).value, ApplyCatalog(m, f, d))
  {
    hide Holds, DropTable, CreateTable, Describes, Compatible;
    HalfwayHolds(r, m, w, d, w', f);
    var n := NewBlock(d);
    if n != 0 {
      CreateTableHolds(Halfway(r, m, d), m.(tables := WithoutOld(m.tables, OldBlock(d))), f.tables[n]);
    }
  }

  /** Two tables of a mixed catalog, one of which is as at the latest version and has been so since the current one,
      are not in each other's way. */
  lemma Apart(m: Catalog, w: Catalog, f: Catalog, i: nat, j: nat)
    requires WellFormed(w) && WellFormed(f) && Mixed(m, w, f) && i in m.tables && j in m.tables && i != j
    requires j in f.tables && w.tables[j] == f.tables[j]
    ensures m.tables[j] == f.tables[j] && !SamePlace(m.tables[j], m.tables[i])
  {
  }

  /** A table that is final after the diff can be reached by name after it, if those that were final before it could. */
  lemma StepNamed(r: Rep, m: Catalog, w: Catalog, d: Diff, w': Catalog, f: Catalog, j: nat)
    requires Situation(w, d, w', f) && Mixed(m, w, f) && Holds(r, m) && ApplyRep(r, m, f, d).Some?
    requires j in w'.tables && j in f.tables && w'.tables[j] == f.tables[j]
    requires j in w.tables && w.tables[j] == w'.tables[j] ==> Named(r, m, j)
    ensures Named(ApplyRep(r, m, f, d).value, ApplyCatalog(m, f, d), j)
  {
    hide Holds, Named, CreateDb, DropDb, ModifyDb, DropTable, CreateTable, DescribesBlock, SamePlace, WellFormed,
         Compatible, Mixed;
    if d.tp == CreateSchema {
      NewNames(m, w, w', f, d.schemaID);
      CreateDbNamed(r, m, f.dbs[d.schemaID], j);
    } else if d.tp == DropSchema {
      MixedKeys(m, w, f);
      DropNamed(r, m, w, f, d.schemaID, j);
    } else if d.tp == ModifySchemaCharset {
      MixedKeys(m, w, f);
      MixedDb(m, w, f, d.schemaID);
      ModifyDbNamed(r, m, d.schemaID, f.dbs[d.schemaID].charset, j);
    } else {
      StepBlockNamed(r, m, w, d, w', f, j);
    }
  }

  lemma DropNamed(r: Rep, m: Catalog, w: Catalog, f: Catalog, i: nat, j: nat)
    requires WellFormed(w) && WellFormed(f) && Compatible(w, f) && Mixed(m, w, f) && Holds(r, m) && Named(r, m, j)
        && m.tables[j].db != i
    ensures |r.buckets| == BUCKET_COUNT
    ensures Named(if i in m.dbs then DropDb(r, m.dbs[i].name) else r,
                  Catalog(m.dbs - {i}, TablesElsewhere(m.tables, i)), j)
  {
    hide Holds, DropDb, WellFormed, TablesElsewhere, Compatible, Mixed;
    if i in m.dbs {
      MixedDb(m, w, f, i);
      MixedParts(m, w, f);
      DropDbHolds(r, m, i);
      DropDbNamed(r, m, i, j);
    } else {
      assert m.dbs - {i} == m.dbs;
      NoneElsewhere(m, w, f, i);
      HasBuckets(r, m);
    }
  }

  lemma HasBuckets(r: Rep, m: Catalog)
    requires Holds(r, m)
    ensures |r.buckets| == BUCKET_COUNT
  {
  }

  /** A new database has a name that none has. */
  lemma NewNames(m: Catalog, w: Catalog, w': Catalog, f: Catalog, n: nat)
    requires WellFormed(w) && WellFormed(w') && WellFormed(f) && Compatible(w, f) && Compatible(w', f) && Mixed(m, w, f)
    requires n !in w.dbs && n in w'.dbs && w'.dbs == w.dbs[n := w'.dbs[n]] && n in f.dbs
    ensures f.dbs[n].id == n && n !in m.dbs && forall i | i in m.dbs :: m.dbs[i].name != f.dbs[n].name
    ensures forall id | id in m.tables :: m.tables[id].db in m.dbs
  {
    hide PartsApart;
    forall i | i in m.dbs ensures m.dbs[i].name != f.dbs[n].name {
      MixedDb(m, w, f, i);
      assert w'.dbs[i].name == w.dbs[i].name && w'.dbs[n].name == f.dbs[n].name;
    }
  }

  lemma StepBlockNamed(r: Rep, m: Catalog, w: Catalog, d: Diff, w': Catalog, f: Catalog, j: nat)
    requires Situation(w, d, w', f) && !IsSchemaAction(d.tp) && Mixed(m, w, f) && Holds(r, m)
        && ApplyRep(r, m, f, d).Some?
    requires j in w'.tables && j in f.tables && w'.tables[j] == f.tables[j]
    requires j in w.tables && w.tables[j] == w'.tables[j] ==> Named(r, m, j)
    ensures Named(ApplyRep(r, m, f, d).value, ApplyCatalog(m, f, d), j)
  {
    hide Holds, Named, DropTable, CreateTable, Compatible, Mixed, WellFormed, SamePlace, DescribesBlock, OldBlock,
         NewBlock, OldSchema;
    var o, n := OldBlock(d), NewBlock(d);
    var m1 := m.(tables := WithoutOld(m.tables, o));
    HalfwayHolds(r, m, w, d, w', f);
    BlockCases(m, w, d, w', f, j);
    if j != n && o != 0 {
      Apart(m, w, f, o, j);
      DropTableNamed(r, m, o, j);
    }
    if n != 0 {
      if j != n { NewApart(m1, f, n, j); }
      CreateTableNamed(Halfway(r, m, d), m1, f.tables[n], j);
    }
  }

  lemma BlockCases(m: Catalog, w: Catalog, d: Diff, w': Catalog, f: Catalog, j: nat)
    requires Mixed(m, w, f) && WellFormed(w) && WellFormed(w') && WellFormed(f) && DescribesBlock(w, d, w')
    requires j in w'.tables && j in f.tables && w'.tables[j] == f.tables[j]
    ensures OldBlock(d) != 0 ==>
              && OldBlock(d) in m.tables && m.tables[OldBlock(d)].db == OldSchema(d) && OldSchema(d) in m.dbs
    ensures j != NewBlock(d) ==>
              && j != OldBlock(d) && j in w.tables && w.tables[j] == w'.tables[j] && j in m.tables
                && m.tables[j] == f.tables[j]
    ensures NewBlock(d) != 0 && NewBlock(d) in f.tables ==> f.tables[NewBlock(d)].info.id == NewBlock(d)
    ensures j != 0
  {
    hide OldBlock, NewBlock, OldSchema, SamePlace;
  }

  lemma NewApart(m: Catalog, f: Catalog, n: nat, j: nat)
    requires WellFormed(f) && j in m.tables && j in f.tables && n in f.tables && j != n && m.tables[j] == f.tables[j]
    ensures !SamePlace(m.tables[j], f.tables[n])
  {
  }

  // ---------- all diffs ----------

  /** The catalogs of the versions, and the diffs that lead to them. */
  ghost predicate Timeline(ws: int -> Catalog, ds: int -> Diff, lo: int, hi: int) {
    && lo <= hi && WellFormed(ws(lo)) && WellFormed(ws(hi))
    && forall v | lo < v <= hi :: Situation(ws(v - 1), ds(v), ws(v), ws(hi))
  }

  /** The whole history of the stored schema: every version is described by its diff, a database keeps its name, and
      ids of tables and partitions are kept apart. */
  ghost predicate Recorded(ws: int -> Catalog, ds: int -> Diff) {
    && (forall v | v >= 0 :: WellFormed(ws(v)))
    && (forall v | v > 0 :: ds(v).version == v && Describes(ws(v - 1), ds(v), ws(v)))
    && (forall u, v | u >= 0 && v >= 0 :: Compatible(ws(u), ws(v)))
  }

  lemma RecordedTimeline(ws: int -> Catalog, ds: int -> Diff, lo: int, hi: int)
    requires Recorded(ws, ds) && 0 <= lo <= hi
    ensures Timeline(ws, ds, lo, hi)
  {
    hide WellFormed, Describes, Compatible;
  }

  /** From a version on the table stays as it is at the latest one. */
  ghost predicate Final(ws: int -> Catalog, v: int, hi: int, j: nat) {
    forall u | v <= u <= hi :: j in ws(u).tables && j in ws(hi).tables && ws(u).tables[j] == ws(hi).tables[j]
  }

  /** What holds after the diffs up to a version: the tables by id are mixed of old and new ones, and those that
      will not change any more can be reached by name.  Others may be hidden by tables that already have their
      latest names. */
  ghost predicate LoadedTo(r: Rep, m: Catalog, ws: int -> Catalog, v: int, hi: int) {
    && Holds(r, m) && Mixed(m, ws(v), ws(hi))
    && forall j | Final(ws, v, hi, j) :: Named(r, m, j)
  }

  lemma LoadBegins(r: Rep, ws: int -> Catalog, lo: int, hi: int)
    requires lo <= hi && IsFull(r, ws(lo))
    ensures LoadedTo(r, ws(lo), ws, lo, hi)
  {
    hide Named, BucketsHold, SchemaHolds;
    forall j | Final(ws, lo, hi, j) ensures Named(r, ws(lo), j) {
      assert j in ws(lo).tables;
    }
  }

  lemma LoadStep(r: Rep, m: Catalog, ws: int -> Catalog, ds: int -> Diff, lo: int, v: int, hi: int)
    requires Timeline(ws, ds, lo, hi) && lo < v <= hi && LoadedTo(r, m, ws, v - 1, hi)
    requires ApplyRep(r, m, ws(hi), ds(v)).Some?
    ensures LoadedTo(ApplyRep(r, m, ws(hi), ds(v)).value, ApplyCatalog(m, ws(hi), ds(v)), ws, v, hi)
  {
    hide Named, Holds, ApplyRep, ApplyCatalog, Mixed, Situation, Final;
    var w, d, w', f := ws(v - 1), ds(v), ws(v), ws(hi);
    assert Situation(w, d, w', f);
    StepHolds(r, m, w, d, w', f);
    StepMixed(r, m, w, d, w', f);
    forall j | Final(ws, v, hi, j) ensures Named(ApplyRep(r, m, f, d).value, ApplyCatalog(m, f, d), j) {
      FinalHere(ws, v, hi, j);
      if j in w.tables && w.tables[j] == w'.tables[j] { FinalBefore(ws, v, hi, j); }
      StepNamed(r, m, w, d, w', f, j);
    }
  }

  lemma FinalHere(ws: int -> Catalog, v: int, hi: int, j: nat)
    requires Final(ws, v, hi, j) && v <= hi
    ensures j in ws(v).tables && j in ws(hi).tables && ws(v).tables[j] == ws(hi).tables[j]
  {
  }

  lemma FinalBefore(ws: int -> Catalog, v: int, hi: int, j: nat)
    requires Final(ws, v, hi, j) && v <= hi && j in ws(v).tables
    requires j in ws(v - 1).tables && ws(v - 1).tables[j] == ws(v).tables[j]
    ensures Final(ws, v - 1, hi, j)
  {
    FinalHere(ws, v, hi, j);
  }

  /** Diff load equals full load. */
  lemma LoadEnds(r: Rep, m: Catalog, ws: int -> Catalog, hi: int)
    requires LoadedTo(r, m, ws, hi, hi)
    ensures m == ws(hi) && IsFull(r, ws(hi))
  {
    hide Named, Holds;
    assert m.dbs == ws(hi).dbs && m.tables == ws(hi).tables;
    forall j | j in ws(hi).tables ensures Named(r, m, j) {
      assert Final(ws, hi, hi, j);
    }
  }

  // ---------- what a diff reports ----------

  /** Every table that a diff changes is among those it takes away or brings, or in the database it drops. */
  lemma ChangedByDiff(w: Catalog, d: Diff, w': Catalog, j: nat)
    requires WellFormed(w) && WellFormed(w') && Describes(w, d, w') && j in Changed(w, w')
    ensures if d.tp == DropSchema then j in w.tables && w.tables[j].db == d.schemaID
            else !IsSchemaAction(d.tp) && ((j == OldBlock(d) && j != 0) || (j == NewBlock(d) && j != 0))
  {
    hide DescribesBlock, WellFormed, OldBlock, NewBlock;
    if !IsSchemaAction(d.tp) { ChangedInBlock(w, d, w', j); }
  }

  lemma ChangedInBlock(w: Catalog, d: Diff, w': Catalog, j: nat)
    requires WellFormed(w) && WellFormed(w') && DescribesBlock(w, d, w') && j in Changed(w, w')
    ensures j != 0 && (j == OldBlock(d) || j == NewBlock(d))
  {
    hide OldBlock, NewBlock, OldSchema, SamePlace;
  }

  /** Every table that a diff changes is reported. */
  lemma ChangedIsReported(r: Rep, m: Catalog, w: Catalog, d: Diff, w': Catalog, f: Catalog, j: nat)
    requires Situation(w, d, w', f) && Mixed(m, w, f) && Holds(r, m) && ApplyRep(r, m, f, d).Some?
    requires j in Changed(w, w')
    ensures j in AffectedBy(r, m, f, d)
  {
    hide Changed, Compatible, CreateDb, DropDb, ModifyDb, DropTable, CreateTable, AffectedIds, AffectedBy, SchemaHolds,
         BucketsHold, DescribesBlock, Holds;
    ChangedByDiff(w, d, w', j);
    ReportedExactly(r, m, w, d, w', f, j);
    HeldIds(m, w, f);
    MixedKeys(m, w, f);
    if d.tp != DropSchema { OldIsHeld(m, w, d, w', f); }
  }

  lemma OldIsHeld(m: Catalog, w: Catalog, d: Diff, w': Catalog, f: Catalog)
    requires Situation(w, d, w', f) && Mixed(m, w, f) && !IsSchemaAction(d.tp)
    ensures OldBlock(d) != 0 ==> OldBlock(d) in m.tables
  {
  }

  /** The id of a table or of one of its partitions. */
  predicate Owns(t: Placed, q: int) {
    q == t.info.id || q in t.info.parts
  }

  /** Exactly the ids that a diff reports: of the tables in the database that it drops, of a table that it takes away,
      as the replicant has them, and of a table that it brings or changes in place, as the latest version has it. */
  lemma ReportedExactly(r: Rep, m: Catalog, w: Catalog, d: Diff, w': Catalog, f: Catalog, q: nat)
    requires Situation(w, d, w', f) && Mixed(m, w, f) && Holds(r, m)
    ensures q in AffectedBy(r, m, f, d) <==>
              if d.tp == DropSchema then exists j ::
                j in m.tables && m.tables[j].db == d.schemaID && Owns(m.tables[j], q)
              else
                && !IsSchemaAction(d.tp)
                && var o, n := OldBlock(d), NewBlock(d);
                   || (o != 0 && o != n && o in m.tables && Owns(m.tables[o], q))
                   || (n != 0 && n in f.tables && Owns(f.tables[n], q))
  {
    hide Describes, Compatible, AffectedIds, Holds, Mixed, WellFormed, Owns;
    if d.tp == DropSchema {
      DropReported(r, m, w, d.schemaID, f, q);
    } else {
      HeldIds(m, w, f);
      forall t: Placed ensures q in [t.info.id] + t.info.parts <==> Owns(t, q) { ListsOwned(t, q); }
    }
  }

  /** What a diff concerns, said with the stored catalogs `w` before it and `f` of the latest version: the tables and
      partitions of the database that it drops, of the table that it takes away, as they are in one or the other
      catalog, and of the table that it brings or changes in place, as they are in the latest. */
  predicate Concerns(w: Catalog, f: Catalog, d: Diff, q: int) {
    if d.tp == DropSchema then
      exists j | j in w.tables ::
        w.tables[j].db == d.schemaID && (Owns(w.tables[j], q) || (j in f.tables && Owns(f.tables[j], q)))
    else
      && !IsSchemaAction(d.tp)
      && var o, n := OldBlock(d), NewBlock(d);
         || (o != 0 && o != n && o in w.tables && (Owns(w.tables[o], q) || (o in f.tables && Owns(f.tables[o], q))))
         || (n != 0 && n in f.tables && Owns(f.tables[n], q))
  }

  lemma ReportedConcerns(r: Rep, m: Catalog, w: Catalog, d: Diff, w': Catalog, f: Catalog, q: nat)
    requires Situation(w, d, w', f) && Mixed(m, w, f) && Holds(r, m) && q in AffectedBy(r, m, f, d)
    ensures Concerns(w, f, d, q)
  {
    hide Describes, Compatible, AffectedBy, Holds, WellFormed, Owns;
    ReportedExactly(r, m, w, d, w', f, q);
    if d.tp == DropSchema {
      var j :| j in m.tables && m.tables[j].db == d.schemaID && Owns(m.tables[j], q);
      assert j in w.tables;
    }
  }

  lemma ListsOwned(t: Placed, q: nat)
    ensures q in [t.info.id] + t.info.parts <==> Owns(t, q)
  {
  }

  lemma DropReported(r: Rep, m: Catalog, w: Catalog, id: nat, f: Catalog, q: nat)
    requires Mixed(m, w, f) && WellFormed(w) && Holds(r, m)
    ensures (id in m.dbs && m.dbs[id].name in r.schemas && q in AffectedIds(r.schemas[m.dbs[id].name].infos))
       <==> exists j :: j in m.tables && m.tables[j].db == id && Owns(m.tables[j], q)
  {
    hide AffectedIds, BucketsHold, SchemaHolds, Owns;
    MixedKeys(m, w, f);
    if id in m.dbs {
      assert SchemaHolds(r.schemas[m.dbs[id].name], m.tables);
      DroppedOwned(r.schemas[m.dbs[id].name], m.tables, q);
    }
  }

  /** A partition that a table has both before its change and at the latest version, as far as the table is there, is
      reported with the table. */
  lemma PartsReported(r: Rep, m: Catalog, w: Catalog, d: Diff, w': Catalog, f: Catalog, j: nat, p: nat)
    requires Situation(w, d, w', f) && Mixed(m, w, f) && Holds(r, m) && ApplyRep(r, m, f, d).Some?
    requires j in Changed(w, w')
    requires (j in w.tables ==> p in w.tables[j].info.parts) && (j in f.tables ==> p in f.tables[j].info.parts)
    ensures p in AffectedBy(r, m, f, d)
  {
    hide Changed, Compatible, CreateDb, DropDb, ModifyDb, DropTable, CreateTable, AffectedIds, AffectedBy, SchemaHolds,
         BucketsHold;
    hide DescribesBlock, Holds;
    ChangedByDiff(w, d, w', j);
    ReportedExactly(r, m, w, d, w', f, p);
    if d.tp != DropSchema { OldIsHeld(m, w, d, w', f); }
  }

  /** Of the partitions that a table has when it is changed in place, exactly those are reported that it still has at
      the latest version.  One that is gone by then is not, not even by the change that drops it. */
  lemma InPlaceParts(r: Rep, m: Catalog, w: Catalog, d: Diff, w': Catalog, f: Catalog, p: nat)
    requires Situation(w, d, w', f) && Mixed(m, w, f) && Holds(r, m) && ApplyRep(r, m, f, d).Some?
    requires !IsSchemaAction(d.tp) && OldBlock(d) == NewBlock(d) != 0
    requires OldBlock(d) in w.tables && p in w.tables[OldBlock(d)].info.parts
    ensures NewBlock(d) in f.tables
    ensures p in AffectedBy(r, m, f, d) <==> p in f.tables[NewBlock(d)].info.parts
  {
    hide Changed, CreateDb, DropDb, ModifyDb, DropTable, CreateTable, AffectedIds, AffectedBy, SchemaHolds, BucketsHold;
    hide DescribesBlock, Holds;
    ReportedExactly(r, m, w, d, w', f, p);
    HeldIds(m, w, f);
  }

  /** The input: altering a table drops its only partition.  The table is reported and the partition is not. */
  lemma DroppedPartUnreported() returns (w: Catalog, d: Diff, f: Catalog)
    ensures Situation(w, d, f, f) && Mixed(w, w, f) && 5 in Changed(w, f)
    ensures 5 in w.tables && 7 in w.tables[5].info.parts
    ensures forall r: Rep :: AffectedBy(r, w, f, d) == [5]
  {
    hide Situation, Mixed, Changed, AffectedBy, OneTable;
    var before, after := Placed(1, BlockInfo(5, "orders", [7], 0)), Placed(1, BlockInfo(5, "orders", [], 0));
    w, f := OneTable(before), OneTable(after);
    d := Diff(2, AlterBlock, 1, 1, 5, 0, 0);
    OneTableIs(before);
    OneTableIs(after);
    assert before.info.parts != after.info.parts;
    OneTableChanged(before, after, d);
    forall r ensures AffectedBy(r, w, f, d) == [5] {
      AlterAffects(r, w, f, d);
    }
  }

  function OneTable(t: Placed): Catalog {
    Catalog(map[1 := Db(1, "shop", "utf8")], map[5 := t])
  }

  lemma OneTableIs(t: Placed)
    requires t.db == 1 && t.info.id == 5
    ensures WellFormed(OneTable(t)) && OneTable(t).tables.Keys == {5} && OneTable(t).tables[5] == t
    ensures OneTable(t).dbs == map[1 := Db(1, "shop", "utf8")]
  {
  }

  lemma OneTableChanged(t: Placed, t': Placed, d: Diff)
    requires t.db == t'.db == 1 && t.info.id == t'.info.id == 5 && t != t' && 5 !in t.info.parts && 5 !in t'.info.parts
    requires d.tp == AlterBlock && d.schemaID == 1 && d.blockID == 5
    ensures Situation(OneTable(t), d, OneTable(t'), OneTable(t')) && Mixed(OneTable(t), OneTable(t), OneTable(t'))
    ensures 5 in Changed(OneTable(t), OneTable(t'))
  {
    hide WellFormed, OneTable;
    OneTableIs(t);
    OneTableIs(t');
    assert 5 in OneTable(t).tables.Keys && 5 in OneTable(t').tables.Keys;
  }

  lemma AlterAffects(r: Rep, m: Catalog, f: Catalog, d: Diff)
    requires d.tp == AlterBlock && d.blockID != 0 && d.blockID in f.tables
    ensures AffectedBy(r, m, f, d) == [d.blockID] + f.tables[d.blockID].info.parts
  {
  }

  lemma HeldIds(m: Catalog, w: Catalog, f: Catalog)
    requires Mixed(m, w, f) && WellFormed(w) && WellFormed(f)
    ensures forall j | j in m.tables :: m.tables[j].info.id == j
    ensures forall j | j in f.tables :: f.tables[j].info.id == j
  {
  }

  lemma DroppedOwned(s: Schema, tables: map<nat, Placed>, q: nat)
    requires SchemaHolds(s, tables)
    ensures q in AffectedIds(s.infos) <==> exists j :: j in tables && tables[j].db == s.db.id && Owns(tables[j], q)
  {
    hide UniqueIds;
    AffectedIdsIs(s.infos);
  }
}
