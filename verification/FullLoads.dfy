/** Loading the whole schema: every database with its tables, by name and by id. */
module FullLoads {
  import opened Catalogs
  import opened Replicants
  import opened SchemaSteps
  import opened Builders

  /** A database as it is read from storage, with the list of its tables. */
  datatype DbInfo = DbInfo(db: Db, infos: seq<BlockInfo>)

  /** Everything in a catalog is read exactly once. */
  ghost predicate ReadsAll(dbInfos: seq<DbInfo>, f: Catalog) {
    && (forall i, j | 0 <= i < j < |dbInfos| :: dbInfos[i].db.id != dbInfos[j].db.id)
    && (forall x | x in dbInfos :: x.db.id in f.dbs && f.dbs[x.db.id] == x.db && TablesOf(x, f))
    && (forall i | i in f.dbs :: exists x :: x in dbInfos && x.db.id == i)
  }

  ghost predicate TablesOf(x: DbInfo, f: Catalog) {
    UniqueIds(x.infos) && forall t :: t in x.infos <==> t.id in f.tables && f.tables[t.id] == Placed(x.db.id, t)
  }

  /** The tables of a list that fall into one bucket. */
  function InBucketOf(s: seq<BlockInfo>, i: nat): seq<BlockInfo> {
    if s == [] then []
    else InBucketOf(s[..|s| - 1], i) + if BucketIdx(s[|s| - 1].id) == i then [s[|s| - 1]] else []
  }

  lemma {:induction false} InBucketOfIs(s: seq<BlockInfo>, i: nat)
    requires UniqueIds(s)
    ensures UniqueIds(InBucketOf(s, i)) && forall t :: t in InBucketOf(s, i) <==> t in s && BucketIdx(t.id) == i
  {
    if s != [] {
      var front, last := s[..|s| - 1], s[|s| - 1];
      InBucketOfIs(front, i);
      assert s == front + [last];
      assert forall t | t in front :: t.id != last.id;
      AppendUnique(InBucketOf(front, i), last);
    }
  }

  /** The tables of a list by name. */
  ghost predicate ByName(blocks: map<string, BlockInfo>, infos: seq<BlockInfo>) {
    && (forall t | t in infos :: t.name in blocks && blocks[t.name] == t)
    && (forall k | k in blocks :: blocks[k] in infos && blocks[k].name == k)
  }

  ghost predicate UniqueNames(infos: seq<BlockInfo>) {
    forall i, j | 0 <= i < j < |infos| :: infos[i].name != infos[j].name
  }

  ghost predicate Separate(buckets: seq<SortedBlocks>) {
    |buckets| == BUCKET_COUNT && forall i, j | 0 <= i < j < BUCKET_COUNT :: buckets[i] != buckets[j]
  }

  /** The buckets hold these tables, not sorted yet. */
  ghost predicate Have(buckets: seq<SortedBlocks>, tables: seq<BlockInfo>)
    reads buckets
  {
    |buckets| == BUCKET_COUNT && forall i | 0 <= i < BUCKET_COUNT :: buckets[i].tables == InBucketOf(tables, i)
  }

  method AppendToBucket(buckets: seq<SortedBlocks>, t: BlockInfo, ghost tables: seq<BlockInfo>)
    requires Separate(buckets) && Have(buckets, tables)
    modifies buckets
    ensures Have(buckets, tables + [t])
  {
    ghost var next := tables + [t];
    assert next[..|next| - 1] == tables && next[|next| - 1] == t;
    var sortedTbls := buckets[BucketIdx(t.id)];
    sortedTbls.tables := sortedTbls.tables + [t];
  }

  lemma NothingByName()
    ensures ByName(map[], [])
  {
  }

  lemma ByNameMore(blocks: map<string, BlockInfo>, front: seq<BlockInfo>, t: BlockInfo)
    requires ByName(blocks, front) && forall i | 0 <= i < |front| :: front[i].name != t.name
    ensures ByName(blocks[t.name := t], front + [t])
  {
    assert forall u | u in front :: u.name != t.name;
  }

  /** A database with its tables by name; the tables also go to the ends of their buckets. */
  method CreateSchemaBlocksForDB(di: DbInfo, buckets: seq<SortedBlocks>, ghost before: seq<BlockInfo>)
    returns (schTbls: SchemaBlocks)
    requires Separate(buckets) && Have(buckets, before) && UniqueNames(di.infos)
    modifies buckets
    ensures fresh(schTbls) && schTbls.db == di.db && schTbls.infos == di.infos && ByName(schTbls.blocks, di.infos)
    ensures Have(buckets, before + di.infos)
  {
    hide Have, Separate, ByName;
    NothingByName();
    schTbls := new SchemaBlocks(di.db, di.infos, map[]);
    assert before + di.infos[..0] == before;
    for i := 0 to |di.infos|
      invariant Have(buckets, before + di.infos[..i]) && schTbls.db == di.db && schTbls.infos == di.infos
      invariant ByName(schTbls.blocks, di.infos[..i]) && fresh(schTbls)
      modifies schTbls, buckets
    {
      var t := di.infos[i];
      assert di.infos[..i + 1] == di.infos[..i] + [t];
      assert before + di.infos[..i + 1] == before + di.infos[..i] + [t];
      ByNameMore(schTbls.blocks, di.infos[..i], t);
      schTbls.blocks := schTbls.blocks[t.name := t];
      AppendToBucket(buckets, t, before + di.infos[..i]);
    }
    assert di.infos[..|di.infos|] == di.infos;
  }

  method SortBuckets(buckets: seq<SortedBlocks>, ghost tables: seq<BlockInfo>)
    requires Separate(buckets) && Have(buckets, tables) && UniqueIds(tables)
    modifies buckets
    ensures forall i | 0 <= i < BUCKET_COUNT ::
              SortedById(buckets[i].tables)
                && forall t :: t in buckets[i].tables <==> t in tables && BucketIdx(t.id) == i
  {
    hide UniqueIds, SortedById;
    for i := 0 to BUCKET_COUNT
      invariant forall j | i <= j < BUCKET_COUNT :: buckets[j].tables == InBucketOf(tables, j)
      invariant forall j | 0 <= j < i ::
        SortedById(buckets[j].tables) && forall t :: t in buckets[j].tables <==> t in tables && BucketIdx(t.id) == j
    {
      InBucketOfIs(tables, i);
      buckets[i].tables := SortBlocks(buckets[i].tables);
    }
  }

  // ---------- the whole load ----------

  function AllInfos(dbInfos: seq<DbInfo>): seq<BlockInfo> {
    if dbInfos == [] then [] else AllInfos(dbInfos[..|dbInfos| - 1]) + dbInfos[|dbInfos| - 1].infos
  }

  /** The databases among the first ones of the list are in the map as they were read. */
  ghost predicate Installed(m: map<string, SchemaBlocks>, dbInfos: seq<DbInfo>)
    reads m.Values
  {
    && (forall x | x in dbInfos :: x.db.name in m && InstalledAs(m[x.db.name], x))
    && (forall n | n in m :: exists x :: x in dbInfos && x.db.name == n)
  }

  ghost predicate InstalledAs(s: SchemaBlocks, x: DbInfo)
    reads s
  {
    s.db == x.db && s.infos == x.infos && ByName(s.blocks, x.infos)
  }

  lemma InstalledMore(m: map<string, SchemaBlocks>, front: seq<DbInfo>, x: DbInfo, s: SchemaBlocks)
    requires Installed(m, front) && InstalledAs(s, x) && forall y | y in front :: y.db.name != x.db.name
    ensures Installed(m[x.db.name := s], front + [x])
  {
  }

  lemma EmptyBuckets(m: map<string, SchemaBlocks>, buckets: seq<SortedBlocks>)
    requires DistinctParts(m, buckets) && forall s | s in buckets :: s.tables == []
    ensures Separate(buckets) && Have(buckets, AllInfos([]))
  {
  }

  /** Names are unique among what was read. */
  lemma ReadNames(dbInfos: seq<DbInfo>, f: Catalog, i: nat)
    requires WellFormed(f) && ReadsAll(dbInfos, f) && i < |dbInfos|
    ensures UniqueNames(dbInfos[i].infos) && forall y | y in dbInfos[..i] :: y.db.name != dbInfos[i].db.name
  {
    hide ReadsAll, SamePlace;
    ReadsAllAt(dbInfos, f, i);
    var x := dbInfos[i];
    forall j, k | 0 <= j < k < |x.infos| ensures x.infos[j].name != x.infos[k].name {
      assert x.infos[j] in x.infos && x.infos[k] in x.infos;
      DifferentNames(x, f, x.infos[j], x.infos[k]);
    }
    forall y | y in dbInfos[..i] ensures y.db.name != x.db.name {
      var k :| 0 <= k < i && dbInfos[k] == y;
      ReadsAllAt(dbInfos, f, k);
    }
  }

  lemma DifferentNames(x: DbInfo, f: Catalog, t: BlockInfo, u: BlockInfo)
    requires WellFormed(f) && TablesOf(x, f) && t in x.infos && u in x.infos && t.id != u.id
    ensures t.name != u.name
  {
  }

  lemma ReadsAllAt(dbInfos: seq<DbInfo>, f: Catalog, i: nat)
    requires ReadsAll(dbInfos, f) && i < |dbInfos|
    ensures var x := dbInfos[i]; x.db.id in f.dbs && f.dbs[x.db.id] == x.db && TablesOf(x, f)
    ensures forall j | 0 <= j < |dbInfos| && j != i :: dbInfos[j].db.id != dbInfos[i].db.id
  {
    assert dbInfos[i] in dbInfos;
  }

  ghost predicate Among(t: BlockInfo, dbInfos: seq<DbInfo>) {
    exists x :: x in dbInfos && t in x.infos
  }

  lemma NotAmong(t: BlockInfo)
    ensures !Among(t, [])
  {
  }

  lemma AmongSnoc(t: BlockInfo, front: seq<DbInfo>, last: DbInfo)
    ensures Among(t, front + [last]) <==> Among(t, front) || t in last.infos
  {
    if Among(t, front) {
      var x :| x in front && t in x.infos;
      assert x in front + [last];
    }
    if t in last.infos { assert last in front + [last]; }
  }

  lemma {:induction false} AllInfosAre(dbInfos: seq<DbInfo>, f: Catalog)
    requires forall i, j | 0 <= i < j < |dbInfos| :: dbInfos[i].db.id != dbInfos[j].db.id
    requires forall x | x in dbInfos :: TablesOf(x, f)
    ensures UniqueIds(AllInfos(dbInfos))
    ensures forall t :: t in AllInfos(dbInfos) <==> Among(t, dbInfos)
  {
    hide UniqueIds, Among, TablesOf;
    if dbInfos == [] {
      NoIds();
      forall t ensures !Among(t, dbInfos) { NotAmong(t); }
    } else {
      var front, last := dbInfos[..|dbInfos| - 1], dbInfos[|dbInfos| - 1];
      assert dbInfos == front + [last];
      AllInfosAre(front, f);
      forall t, u | t in AllInfos(front) && u in last.infos ensures t.id != u.id {
        OtherTables(front, last, f, t, u);
      }
      assert last in dbInfos;
      TablesUnique(last, f);
      JoinUnique(AllInfos(front), last.infos);
      forall t ensures Among(t, dbInfos) <==> Among(t, front) || t in last.infos { AmongSnoc(t, front, last); }
    }
  }

  lemma TablesUnique(x: DbInfo, f: Catalog)
    requires TablesOf(x, f)
    ensures UniqueIds(x.infos)
  {
  }

  lemma OtherTables(front: seq<DbInfo>, last: DbInfo, f: Catalog, t: BlockInfo, u: BlockInfo)
    requires forall x | x in front :: x.db.id != last.db.id && TablesOf(x, f)
    requires TablesOf(last, f) && Among(t, front) && u in last.infos
    ensures t.id != u.id
  {
    hide UniqueIds;
    var x :| x in front && t in x.infos;
    assert TablesOf(x, f);
  }

  lemma NoIds()
    ensures UniqueIds([])
  {
  }

  lemma JoinUnique(s: seq<BlockInfo>, t: seq<BlockInfo>)
    requires UniqueIds(s) && UniqueIds(t) && forall x, y | x in s && y in t :: x.id != y.id
    ensures UniqueIds(s + t)
  {
    var r := s + t;
    forall i, j | 0 <= i < j < |r| ensures r[i].id != r[j].id {
      if i < |s| <= j { assert r[i] in s && r[j] in t; }
    }
  }

  /** All tables of the catalog have been read. */
  lemma AllRead(dbInfos: seq<DbInfo>, f: Catalog)
    requires WellFormed(f) && ReadsAll(dbInfos, f)
    ensures UniqueIds(AllInfos(dbInfos))
    ensures forall t :: t in AllInfos(dbInfos) <==> t.id in f.tables && f.tables[t.id].info == t
  {
    hide UniqueIds, SamePlace;
    AllInfosAre(dbInfos, f);
    forall t ensures t in AllInfos(dbInfos) <==> t.id in f.tables && f.tables[t.id].info == t {
      if t.id in f.tables && f.tables[t.id].info == t {
        var x :| x in dbInfos && x.db.id == f.tables[t.id].db;
        assert TablesOf(x, f);
      }
    }
  }

  /** The result is what the catalog says. */
  lemma Built(rep: SchemaReplicant, dbInfos: seq<DbInfo>, f: Catalog)
    requires WellFormed(f) && ReadsAll(dbInfos, f) && Installed(rep.schemaMap, dbInfos) && |rep.buckets| == BUCKET_COUNT
    requires forall i | 0 <= i < BUCKET_COUNT ::
               && SortedById(rep.buckets[i].tables)
               && forall t ::
                    t in rep.buckets[i].tables <==>
                    t.id in f.tables && f.tables[t.id].info == t && BucketIdx(t.id) == i
    ensures IsFull(rep.Value(), f)
  {
    hide SortedById, UniqueIds, ByName, SamePlace, BucketsHold, ReadsAll, Installed;
    SchemaValuesAll(rep.schemaMap);
    BucketValuesLength(rep.buckets);
    var r := rep.Value();
    assert BucketsHold(r.buckets, f.tables) by { BuiltBuckets(r.buckets, f); }
    forall n | n in r.schemas
      ensures r.schemas[n].db.name == n && r.schemas[n].db.id in f.dbs && f.dbs[r.schemas[n].db.id] == r.schemas[n].db
      ensures SchemaHolds(r.schemas[n], f.tables)
    {
      var x := ReadAs(rep.schemaMap, dbInfos, f, n);
      BuiltSchema(r.schemas[n], x, f);
    }
    forall i | i in f.dbs
      ensures f.dbs[i].id == i && f.dbs[i].name in r.schemas && r.schemas[f.dbs[i].name].db == f.dbs[i]
    {
      var x := ReadById(rep.schemaMap, dbInfos, f, i);
    }
    forall id | id in f.tables ensures Named(r, f, id) {
      var x := ReadById(rep.schemaMap, dbInfos, f, f.tables[id].db);
      NamedIn(r.schemas[x.db.name], x, f, id);
    }
  }

  lemma BuiltBuckets(b: seq<seq<BlockInfo>>, f: Catalog)
    requires WellFormed(f) && |b| == BUCKET_COUNT
    requires forall i | 0 <= i < BUCKET_COUNT ::
               && SortedById(b[i])
               && forall t :: t in b[i] <==> t.id in f.tables && f.tables[t.id].info == t && BucketIdx(t.id) == i
    ensures BucketsHold(b, f.tables)
  {
    hide SortedById, SamePlace;
  }

  lemma ReadAs(m: map<string, SchemaBlocks>, dbInfos: seq<DbInfo>, f: Catalog, n: string) returns (x: DbInfo)
    requires WellFormed(f) && ReadsAll(dbInfos, f) && Installed(m, dbInfos) && n in m
    ensures InstalledAs(m[n], x) && x.db.name == n && x.db.id in f.dbs && f.dbs[x.db.id] == x.db && TablesOf(x, f)
  {
    hide TablesOf, InstalledAs, WellFormed;
    x :| x in dbInfos && x.db.name == n;
  }

  lemma ReadById(m: map<string, SchemaBlocks>, dbInfos: seq<DbInfo>, f: Catalog, i: nat) returns (x: DbInfo)
    requires WellFormed(f) && ReadsAll(dbInfos, f) && Installed(m, dbInfos) && i in f.dbs
    ensures f.dbs[i] == x.db && x.db.id == i && x.db.name in m && InstalledAs(m[x.db.name], x) && TablesOf(x, f)
  {
    hide TablesOf, InstalledAs, SamePlace;
    x :| x in dbInfos && x.db.id == i;
  }

  lemma BuiltSchema(s: Schema, x: DbInfo, f: Catalog)
    requires s.db == x.db && s.infos == x.infos && ByName(s.blocks, x.infos) && TablesOf(x, f) && WellFormed(f)
    ensures SchemaHolds(s, f.tables)
  {
    hide UniqueIds;
  }

  lemma NamedIn(s: Schema, x: DbInfo, f: Catalog, id: nat)
    requires WellFormed(f) && ByName(s.blocks, x.infos) && TablesOf(x, f) && id in f.tables
        && f.tables[id].db == x.db.id
    ensures f.tables[id].info.name in s.blocks && s.blocks[f.tables[id].info.name] == f.tables[id].info
  {
    hide UniqueIds, SamePlace;
    assert f.tables[id].info in x.infos;
  }

  /** Builds a replicant from scratch. */
  method InitWithDBInfos(b: Builder, dbInfos: seq<DbInfo>, version: int, ghost f: Catalog)
    requires b.Distinct() && b.rep.schemaMap == map[] && (forall s | s in b.rep.buckets :: s in b.own && s.tables == [])
    requires WellFormed(f) && ReadsAll(dbInfos, f)
    modifies b`own, b.rep, b.own
    ensures b.Distinct() && b.rep.version == version && IsFull(b.rep.Value(), f)
  {
    hide ReadsAll, WellFormed, Have, Separate, Installed, InstalledAs, DistinctParts, IsFull;
    var rep: SchemaReplicant := b.rep;
    rep.version := version;
    var buckets := rep.buckets;
    EmptyBuckets(rep.schemaMap, buckets);
    rep.schemaMap := AddSchemas(dbInfos, buckets, f);
    AllRead(dbInfos, f);
    SortBuckets(buckets, AllInfos(dbInfos));
    Built(rep, dbInfos, f);
  }

  /** Adds all databases. */
  method AddSchemas(dbInfos: seq<DbInfo>, buckets: seq<SortedBlocks>, ghost f: Catalog)
    returns (schemaMap: map<string, SchemaBlocks>)
    requires Separate(buckets) && Have(buckets, AllInfos([])) && DistinctParts(map[], buckets)
    requires WellFormed(f) && ReadsAll(dbInfos, f)
    modifies buckets
    ensures Have(buckets, AllInfos(dbInfos)) && Installed(schemaMap, dbInfos) && DistinctParts(schemaMap, buckets)
  {
    hide ReadsAll, WellFormed, Have, Separate, Installed, InstalledAs, DistinctParts, UniqueNames, AllInfos;
    NoneInstalled();
    schemaMap := map[];
    assert dbInfos[..0] == [];
    for i := 0 to |dbInfos|
      invariant Have(buckets, AllInfos(dbInfos[..i]))
      invariant Installed(schemaMap, dbInfos[..i]) && DistinctParts(schemaMap, buckets)
      invariant forall n | n in schemaMap :: fresh(schemaMap[n])
      modifies buckets
    {
      assert dbInfos[..i + 1] == dbInfos[..i] + [dbInfos[i]];
      ReadNames(dbInfos, f, i);
      schemaMap := AddSchema(schemaMap, dbInfos, i, buckets);
    }
    assert dbInfos[..|dbInfos|] == dbInfos;
  }

  /** Adds the next database. */
  method AddSchema(m: map<string, SchemaBlocks>, dbInfos: seq<DbInfo>, i: nat, buckets: seq<SortedBlocks>)
    returns (m': map<string, SchemaBlocks>)
    requires i < |dbInfos| && Separate(buckets) && Have(buckets, AllInfos(dbInfos[..i]))
    requires Installed(m, dbInfos[..i]) && DistinctParts(m, buckets)
    requires UniqueNames(dbInfos[i].infos) && forall y | y in dbInfos[..i] :: y.db.name != dbInfos[i].db.name
    modifies buckets
    ensures Have(buckets, AllInfos(dbInfos[..i] + [dbInfos[i]])) && Installed(m', dbInfos[..i] + [dbInfos[i]])
    ensures DistinctParts(m', buckets) && forall n | n in m' :: (n in m && m'[n] == m[n]) || fresh(m'[n])
  {
    hide Have, Separate, Installed, InstalledAs, DistinctParts, UniqueNames;
    var di := dbInfos[i];
    AllInfosMore(dbInfos[..i], di);
    var s := CreateSchemaBlocksForDB(di, buckets, AllInfos(dbInfos[..i]));
    IsInstalled(s, di);
    InstalledMore(m, dbInfos[..i], di, s);
    DistinctMap(m, buckets, di.db.name, s);
    m' := m[di.db.name := s];
  }

  lemma AllInfosMore(front: seq<DbInfo>, x: DbInfo)
    ensures AllInfos(front + [x]) == AllInfos(front) + x.infos
  {
    assert (front + [x])[..|front|] == front;
  }

  lemma IsInstalled(s: SchemaBlocks, x: DbInfo)
    requires s.db == x.db && s.infos == x.infos && ByName(s.blocks, x.infos)
    ensures InstalledAs(s, x)
  {
  }

  lemma NoneInstalled()
    ensures Installed(map[], [])
  {
  }
}
