/** What the builder's steps do to a replicant, and what the replicant then holds. */
module SchemaSteps {
  import opened Layering
  import opened Catalogs
  import opened Replicants

  // ---------- buckets ----------

  function TableIn(b: seq<BlockInfo>, id: nat): Option<BlockInfo> {
    if b == [] then None else if b[0].id == id then Some(b[0]) else TableIn(b[1..], id)
  }

  lemma {:induction false} TableInIs(b: seq<BlockInfo>, id: nat)
    requires UniqueIds(b)
    ensures TableIn(b, id).None? ==> forall t | t in b :: t.id != id
    ensures TableIn(b, id).Some? ==> TableIn(b, id).value in b && TableIn(b, id).value.id == id
    ensures forall t | t in b && t.id == id :: TableIn(b, id) == Some(t)
  {
    hide UniqueIds;
    if b != [] {
      TailOf(b);
      TableInIs(b[1..], id);
    }
  }

  function RemoveFrom(b: seq<seq<BlockInfo>>, id: nat): seq<seq<BlockInfo>>
    requires |b| == BUCKET_COUNT
  {
    b[BucketIdx(id) := Remove(b[BucketIdx(id)], id)]
  }

  lemma RemoveFromHolds(b: seq<seq<BlockInfo>>, tables: map<nat, Placed>, id: nat)
    requires BucketsHold(b, tables)
    ensures BucketsHold(RemoveFrom(b, id), tables - {id})
  {
    hide SortedById, UniqueIds;
    var i := BucketIdx(id);
    SortedIsUnique(b[i]);
    RemoveIs(b[i], id);
    var b' := RemoveFrom(b, id);
    forall k, t | 0 <= k < BUCKET_COUNT && t in b'[k] ensures t in b[k] && t.id != id {
    }
    forall j | j in tables - {id} ensures tables[j].info in b'[BucketIdx(j)] {
      assert tables[j].info in b[BucketIdx(j)];
    }
  }

  function InsertInto(b: seq<seq<BlockInfo>>, t: BlockInfo): seq<seq<BlockInfo>>
    requires |b| == BUCKET_COUNT
  {
    b[BucketIdx(t.id) := Insert(b[BucketIdx(t.id)], t)]
  }

  lemma InsertIntoHolds(b: seq<seq<BlockInfo>>, tables: map<nat, Placed>, p: Placed)
    requires BucketsHold(b, tables) && p.info.id !in tables
    ensures BucketsHold(InsertInto(b, p.info), tables[p.info.id := p])
  {
    hide SortedById;
    var i := BucketIdx(p.info.id);
    InsertIs(b[i], p.info);
    var b' := InsertInto(b, p.info);
    forall k, t | 0 <= k < BUCKET_COUNT && t in b'[k] ensures t in b[k] || (k == i && t == p.info) {
    }
    forall j | j in tables ensures tables[j].info in b'[BucketIdx(j)] {
      assert tables[j].info in b[BucketIdx(j)];
    }
  }

  // ---------- one table ----------

  function SchemaWithout(s: Schema, t: BlockInfo): Schema {
    s.(infos := Remove(s.infos, t.id), blocks := s.blocks - {t.name})
  }

  /** Takes a table out of the database with a name, and out of its bucket. */
  function DropTable(r: Rep, n: string, id: nat): Rep
    requires |r.buckets| == BUCKET_COUNT
  {
    var t := TableIn(r.buckets[BucketIdx(id)], id);
    Rep(if t.Some? && n in r.schemas then r.schemas[n := SchemaWithout(r.schemas[n], t.value)] else r.schemas,
        RemoveFrom(r.buckets, id))
  }

  function SchemaWith(s: Schema, t: BlockInfo): Schema {
    s.(infos := s.infos + [t], blocks := s.blocks[t.name := t])
  }

  function CreateTable(r: Rep, n: string, t: BlockInfo): Rep
    requires |r.buckets| == BUCKET_COUNT && n in r.schemas
  {
    Rep(r.schemas[n := SchemaWith(r.schemas[n], t)], InsertInto(r.buckets, t))
  }

  lemma SchemaWithoutHolds(s: Schema, tables: map<nat, Placed>, t: BlockInfo)
    requires SchemaHolds(s, tables) && t.id in tables && tables[t.id] == Placed(s.db.id, t)
    ensures SchemaHolds(SchemaWithout(s, t), tables - {t.id})
  {
    hide UniqueIds;
    RemoveIs(s.infos, t.id);
    assert forall k | k in s.blocks && k != t.name :: s.blocks[k].id != t.id;
  }

  lemma SchemaWithHolds(s: Schema, tables: map<nat, Placed>, t: BlockInfo)
    requires SchemaHolds(s, tables) && t.id !in tables
    ensures SchemaHolds(SchemaWith(s, t), tables[t.id := Placed(s.db.id, t)])
  {
    assert forall u | u in s.infos :: u.id != t.id;
    var r := s.infos + [t];
    assert forall i | 0 <= i < |s.infos| :: r[i] == s.infos[i] && s.infos[i] in s.infos;
  }

  /** Another database is not concerned. */
  lemma OtherSchemaHolds(s: Schema, tables: map<nat, Placed>, tables': map<nat, Placed>)
    requires SchemaHolds(s, tables)
    requires forall id | id in tables && tables[id].db == s.db.id :: id in tables' && tables'[id] == tables[id]
    requires forall id | id in tables' && tables'[id].db == s.db.id :: id in tables && tables[id] == tables'[id]
    ensures SchemaHolds(s, tables')
  {
  }

  lemma DropTableHolds(r: Rep, c: Catalog, id: nat)
    requires Holds(r, c) && id in c.tables && c.tables[id].db in c.dbs
    ensures Holds(DropTable(r, c.dbs[c.tables[id].db].name, id), c.(tables := c.tables - {id}))
  {
    hide SortedById, SchemaHolds, BucketsHold;
    var n, t := c.dbs[c.tables[id].db].name, c.tables[id].info;
    BucketTable(r.buckets, c.tables, id);
    RemoveFromHolds(r.buckets, c.tables, id);
    SchemaWithoutHolds(r.schemas[n], c.tables, t);
    forall m | m in r.schemas && m != n ensures SchemaHolds(r.schemas[m], c.tables - {id}) {
      OtherSchemaHolds(r.schemas[m], c.tables, c.tables - {id});
    }
  }

  /** Dropping a table does not hide one with another name. */
  lemma DropTableNamed(r: Rep, c: Catalog, id: nat, j: nat)
    requires Holds(r, c) && id in c.tables && c.tables[id].db in c.dbs
    requires Named(r, c, j) && j != id && !SamePlace(c.tables[j], c.tables[id])
    ensures Named(DropTable(r, c.dbs[c.tables[id].db].name, id), c.(tables := c.tables - {id}), j)
  {
    hide SortedById, SchemaHolds, BucketsHold;
    BucketTable(r.buckets, c.tables, id);
  }

  lemma BucketTable(b: seq<seq<BlockInfo>>, tables: map<nat, Placed>, id: nat)
    requires BucketsHold(b, tables)
    ensures |b| == BUCKET_COUNT
    ensures TableIn(b[BucketIdx(id)], id) == if id in tables then Some(tables[id].info) else None
    ensures id in tables ==> tables[id].info.id == id
  {
    hide SortedById, UniqueIds;
    SortedIsUnique(b[BucketIdx(id)]);
    TableInIs(b[BucketIdx(id)], id);
  }

  lemma CreateTableHolds(r: Rep, c: Catalog, p: Placed)
    requires Holds(r, c) && p.info.id !in c.tables && p.db in c.dbs
    ensures c.dbs[p.db].name in r.schemas && |r.buckets| == BUCKET_COUNT
    ensures Holds(CreateTable(r, c.dbs[p.db].name, p.info), c.(tables := c.tables[p.info.id := p]))
  {
    hide SortedById, SchemaHolds, BucketsHold;
    var n := c.dbs[p.db].name;
    BucketTable(r.buckets, c.tables, p.info.id);
    InsertIntoHolds(r.buckets, c.tables, p);
    SchemaWithHolds(r.schemas[n], c.tables, p.info);
    forall m | m in r.schemas && m != n ensures SchemaHolds(r.schemas[m], c.tables[p.info.id := p]) {
      OtherSchemaHolds(r.schemas[m], c.tables, c.tables[p.info.id := p]);
    }
  }

  /** A created table can be reached by name, and hides none with another name. */
  lemma CreateTableNamed(r: Rep, c: Catalog, p: Placed, j: nat)
    requires Holds(r, c) && p.info.id !in c.tables && p.db in c.dbs
    requires j == p.info.id || (Named(r, c, j) && !SamePlace(c.tables[j], p))
    ensures c.dbs[p.db].name in r.schemas && |r.buckets| == BUCKET_COUNT
    ensures Named(CreateTable(r, c.dbs[p.db].name, p.info), c.(tables := c.tables[p.info.id := p]), j)
  {
    hide SortedById, SchemaHolds, BucketsHold;
    BucketTable(r.buckets, c.tables, p.info.id);
  }

  // ---------- databases ----------

  function CreateDb(r: Rep, db: Db): Rep {
    r.(schemas := r.schemas[db.name := Schema(db, [], map[])])
  }

  lemma CreateDbHolds(r: Rep, c: Catalog, db: Db)
    requires Holds(r, c) && db.id !in c.dbs && forall i | i in c.dbs :: c.dbs[i].name != db.name
    requires forall id | id in c.tables :: c.tables[id].db in c.dbs
    ensures Holds(CreateDb(r, db), c.(dbs := c.dbs[db.id := db]))
  {
    hide BucketsHold;
  }

  lemma CreateDbNamed(r: Rep, c: Catalog, db: Db, j: nat)
    requires Holds(r, c) && db.id !in c.dbs && forall i | i in c.dbs :: c.dbs[i].name != db.name
    requires Named(r, c, j)
    ensures Named(CreateDb(r, db), c.(dbs := c.dbs[db.id := db]), j)
  {
    hide BucketsHold, SchemaHolds;
  }

  function ModifyDb(r: Rep, n: string, charset: string): Rep
    requires n in r.schemas
  {
    r.(schemas := r.schemas[n := r.schemas[n].(db := r.schemas[n].db.(charset := charset))])
  }

  lemma ModifyDbHolds(r: Rep, c: Catalog, id: nat, charset: string)
    requires Holds(r, c) && id in c.dbs && c.dbs[id].id == id
    ensures c.dbs[id].name in r.schemas
    ensures Holds(ModifyDb(r, c.dbs[id].name, charset), c.(dbs := c.dbs[id := c.dbs[id].(charset := charset)]))
  {
    hide BucketsHold, SchemaHolds, Named;
    var n, db := c.dbs[id].name, c.dbs[id].(charset := charset);
    assert SchemaHolds(r.schemas[n], c.tables);
    SameDbHolds(r.schemas[n], c.tables, db);
  }

  lemma ModifyDbNamed(r: Rep, c: Catalog, id: nat, charset: string, j: nat)
    requires Holds(r, c) && id in c.dbs && Named(r, c, j)
    ensures Named(ModifyDb(r, c.dbs[id].name, charset), c.(dbs := c.dbs[id := c.dbs[id].(charset := charset)]), j)
  {
    hide BucketsHold, SchemaHolds;
  }

  lemma SameDbHolds(s: Schema, tables: map<nat, Placed>, db: Db)
    requires SchemaHolds(s, tables) && db.id == s.db.id
    ensures SchemaHolds(s.(db := db), tables)
  {
  }

  /** The ids that a list of tables brings with it: their own and those of their partitions. */
  function AffectedIds(infos: seq<BlockInfo>): seq<nat> {
    if infos == [] then [] else AffectedIds(infos[..|infos| - 1]) + [infos[|infos| - 1].id] + infos[|infos| - 1].parts
  }

  lemma {:induction false} AffectedIdsIs(infos: seq<BlockInfo>)
    ensures forall id :: id in AffectedIds(infos) <==> exists t :: t in infos && (id == t.id || id in t.parts)
  {
    if infos != [] {
      var front, last := infos[..|infos| - 1], infos[|infos| - 1];
      AffectedIdsIs(front);
      assert infos == front + [last];
    }
  }

  function RemoveAll(b: seq<seq<BlockInfo>>, ids: seq<nat>): (r: seq<seq<BlockInfo>>)
    requires |b| == BUCKET_COUNT
    ensures |r| == BUCKET_COUNT
  {
    if ids == [] then b else RemoveFrom(RemoveAll(b, ids[..|ids| - 1]), ids[|ids| - 1])
  }

  lemma {:induction false} RemoveAllHolds(b: seq<seq<BlockInfo>>, tables: map<nat, Placed>, ids: seq<nat>,
                                          left: map<nat, Placed>)
    requires BucketsHold(b, tables) && left == map id | id in tables && id !in ids :: tables[id]
    ensures BucketsHold(RemoveAll(b, ids), left)
    decreases |ids|
  {
    hide BucketsHold;
    BucketTable(b, tables, 0);
    if ids == [] {
      assert left == tables;
    } else {
      var front, last := ids[..|ids| - 1], ids[|ids| - 1];
      assert ids == front + [last];
      var before := map id | id in tables && id !in front :: tables[id];
      RemoveAllHolds(b, tables, front, before);
      RemoveFromHolds(RemoveAll(b, front), before, last);
      assert before - {last} == left;
    }
  }

  function DropDb(r: Rep, n: string): Rep
    requires n in r.schemas && |r.buckets| == BUCKET_COUNT
  {
    Rep(r.schemas - {n}, RemoveAll(r.buckets, AffectedIds(r.schemas[n].infos)))
  }

  ghost function TablesElsewhere(tables: map<nat, Placed>, db: nat): map<nat, Placed> {
    map id | id in tables && tables[id].db != db :: tables[id]
  }

  /** Dropping a database takes its tables with it.  Ids of partitions are no ids of tables. */
  lemma DropDbHolds(r: Rep, c: Catalog, id: nat)
    requires Holds(r, c) && id in c.dbs && c.dbs[id].id == id
    requires forall j, p | j in c.tables && p in c.tables[j].info.parts :: p !in c.tables
    ensures c.dbs[id].name in r.schemas && |r.buckets| == BUCKET_COUNT
    ensures Holds(DropDb(r, c.dbs[id].name), Catalog(c.dbs - {id}, TablesElsewhere(c.tables, id)))
  {
    hide BucketsHold, SchemaHolds;
    var n := c.dbs[id].name;
    var ids, left := AffectedIds(r.schemas[n].infos), TablesElsewhere(c.tables, id);
    assert SchemaHolds(r.schemas[n], c.tables)
        && |r.buckets| == BUCKET_COUNT by { BucketTable(r.buckets, c.tables, 0); }
    AffectedIdsIs(r.schemas[n].infos);
    DroppedIds(r.schemas[n], c.tables, ids);
    RemoveAllHolds(r.buckets, c.tables, ids, left);
    forall m | m in r.schemas && m != n ensures SchemaHolds(r.schemas[m], left) {
      OtherSchemaHolds(r.schemas[m], c.tables, left);
    }
  }

  lemma DropDbNamed(r: Rep, c: Catalog, id: nat, j: nat)
    requires Holds(r, c) && id in c.dbs && Named(r, c, j) && c.tables[j].db != id && |r.buckets| == BUCKET_COUNT
    ensures Named(DropDb(r, c.dbs[id].name), Catalog(c.dbs - {id}, TablesElsewhere(c.tables, id)), j)
  {
    hide BucketsHold, SchemaHolds;
  }

  lemma DroppedIds(s: Schema, tables: map<nat, Placed>, ids: seq<nat>)
    requires SchemaHolds(s, tables)
    requires forall id :: id in ids <==> exists t :: t in s.infos && (id == t.id || id in t.parts)
    requires forall j, p | j in tables && p in tables[j].info.parts :: p !in tables
    ensures TablesElsewhere(tables, s.db.id) == map id | id in tables && id !in ids :: tables[id]
  {
    forall id | id in tables ensures id in ids <==> tables[id].db == s.db.id {
      if tables[id].db == s.db.id { assert tables[id].info in s.infos; }
      if id in ids {
        var t :| t in s.infos && (id == t.id || id in t.parts);
        assert t.id in tables;
      }
    }
  }
}
