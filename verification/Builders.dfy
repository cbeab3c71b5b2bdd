/** The schema builder: it changes copies of what a published replicant is made of. */
module Builders {
  import opened Layering
  import opened Catalogs
  import opened Replicants
  import opened SchemaSteps
  import opened DiffLoads

  /** A database with its tables.  Replicants share these, so they must not be changed once published. */
  class SchemaBlocks {
    var db: Db
    var infos: seq<BlockInfo>
    var blocks: map<string, BlockInfo>

    constructor (db: Db, infos: seq<BlockInfo>, blocks: map<string, BlockInfo>)
      ensures Value() == Schema(db, infos, blocks)
    {
      this.db, this.infos, this.blocks := db, infos, blocks;
    }

    ghost function Value(): Schema
      reads this
    {
      Schema(db, infos, blocks)
    }
  }

  /** The tables whose ids fall into one bucket, sorted.  Replicants share these too. */
  class SortedBlocks {
    var tables: seq<BlockInfo>

    constructor (tables: seq<BlockInfo>)
      ensures this.tables == tables
    {
      this.tables := tables;
    }
  }

  /** Binary search by id. */
  method SearchBlock(s: seq<BlockInfo>, id: nat) returns (idx: int)
    requires SortedById(s)
    ensures -1 <= idx < |s| && (idx >= 0 ==> s[idx].id == id) && (idx == -1 <==> TableIn(s, id) == None)
    ensures idx >= 0 ==> TableIn(s, id) == Some(s[idx]) && forall j | 0 <= j < idx :: s[j].id != id
  {
    SortedIsUnique(s);
    TableInIs(s, id);
    var lo, hi := 0, |s|;
    while lo < hi
      invariant 0 <= lo <= hi <= |s|
      invariant forall j | 0 <= j < lo :: s[j].id < id
      invariant forall j | hi <= j < |s| :: s[j].id >= id
    {
      var mid := (lo + hi) / 2;
      if s[mid].id >= id {
        hi := mid;
      } else {
        lo := mid + 1;
      }
    }
    idx := lo;
    if idx == |s| || s[idx].id != id {
      return -1;
    }
    assert s[idx] in s;
  }

  /** Stands for the sorting function of the source's library. */
  method SortBlocks(s: seq<BlockInfo>) returns (r: seq<BlockInfo>)
    requires UniqueIds(s)
    ensures SortedById(r) && forall t :: t in r <==> t in s
  {
    hide SortedById;
    r := [];
    EmptySorted();
    for i := 0 to |s|
      invariant SortedById(r) && forall t :: t in r <==> t in s[..i]
    {
      assert s[..i + 1] == s[..i] + [s[i]];
      forall u | u in r ensures u.id != s[i].id {
        var k :| 0 <= k < i && s[..i][k] == u;
      }
      InsertIs(r, s[i]);
      r := Insert(r, s[i]);
    }
    assert s[..|s|] == s;
  }

  lemma EmptySorted()
    ensures SortedById([])
  {
  }

  class SchemaReplicant {
    var schemaMap: map<string, SchemaBlocks>
    var buckets: seq<SortedBlocks>
    var version: int

    constructor ()
      ensures schemaMap == map[] && buckets == [] && version == 0
    {
      schemaMap, buckets, version := map[], [], 0;
    }

    ghost function Value(): Rep
      reads this, schemaMap.Values, buckets
    {
      Rep(SchemaValues(schemaMap), BucketValues(buckets))
    }

    /** No two names share a database object, and no two places a bucket. */
    ghost predicate Distinct()
      reads this
    {
      DistinctParts(schemaMap, buckets)
    }

    method BlockByID(id: nat, ghost c: Catalog) returns (t: Option<BlockInfo>)
      requires Distinct() && BucketsHold(Value().buckets, c.tables)
      ensures t == if id in c.tables then Some(c.tables[id].info) else None
    {
      BucketTable(Value().buckets, c.tables, id);
      var slice := buckets[BucketIdx(id)];
      var idx := SearchBlock(slice.tables, id);
      if idx == -1 {
        return None;
      }
      return Some(slice.tables[idx]);
    }

    /** Looks through all databases. */
    method SchemaByID(id: nat, ghost c: Catalog) returns (s: SchemaBlocks?)
      requires Distinct() && Holds(Value(), c)
      ensures s != null <==> id in c.dbs
      ensures s != null ==> c.dbs[id].name in schemaMap && s == schemaMap[c.dbs[id].name] && s.db == c.dbs[id]
    {
      assert id in c.dbs ==> c.dbs[id].name in Value().schemas;
      var names := schemaMap.Keys;
      while names != {}
        invariant names <= schemaMap.Keys && forall n | n in schemaMap && n !in names :: schemaMap[n].db.id != id
        decreases names
      {
        NoName(names);
        var n :| n in names;
        assert n in Value().schemas && Value().schemas[n] == schemaMap[n].Value();
        if schemaMap[n].db.id == id {
          return schemaMap[n];
        }
        names := names - {n};
      }
      return null;
    }
  }

  lemma NoName(names: set<string>)
    ensures (forall n :: n !in names) ==> names == {}
  {
    if forall n :: n !in names { assert names <= {}; }
  }

  ghost predicate DistinctParts(m: map<string, SchemaBlocks>, b: seq<SortedBlocks>) {
    && |b| == BUCKET_COUNT && (forall i, j | 0 <= i < j < |b| :: b[i] != b[j])
    && (forall k, n | k in m && n in m && k != n :: m[k] != m[n])
  }

  lemma DistinctLength(m: map<string, SchemaBlocks>, b: seq<SortedBlocks>)
    requires DistinctParts(m, b)
    ensures |b| == BUCKET_COUNT
  {
  }

  lemma DistinctOthers(m: map<string, SchemaBlocks>, b: seq<SortedBlocks>, n: string, s: SchemaBlocks, i: nat)
    requires DistinctParts(m, b) && (if n in m then m[n] == s else s !in m.Values) && i < |b|
    ensures forall k | k in m && k != n :: m[k] != s
    ensures forall j | 0 <= j < |b| && j != i :: b[j] != b[i]
  {
  }

  lemma SchemaValuesAll(m: map<string, SchemaBlocks>)
    ensures SchemaValues(m).Keys == m.Keys && forall n | n in m :: SchemaValues(m)[n] == m[n].Value()
  {
  }

  lemma DistinctMap(m: map<string, SchemaBlocks>, b: seq<SortedBlocks>, n: string, s: SchemaBlocks)
    requires DistinctParts(m, b) && s !in m.Values
    ensures DistinctParts(m[n := s], b)
  {
  }

  lemma DistinctBucket(m: map<string, SchemaBlocks>, b: seq<SortedBlocks>, i: nat, x: SortedBlocks)
    requires DistinctParts(m, b) && x !in b && i < |b|
    ensures DistinctParts(m, b[i := x])
  {
  }

  lemma SchemaValuesAt(m: map<string, SchemaBlocks>, v: map<string, Schema>)
    requires m.Keys == v.Keys && forall n | n in m :: v[n] == m[n].Value()
    ensures SchemaValues(m) == v
  {
  }

  ghost function SchemaValues(m: map<string, SchemaBlocks>): map<string, Schema>
    reads m.Values
  {
    map n | n in m :: m[n].Value()
  }

  lemma SchemaValueAt(m: map<string, SchemaBlocks>, n: string)
    requires n in m
    ensures n in SchemaValues(m) && SchemaValues(m)[n] == m[n].Value()
  {
  }

  lemma SchemaValuesPut(m: map<string, SchemaBlocks>, n: string, s: SchemaBlocks, v: map<string, Schema>)
    requires SchemaValues(m) == v
    ensures SchemaValues(m[n := s]) == v[n := s.Value()]
  {
  }

  ghost function BucketValues(buckets: seq<SortedBlocks>): (r: seq<seq<BlockInfo>>)
    reads buckets
    ensures |r| == |buckets| && forall i | 0 <= i < |buckets| :: r[i] == buckets[i].tables
  {
    if buckets == [] then [] else BucketValues(buckets[..|buckets| - 1]) + [buckets[|buckets| - 1].tables]
  }

  lemma BucketValuesAt(buckets: seq<SortedBlocks>, b: seq<seq<BlockInfo>>)
    requires |b| == |buckets| && forall i | 0 <= i < |buckets| :: b[i] == buckets[i].tables
    ensures BucketValues(buckets) == b
  {
  }

  lemma NotThere(b: seq<BlockInfo>, id: nat)
    requires SortedById(b) && TableIn(b, id).None?
    ensures Remove(b, id) == b
  {
    SortedIsUnique(b);
    TableInIs(b, id);
    assert forall i | 0 <= i < |b| :: b[i] in b;
    RemoveNone(b, id);
  }

  /** Takes a table out of a database's list. */
  method RemoveInfo(s: SchemaBlocks, id: nat)
    modifies s`infos
    ensures s.infos == Remove(old(s.infos), id)
  {
    var infos := s.infos;
    for i := 0 to |infos|
      invariant s.infos == infos && forall j | 0 <= j < i :: infos[j].id != id
    {
      if infos[i].id == id {
        RemoveAt(infos, i);
        s.infos := infos[..i] + infos[i + 1..];
        return;
      }
    }
    RemoveNone(infos, id);
  }

  /** The values after a table was dropped from its bucket and its database. */
  lemma Dropped(m: map<string, SchemaBlocks>, buckets: seq<SortedBlocks>, v: map<string, Schema>,
                b: seq<seq<BlockInfo>>,
                s: SchemaBlocks, n: string, id: nat)
    requires DistinctParts(m, buckets) && m.Keys == v.Keys && |b| == BUCKET_COUNT && TableIn(b[BucketIdx(id)], id).Some?
    requires if n in m then m[n] == s else s !in m.Values
    requires n in m ==> s.Value() == SchemaWithout(v[n], TableIn(b[BucketIdx(id)], id).value)
    requires forall k | k in m && k != n :: m[k].Value() == v[k]
    requires buckets[BucketIdx(id)].tables == Remove(b[BucketIdx(id)], id)
    requires forall i | 0 <= i < |buckets| && i != BucketIdx(id) :: buckets[i].tables == b[i]
    ensures Rep(SchemaValues(m), BucketValues(buckets)) == DropTable(Rep(v, b), n, id)
  {
    var r := DropTable(Rep(v, b), n, id);
    SchemaValuesAt(m, r.schemas);
    BucketValuesAt(buckets, r.buckets);
  }

  lemma BucketValuesLength(b: seq<SortedBlocks>)
    ensures |BucketValues(b)| == |b| && forall i | 0 <= i < |b| :: BucketValues(b)[i] == b[i].tables
  {
  }

  lemma AppendUnique(s: seq<BlockInfo>, t: BlockInfo)
    requires UniqueIds(s) && forall u | u in s :: u.id != t.id
    ensures UniqueIds(s + [t])
  {
    assert forall i | 0 <= i < |s| :: (s + [t])[i] == s[i] && s[i] in s;
  }

  lemma FoundAgain(s: seq<BlockInfo>, t: BlockInfo)
    requires SortedById(s) && t in s
    ensures TableIn(s, t.id) == Some(t)
  {
    SortedIsUnique(s);
    TableInIs(s, t.id);
  }

  /** The values after a table was added to its bucket and its database. */
  lemma Created(m: map<string, SchemaBlocks>, buckets: seq<SortedBlocks>, v: map<string, Schema>,
                b: seq<seq<BlockInfo>>,
                s: SchemaBlocks, n: string, t: BlockInfo)
    requires DistinctParts(m, buckets) && m.Keys == v.Keys && |b| == BUCKET_COUNT && n in m && m[n] == s
    requires s.Value() == SchemaWith(v[n], t)
    requires forall k | k in m && k != n :: m[k].Value() == v[k]
    requires buckets[BucketIdx(t.id)].tables == Insert(b[BucketIdx(t.id)], t)
    requires forall i | 0 <= i < |buckets| && i != BucketIdx(t.id) :: buckets[i].tables == b[i]
    ensures Rep(SchemaValues(m), BucketValues(buckets)) == CreateTable(Rep(v, b), n, t)
  {
    var r := CreateTable(Rep(v, b), n, t);
    SchemaValuesAt(m, r.schemas);
    BucketValuesAt(buckets, r.buckets);
  }

  lemma NoIndex(idxs: set<nat>)
    ensures (forall b: nat :: b !in idxs) ==> idxs == {}
  {
    if forall b: nat :: b !in idxs { assert idxs <= {}; }
  }

  lemma HeldSchema(r: Rep, m: Catalog, id: nat)
    requires Holds(r, m) && id in m.dbs
    ensures m.dbs[id].id == id && m.dbs[id].name in r.schemas && r.schemas[m.dbs[id].name].db == m.dbs[id]
    ensures SchemaHolds(r.schemas[m.dbs[id].name], m.tables) && BucketsHold(r.buckets, m.tables)
  {
  }

  lemma DistinctWithout(m: map<string, SchemaBlocks>, b: seq<SortedBlocks>, n: string)
    requires DistinctParts(m, b)
    ensures DistinctParts(m - {n}, b) && |b| == BUCKET_COUNT
  {
  }

  lemma SchemaValuesWithout(m: map<string, SchemaBlocks>, n: string)
    ensures SchemaValues(m - {n}) == SchemaValues(m) - {n}
  {
  }

  lemma AffectedNone()
    ensures AffectedIds([]) == []
  {
  }

  lemma AffectedMore(infos: seq<BlockInfo>, i: nat)
    requires i < |infos|
    ensures AffectedIds(infos[..i + 1]) == AffectedIds(infos[..i]) + [infos[i].id] + infos[i].parts
    ensures forall t | t in infos[..i + 1] :: t in infos[..i] || t == infos[i]
  {
    assert infos[..i + 1] == infos[..i] + [infos[i]];
  }

  lemma InBucket(b: seq<seq<BlockInfo>>, m: Catalog, ids: seq<nat>, id: nat)
    requires BucketsHold(b, m.tables)
    ensures |b| == BUCKET_COUNT && SortedById(RemoveAll(b, ids)[BucketIdx(id)])
    ensures TableIn(RemoveAll(b, ids)[BucketIdx(id)], id).Some? ==> id in m.tables
  {
    hide RemoveAll;
    BucketTable(b, m.tables, id);
    var left := map j | j in m.tables && j !in ids :: m.tables[j];
    RemoveAllHolds(b, m.tables, ids, left);
    BucketTable(RemoveAll(b, ids), left, id);
  }

  /** An id that is a table's is not a partition's. */
  lemma TableNotPart(m: Catalog, infos: seq<BlockInfo>, id: nat)
    requires PartsApart(m, m) && id in m.tables && id in AffectedIds(infos)
    requires forall t | t in infos :: t.id in m.tables && m.tables[t.id].info == t
    ensures exists t :: t in infos && t.id == id
  {
    AffectedIdsIs(infos);
  }

  lemma DropElsewhere(r: Rep, n: string, id: nat)
    requires |r.buckets| == BUCKET_COUNT && n !in r.schemas
    ensures DropTable(r, n, id) == Rep(r.schemas, RemoveFrom(r.buckets, id))
  {
  }

  lemma DropDbIs(r: Rep, n: string)
    requires n in r.schemas && |r.buckets| == BUCKET_COUNT
    ensures DropDb(r, n) == Rep(r.schemas - {n}, RemoveAll(r.buckets, AffectedIds(r.schemas[n].infos)))
  {
  }

  lemma HeldInfos(s: Schema, tables: map<nat, Placed>)
    requires SchemaHolds(s, tables)
    ensures forall t | t in s.infos :: t.id in tables && tables[t.id].info == t
  {
  }

  /** The result of a diff that concerns a table, and what it reports. */
  lemma BlockResult(r: Rep, m: Catalog, f: Catalog, d: Diff)
    requires Holds(r, m) && !IsSchemaAction(d.tp) && d.schemaID in m.dbs && |r.buckets| == BUCKET_COUNT
    requires OldBlock(d) != 0 ==> OldSchema(d) in m.dbs && OldBlock(d) in m.tables
    ensures var o, n := OldBlock(d), NewBlock(d);
            && Halfway(r, m, d) == (if o != 0 then DropTable(r, m.dbs[OldSchema(d)].name, o) else r)
            && WithoutOld(m.tables, o) == (if o != 0 then m.tables - {o} else m.tables)
            && |Halfway(r, m, d).buckets| == BUCKET_COUNT
            && (n == 0 ==> ApplyBlock(r, m, f, d) == Some(Halfway(r, m, d)))
            && (n != 0 && !(n in f.tables && f.tables[n].db == d.schemaID) ==> ApplyBlock(r, m, f, d).None?)
            && (n != 0 && n in f.tables && f.tables[n].db == d.schemaID ==>
                  m.dbs[d.schemaID].name in Halfway(r, m, d).schemas
                  && ApplyBlock(r, m, f, d)
                    == Some(CreateTable(Halfway(r, m, d), m.dbs[d.schemaID].name, f.tables[n].info)))
            && AffectedBy(r, m, f, d) == (if o != 0 && o != n then [o] + m.tables[o].info.parts else [])
                                         + (if n != 0 && n in f.tables then [n] + f.tables[n].info.parts else [])
  {
    hide BucketsHold, SchemaHolds;
    HeldSchema(r, m, d.schemaID);
  }

  /** The ids of the tables of a database and their partitions, and the buckets of the tables. */
  method CollectIds(infos: seq<BlockInfo>) returns (blockIDs: seq<nat>, bucketIdxMap: set<nat>)
    ensures blockIDs == AffectedIds(infos)
    ensures (forall t | t in infos :: BucketIdx(t.id) in bucketIdxMap)
        && forall b | b in bucketIdxMap :: b < BUCKET_COUNT
  {
    hide AffectedIds;
    bucketIdxMap := {};
    blockIDs := [];
    AffectedNone();
    for i := 0 to |infos|
      invariant blockIDs == AffectedIds(infos[..i]) && forall t | t in infos[..i] :: BucketIdx(t.id) in bucketIdxMap
      invariant forall b | b in bucketIdxMap :: b < BUCKET_COUNT
    {
      AffectedMore(infos, i);
      bucketIdxMap := bucketIdxMap + {BucketIdx(infos[i].id)};
      blockIDs := blockIDs + [infos[i].id] + infos[i].parts;
    }
    assert infos[..|infos|] == infos;
  }

  lemma MixedParts'(m: Catalog, w: Catalog, d: Diff, w': Catalog, f: Catalog)
    requires Situation(w, d, w', f) && Mixed(m, w, f)
    ensures PartsApart(m, m)
  {
    MixedParts(m, w, f);
  }

  /** The database that a diff modifies is known by its latest name. */
  lemma KnownName(r: Rep, m: Catalog, w: Catalog, d: Diff, w': Catalog, f: Catalog)
    requires Situation(w, d, w', f) && Mixed(m, w, f) && Holds(r, m) && d.tp == ModifySchemaCharset
        && d.schemaID in f.dbs
    ensures f.dbs[d.schemaID].name in r.schemas
  {
    hide PartsApart, BucketsHold, SchemaHolds;
    MixedDb(m, w, f, d.schemaID);
  }

  lemma NoneBefore(s: seq<nat>)
    ensures [] + s == s
  {
  }

  lemma OtherName(r: Rep, m: Catalog, i: nat, j: nat)
    requires Holds(r, m) && i in m.dbs && j in m.dbs && i != j
    ensures m.dbs[i].name != m.dbs[j].name
  {
    hide BucketsHold, SchemaHolds;
  }

  /** A bucket is sorted, and has a table exactly if it is held. */
  lemma BucketFor(r: Rep, m: Catalog, id: nat)
    requires Holds(r, m)
    ensures |r.buckets| == BUCKET_COUNT && SortedById(r.buckets[BucketIdx(id)])
    ensures TableIn(r.buckets[BucketIdx(id)], id) == if id in m.tables then Some(m.tables[id].info) else None
    ensures id in m.tables ==> m.tables[id].info.id == id
    ensures id !in m.tables ==> forall t | t in r.buckets[BucketIdx(id)] :: t.id != id
  {
    hide SortedById, SchemaHolds;
    BucketTable(r.buckets, m.tables, id);
  }

  lemma BlockSituation(r: Rep, m: Catalog, w: Catalog, d: Diff, w': Catalog, f: Catalog)
    requires Situation(w, d, w', f) && Mixed(m, w, f) && Holds(r, m) && !IsSchemaAction(d.tp)
    ensures WellFormed(f) && d.schemaID in m.dbs && m.dbs[d.schemaID].id == d.schemaID && |r.buckets| == BUCKET_COUNT
    ensures OldBlock(d) != 0 ==>
        OldBlock(d) in m.tables && m.tables[OldBlock(d)].db == OldSchema(d) && OldSchema(d) in m.dbs
    ensures Holds(Halfway(r, m, d), m.(tables := WithoutOld(m.tables, OldBlock(d))))
    ensures NewBlock(d) != 0 ==> NewBlock(d) !in WithoutOld(m.tables, OldBlock(d))
  {
    hide Holds, Halfway, Compatible;
    HalfwayHolds(r, m, w, d, w', f);
    HeldSchema(r, m, d.schemaID);
    HasBuckets(r, m);
  }

  class Builder {
    const rep: SchemaReplicant

    /** The objects that the builder has made itself, and that nobody else has seen. */
    ghost var own: set<object>

    ghost predicate Distinct()
      reads this, rep
    {
      rep.Distinct() && rep !in own && this !in own
    }

    constructor ()
      ensures fresh(rep) && Distinct() && fresh(own)
      ensures rep.schemaMap == map[] && (forall b | b in rep.buckets :: b in own && b.tables == [])
    {
      rep := new SchemaReplicant();
      own := {};
      new;
      var buckets: seq<SortedBlocks> := [];
      for i := 0 to BUCKET_COUNT
        invariant |buckets| == i && fresh(rep) && rep.schemaMap == map[]
        invariant forall j, k | 0 <= j < k < i :: buckets[j] != buckets[k]
        invariant forall b | b in buckets :: fresh(b) && b.tables == []
      {
        var b := new SortedBlocks([]);
        buckets := buckets + [b];
      }
      rep.buckets := buckets;
      own := set b | b in buckets;
    }

    /** Starts from a published replicant: the map of databases and the list of buckets are copied, what they
        contain is shared. */
    method InitWithOldSchemaReplicant(old_: SchemaReplicant)
      requires old_ != rep && old_.Distinct() && Distinct()
      modifies this, rep
      ensures Distinct() && own == {} && rep.Value() == old_.Value() && rep.version == old_.version
    {
      hide SchemaReplicant.Distinct;
      rep.version := old_.version;
      var names, schemaMap := old_.schemaMap.Keys, map[];
      while names != {}
        invariant names <= old_.schemaMap.Keys
        invariant schemaMap == map n | n in old_.schemaMap && n !in names :: old_.schemaMap[n]
        invariant old_.Distinct() && rep.version == old_.version
        decreases names
      {
        NoName(names);
        var n :| n in names;
        schemaMap := schemaMap[n := old_.schemaMap[n]];
        names := names - {n};
      }
      rep.schemaMap := schemaMap;
      rep.buckets := old_.buckets;
      own := {};
      SameParts(rep, old_);
    }

    lemma SameParts(r: SchemaReplicant, o: SchemaReplicant)
      requires o.Distinct() && r.schemaMap == o.schemaMap && r.buckets == o.buckets
      ensures r.Distinct() && r.Value() == o.Value()
    {
    }

    /** Replaces a database by a copy, which may then be changed. */
    method CopySchemaBlocks(name: string) returns (s: SchemaBlocks)
      requires Distinct() && name in rep.schemaMap
      modifies `own, rep`schemaMap
      ensures Distinct() && fresh(s) && own == old(own) + {s}
      ensures rep.schemaMap == old(rep.schemaMap)[name := s] && s.Value() == old(rep.schemaMap[name].Value())
      ensures rep.Value() == old(rep.Value())
    {
      hide DistinctParts, SchemaValues;
      var o := rep.schemaMap[name];
      ghost var m, v := rep.schemaMap, SchemaValues(rep.schemaMap);
      SchemaValueAt(m, name);
      s := new SchemaBlocks(o.db, o.infos, o.blocks);
      rep.schemaMap := rep.schemaMap[name := s];
      own := own + {s};
      DistinctMap(m, rep.buckets, name, s);
      SchemaValuesPut(m, name, s, v);
    }

    method CopySortedBlocksBucket(i: nat)
      requires Distinct() && i < BUCKET_COUNT
      modifies `own, rep`buckets
      ensures Distinct() && rep.buckets[i] in own && fresh(rep.buckets[i]) && own == old(own) + {rep.buckets[i]}
      ensures rep.buckets == old(rep.buckets)[i := rep.buckets[i]]
      ensures rep.Value() == old(rep.Value())
    {
      hide DistinctParts, SchemaValues;
      ghost var b := rep.Value().buckets;
      DistinctLength(rep.schemaMap, rep.buckets);
      var newBlocks := new SortedBlocks(rep.buckets[i].tables);
      DistinctBucket(rep.schemaMap, rep.buckets, i, newBlocks);
      rep.buckets := rep.buckets[i := newBlocks];
      own := own + {newBlocks};
      BucketValuesAt(rep.buckets, b);
    }

    /** Takes a table out of its bucket, which must be the builder's own, and out of its database.  The database may
        also be one that is no longer in the map. */
    method DropBlock(s: SchemaBlocks, id: nat, affected0: seq<nat>) returns (affected: seq<nat>)
      requires Distinct() && |rep.buckets| == BUCKET_COUNT && SortedById(rep.buckets[BucketIdx(id)].tables)
      requires TableIn(rep.buckets[BucketIdx(id)].tables, id).Some? ==> rep.buckets[BucketIdx(id)] in own
      requires if s.db.name in rep.schemaMap then rep.schemaMap[s.db.name] == s else s !in rep.schemaMap.Values
      modifies s, if TableIn(rep.buckets[BucketIdx(id)].tables, id).Some? then {rep.buckets[BucketIdx(id)]} else {}
      ensures rep.Value() == DropTable(old(rep.Value()), old(s.db.name), id) && s.db == old(s.db)
      ensures affected == affected0 + old(
                var t := TableIn(rep.buckets[BucketIdx(id)].tables, id);
                if t.Some? && s.db.name in rep.schemaMap then [t.value.id] + t.value.parts else [])
    {
      hide DistinctParts, SchemaValues, SortedById;
      var sortedTbls := rep.buckets[BucketIdx(id)];
      var idx := SearchBlock(sortedTbls.tables, id);
      if idx == -1 {
        NotThere(sortedTbls.tables, id);
        return affected0;
      }
      affected := DropFound(s, sortedTbls, idx, affected0);
    }

    /** The case of a table that is there. */
    method DropFound(s: SchemaBlocks, sortedTbls: SortedBlocks, idx: nat, affected0: seq<nat>)
      returns (affected: seq<nat>)
      requires Distinct() && |rep.buckets| == BUCKET_COUNT && idx < |sortedTbls.tables|
      requires sortedTbls == rep.buckets[BucketIdx(sortedTbls.tables[idx].id)] && sortedTbls in own
      requires TableIn(sortedTbls.tables, sortedTbls.tables[idx].id) == Some(sortedTbls.tables[idx])
      requires forall j | 0 <= j < idx :: sortedTbls.tables[j].id != sortedTbls.tables[idx].id
      requires if s.db.name in rep.schemaMap then rep.schemaMap[s.db.name] == s else s !in rep.schemaMap.Values
      modifies s, sortedTbls
      ensures rep.Value() == old(DropTable(rep.Value(), s.db.name, sortedTbls.tables[idx].id)) && s.db == old(s.db)
      ensures affected == affected0 + old(
                if s.db.name in rep.schemaMap then [sortedTbls.tables[idx].id] + sortedTbls.tables[idx].parts else [])
    {
      hide DistinctParts, SchemaValues, SortedById, DropTable, TableIn, Remove, BucketValues;
      affected := affected0;
      var tblInfo := sortedTbls.tables[idx];
      ghost var m, v, b, n := rep.schemaMap, SchemaValues(rep.schemaMap), BucketValues(rep.buckets), s.db.name;
      SchemaValuesAll(m);
      DistinctOthers(m, rep.buckets, n, s, BucketIdx(tblInfo.id));
      RemoveAt(sortedTbls.tables, idx);
      if s.db.name in rep.schemaMap {
        var blockNames := rep.schemaMap[s.db.name];
        blockNames.blocks := blockNames.blocks - {tblInfo.name};
        affected := affected + [tblInfo.id] + tblInfo.parts;
      }
      sortedTbls.tables := sortedTbls.tables[..idx] + sortedTbls.tables[idx + 1..];
      RemoveInfo(s, tblInfo.id);
      Dropped(m, rep.buckets, v, b, s, n, tblInfo.id);
    }

    /** Appends a table to its bucket, sorts the bucket and searches for the table. */
    method AddSorted(bucket: SortedBlocks, t: BlockInfo) returns (idx: int)
      requires SortedById(bucket.tables) && forall u | u in bucket.tables :: u.id != t.id
      modifies bucket
      ensures bucket.tables == Insert(old(bucket.tables), t) && 0 <= idx < |bucket.tables| && bucket.tables[idx] == t
    {
      hide SortedById, TableIn;
      ghost var before := bucket.tables;
      SortedIsUnique(before);
      AppendUnique(before, t);
      InsertIs(before, t);
      bucket.tables := SortBlocks(bucket.tables + [t]);
      SortedUnique(bucket.tables, Insert(before, t));
      idx := SearchBlock(bucket.tables, t.id);
      FoundAgain(bucket.tables, t);
    }

    /** Reads a table from the latest catalog and adds it to its bucket and its database.  Fails if it is not there
        any more. */
    method CreateBlock(f: Catalog, s: SchemaBlocks, id: nat, affected0: seq<nat>) returns (ok: bool, affected: seq<nat>)
      requires Distinct() && |rep.buckets| == BUCKET_COUNT && WellFormed(f)
      requires SortedById(rep.buckets[BucketIdx(id)].tables)
          && forall t | t in rep.buckets[BucketIdx(id)].tables :: t.id != id
      requires rep.buckets[BucketIdx(id)] in own && s.db.name in rep.schemaMap && rep.schemaMap[s.db.name] == s
      modifies s, rep.buckets[BucketIdx(id)]
      ensures s.db == old(s.db) && (ok <==> id in f.tables && f.tables[id].db == s.db.id)
      ensures if ok then old(rep.Value()).schemas.Keys == rep.schemaMap.Keys
          && rep.Value() == CreateTable(old(rep.Value()), s.db.name, f.tables[id].info)
              else rep.Value() == old(rep.Value())
      ensures affected == affected0 + if ok then [id] + f.tables[id].info.parts else []
    {
      hide DistinctParts, SchemaValues, SortedById, CreateTable, TableIn, BucketValues;
      affected := affected0;
      if !(id in f.tables && f.tables[id].db == s.db.id) {
        return false, affected;
      }
      var tblInfo := f.tables[id].info;
      affected := affected + [tblInfo.id] + tblInfo.parts;
      ghost var m, v, b, n := rep.schemaMap, SchemaValues(rep.schemaMap), BucketValues(rep.buckets), s.db.name;
      BucketValuesLength(rep.buckets);
      SchemaValuesAll(m);
      DistinctOthers(m, rep.buckets, n, s, BucketIdx(id));
      var blockNames := rep.schemaMap[s.db.name];
      blockNames.blocks := blockNames.blocks[tblInfo.name := tblInfo];
      var idx := AddSorted(rep.buckets[BucketIdx(id)], tblInfo);
      if idx != -1 {
        s.infos := s.infos + [rep.buckets[BucketIdx(id)].tables[idx]];
      }
      Created(m, rep.buckets, v, b, s, n, tblInfo);
      ok := true;
    }

    /** Copies the buckets of the table that goes and of the one that comes. */
    method CopySortedBlocks(oldBlockID: nat, newBlockID: nat)
      requires Distinct() && |rep.buckets| == BUCKET_COUNT
      modifies `own, rep`buckets
      ensures Distinct() && |rep.buckets| == BUCKET_COUNT && fresh(own - old(own)) && old(own) <= own
      ensures oldBlockID != 0 ==> rep.buckets[BucketIdx(oldBlockID)] in own
      ensures newBlockID != 0 ==> rep.buckets[BucketIdx(newBlockID)] in own
      ensures rep.Value() == old(rep.Value())
    {
      hide DistinctParts, SchemaValues, BucketValues;
      if oldBlockID != 0 {
        CopySortedBlocksBucket(BucketIdx(oldBlockID));
      }
      if newBlockID != 0 && newBlockID != oldBlockID {
        CopySortedBlocksBucket(BucketIdx(newBlockID));
      }
    }

    /** Takes a database away, with all its tables, and says which those were. */
    method DropSchema(id: nat, ghost m: Catalog) returns (blockIDs: seq<nat>)
      requires Distinct() && Holds(rep.Value(), m) && PartsApart(m, m) && |rep.Value().buckets| == BUCKET_COUNT
      modifies this`own, rep, own
      ensures Distinct() && fresh(own - old(own))
      ensures id in m.dbs ==>
          m.dbs[id].name in old(rep.Value()).schemas && rep.Value() == DropDb(old(rep.Value()), m.dbs[id].name)
      ensures id !in m.dbs ==> rep.Value() == old(rep.Value())
      ensures blockIDs == if id in m.dbs then AffectedIds(old(rep.Value()).schemas[m.dbs[id].name].infos) else []
      ensures rep.version == old(rep.version)
    {
      hide DistinctParts, SchemaValues, BucketValues, Holds, DropDb, AffectedIds;
      var di := rep.SchemaByID(id, m);
      if di == null {
        return [];
      }
      HeldSchema(rep.Value(), m, id);
      SchemaValueAt(rep.schemaMap, di.db.name);
      blockIDs := DropFoundSchema(di, m);
    }

    /** The case of a database that is there. */
    method DropFoundSchema(di: SchemaBlocks, ghost m: Catalog) returns (blockIDs: seq<nat>)
      requires Distinct() && di.db.name in rep.schemaMap && rep.schemaMap[di.db.name] == di
      requires SchemaHolds(di.Value(), m.tables) && BucketsHold(rep.Value().buckets, m.tables) && PartsApart(m, m)
      modifies this`own, rep, own
      ensures Distinct() && fresh(own - old(own)) && |old(rep.Value()).buckets| == BUCKET_COUNT
      ensures old(di.db.name) in old(rep.Value()).schemas && rep.Value() == DropDb(old(rep.Value()), old(di.db.name))
      ensures blockIDs == AffectedIds(old(rep.Value()).schemas[old(di.db.name)].infos)
      ensures rep.version == old(rep.version)
    {
      hide DistinctParts, SchemaValues, BucketValues, BucketsHold, Holds, DropTable, RemoveAll, AffectedIds, DropDb,
           SchemaHolds;
      ghost var r0, s0 := rep.Value(), di.Value();
      SchemaValueAt(rep.schemaMap, di.db.name);
      ForgetSchema(di.db.name);
      DropDbIs(r0, di.db.name);
      var bucketIdxMap;
      blockIDs, bucketIdxMap := CollectIds(di.infos);
      CopyBuckets(bucketIdxMap);
      HeldInfos(s0, m.tables);
      DropCopied(di, blockIDs, m, r0.buckets, s0.infos);
    }

    method ForgetSchema(n: string)
      requires Distinct()
      modifies rep`schemaMap
      ensures Distinct() && |rep.buckets| == BUCKET_COUNT && n !in rep.schemaMap
      ensures rep.Value() == Rep(old(rep.Value()).schemas - {n}, old(rep.Value()).buckets)
    {
      hide DistinctParts, SchemaValues, BucketValues;
      DistinctWithout(rep.schemaMap, rep.buckets, n);
      SchemaValuesWithout(rep.schemaMap, n);
      rep.schemaMap := rep.schemaMap - {n};
    }

    /** Copies a set of buckets. */
    method CopyBuckets(idxs: set<nat>)
      requires Distinct() && |rep.buckets| == BUCKET_COUNT && forall b | b in idxs :: b < BUCKET_COUNT
      modifies `own, rep`buckets
      ensures Distinct() && |rep.buckets| == BUCKET_COUNT && fresh(own - old(own)) && old(own) <= own
      ensures forall b | b in idxs :: rep.buckets[b] in own
      ensures rep.Value() == old(rep.Value())
    {
      hide DistinctParts, SchemaValues, BucketValues;
      var left := idxs;
      while left != {}
        invariant left <= idxs && Distinct() && |rep.buckets| == BUCKET_COUNT && fresh(own - old(own))
            && old(own) <= own
        invariant forall b | b in idxs && b !in left :: rep.buckets[b] in own
        invariant rep.Value() == old(rep.Value())
        decreases left
      {
        NoIndex(left);
        var b :| b in left;
        CopySortedBlocksBucket(b);
        left := left - {b};
      }
    }

    /** Drops the tables in a copy of the database. */
    method DropCopied(di: SchemaBlocks, blockIDs: seq<nat>, ghost m: Catalog, ghost b0: seq<seq<BlockInfo>>,
                      ghost infos: seq<BlockInfo>)
      requires Distinct() && |rep.buckets| == BUCKET_COUNT && rep.Value().buckets == b0 && BucketsHold(b0, m.tables)
      requires PartsApart(m, m) && di.db.name !in rep.schemaMap && blockIDs == AffectedIds(infos)
      requires forall t | t in infos ::
          t.id in m.tables && m.tables[t.id].info == t && rep.buckets[BucketIdx(t.id)] in own
      modifies `own, own
      ensures Distinct() && fresh(own - old(own)) && |b0| == BUCKET_COUNT
      ensures rep.Value() == Rep(old(rep.Value()).schemas, RemoveAll(b0, blockIDs))
    {
      hide DistinctParts, SchemaValues, BucketValues, BucketsHold, PartsApart, AffectedIds, RemoveAll;
      var clone := new SchemaBlocks(di.db, di.infos, di.blocks);
      own := own + {clone};
      DropAll(clone, blockIDs, m, b0, infos);
    }

    /** Takes tables out of their buckets.  The database is a copy of one that is already gone. */
    method DropAll(clone: SchemaBlocks, blockIDs: seq<nat>, ghost m: Catalog, ghost b0: seq<seq<BlockInfo>>,
                   ghost infos: seq<BlockInfo>)
      requires Distinct() && |rep.buckets| == BUCKET_COUNT && rep.Value().buckets == b0 && BucketsHold(b0, m.tables)
          && PartsApart(m, m)
      requires clone.db.name !in rep.schemaMap && clone !in rep.schemaMap.Values && blockIDs == AffectedIds(infos)
      requires forall t | t in infos ::
          t.id in m.tables && m.tables[t.id].info == t && rep.buckets[BucketIdx(t.id)] in own
      modifies clone, own
      ensures |b0| == BUCKET_COUNT && rep.Value() == Rep(old(rep.Value()).schemas, RemoveAll(b0, blockIDs))
    {
      hide DistinctParts, SchemaValues, BucketValues, BucketsHold, PartsApart, TableIn, AffectedIds, SortedById,
           RemoveFrom, DropTable;
      AffectedIdsIs(infos);
      for k := 0 to |blockIDs|
        invariant rep.Value() == Rep(old(rep.Value()).schemas, RemoveAll(b0, blockIDs[..k]))
        invariant clone.db == old(clone.db) && |b0| == BUCKET_COUNT
      {
        ghost var id, cur := blockIDs[k], RemoveAll(b0, blockIDs[..k]);
        assert blockIDs[..k + 1] == blockIDs[..k] + [id];
        BucketValuesLength(rep.buckets);
        InBucket(b0, m, blockIDs[..k], id);
        if TableIn(cur[BucketIdx(id)], id).Some? {
          TableNotPart(m, infos, id);
        }
        SchemaValuesAll(rep.schemaMap);
        DropElsewhere(rep.Value(), clone.db.name, id);
        var _ := DropBlock(clone, blockIDs[k], []);
      }
      assert blockIDs[..|blockIDs|] == blockIDs;
    }

    /** Applies a diff, reading from the latest catalog `f`.  `m` is what the replicant holds, and `w` and `w'` are the
        catalogs before and after the diff.  The result lists the tables concerned; there is none if the diff cannot
        be applied, and then the replicant is not used any more. */
    method ApplyDiff(f: Catalog, d: Diff, ghost m: Catalog, ghost w: Catalog, ghost w': Catalog)
      returns (r: Option<seq<nat>>)
      requires Distinct() && Holds(rep.Value(), m) && Situation(w, d, w', f) && Mixed(m, w, f)
      modifies this`own, rep, own
      ensures Distinct() && fresh(own - old(own))
      ensures r.Some? <==> ApplyRep(old(rep.Value()), m, f, d).Some?
      ensures r.Some? ==> ApplyRep(old(rep.Value()), m, f, d) == Some(rep.Value()) && rep.version == d.version
      ensures r.Some? ==> r.value == AffectedBy(old(rep.Value()), m, f, d)
    {
      hide DistinctParts, SchemaValues, BucketValues, Holds, DropDb, Situation, Mixed, ApplyBlock, ModifyDb,
           AffectedIds;
      rep.version := d.version;
      HasBuckets(rep.Value(), m);
      if d.tp.CreateSchema? {
        if d.schemaID !in f.dbs {
          return None;
        }
        InstallSchema(f.dbs[d.schemaID]);
        return Some([]);
      } else if d.tp.DropSchema? {
        MixedParts'(m, w, d, w', f);
        var ids := DropSchema(d.schemaID, m);
        return Some(ids);
      } else if d.tp.ModifySchemaCharset? {
        if d.schemaID !in f.dbs {
          return None;
        }
        var di := f.dbs[d.schemaID];
        KnownName(rep.Value(), m, w, d, w', f);
        SchemaValuesAll(rep.schemaMap);
        SetCharset(di.name, di.charset);
        return Some([]);
      }
      r := ApplyBlockDiff(f, d, m, w, w');
    }

    method InstallSchema(db: Db)
      requires Distinct()
      modifies `own, rep`schemaMap
      ensures Distinct() && fresh(own - old(own)) && rep.Value() == CreateDb(old(rep.Value()), db)
    {
      hide DistinctParts, SchemaValues, BucketValues;
      var s := new SchemaBlocks(db, [], map[]);
      DistinctMap(rep.schemaMap, rep.buckets, db.name, s);
      SchemaValuesPut(rep.schemaMap, db.name, s, SchemaValues(rep.schemaMap));
      rep.schemaMap := rep.schemaMap[db.name := s];
      own := own + {s};
    }

    method SetCharset(n: string, charset: string)
      requires Distinct() && n in rep.schemaMap
      modifies `own, rep`schemaMap
      ensures n in old(rep.Value()).schemas
      ensures Distinct() && fresh(own - old(own)) && rep.Value() == ModifyDb(old(rep.Value()), n, charset)
    {
      hide DistinctParts, SchemaValues, BucketValues;
      SchemaValuesAll(rep.schemaMap);
      ghost var m := rep.schemaMap;
      var s := CopySchemaBlocks(n);
      s.db := s.db.(charset := charset);
      SchemaValuesPut(m, n, s, SchemaValues(m));
      assert rep.schemaMap == m[n := s];
    }

    /** The part of applying a diff that concerns a table. */
    method ApplyBlockDiff(f: Catalog, d: Diff, ghost m: Catalog, ghost w: Catalog, ghost w': Catalog)
      returns (r: Option<seq<nat>>)
      requires Distinct() && Holds(rep.Value(), m) && Situation(w, d, w', f) && Mixed(m, w, f) && !IsSchemaAction(d.tp)
      modifies this`own, rep, own
      ensures Distinct() && fresh(own - old(own))
      ensures r.Some? <==> ApplyBlock(old(rep.Value()), m, f, d).Some?
      ensures r.Some? ==> ApplyBlock(old(rep.Value()), m, f, d) == Some(rep.Value()) && rep.version == old(rep.version)
      ensures r.Some? ==> r.value == AffectedBy(old(rep.Value()), m, f, d)
    {
      hide DistinctParts, SchemaValues, BucketValues, Holds, Situation, Mixed, DropTable, CreateTable, WellFormed,
           SortedById, TableIn;
      hide AffectedBy, ApplyBlock, OldBlock, NewBlock, OldSchema, Halfway, WithoutOld;
      ghost var r0 := rep.Value();
      BlockSituation(r0, m, w, d, w', f);
      BlockResult(r0, m, f, d);
      var roDBInfo := rep.SchemaByID(d.schemaID, m);
      if roDBInfo == null {
        return None;
      }
      var newBlockID := NewBlock(d);
      var dbInfo, tblIDs := CopyAndDrop(d, roDBInfo.db.name, m);
      if newBlockID != 0 {
        BucketFor(rep.Value(), m.(tables := WithoutOld(m.tables, OldBlock(d))), newBlockID);
        BucketValuesLength(rep.buckets);
        var ok;
        ok, tblIDs := CreateBlock(f, dbInfo, newBlockID, tblIDs);
        if !ok {
          return None;
        }
      }
      r := Some(tblIDs);
    }

    /** Copies what a diff changes: the database and the buckets of both tables. */
    method CopyForDiff(name: string, oldBlockID: nat, newBlockID: nat) returns (dbInfo: SchemaBlocks)
      requires Distinct() && name in rep.schemaMap && |rep.buckets| == BUCKET_COUNT
      modifies `own, rep`schemaMap, rep`buckets
      ensures Distinct() && |rep.buckets| == BUCKET_COUNT && fresh(own - old(own)) && rep.Value() == old(rep.Value())
      ensures dbInfo in own && dbInfo.Value() == old(rep.schemaMap[name].Value())
      ensures name in rep.schemaMap && rep.schemaMap[name] == dbInfo
      ensures oldBlockID != 0 ==> rep.buckets[BucketIdx(oldBlockID)] in own
      ensures newBlockID != 0 ==> rep.buckets[BucketIdx(newBlockID)] in own
    {
      hide DistinctParts, SchemaValues, BucketValues;
      dbInfo := CopySchemaBlocks(name);
      CopySortedBlocks(oldBlockID, newBlockID);
    }

    /** Copies what a diff changes, and takes the old table out. */
    method CopyAndDrop(d: Diff, name: string, ghost m: Catalog) returns (dbInfo: SchemaBlocks, tblIDs: seq<nat>)
      requires Distinct() && Holds(rep.Value(), m) && !IsSchemaAction(d.tp) && |rep.Value().buckets| == BUCKET_COUNT
      requires d.schemaID in m.dbs && m.dbs[d.schemaID].name == name
      requires OldBlock(d) != 0 ==>
          OldBlock(d) in m.tables && m.tables[OldBlock(d)].db == OldSchema(d) && OldSchema(d) in m.dbs
      modifies this`own, rep`schemaMap, rep`buckets, own
      ensures Distinct() && fresh(own - old(own)) && |rep.buckets| == BUCKET_COUNT && rep.version == old(rep.version)
      ensures rep.Value() == if OldBlock(d) != 0
                             then DropTable(old(rep.Value()), m.dbs[OldSchema(d)].name, OldBlock(d))
                             else old(rep.Value())
      ensures dbInfo in own && dbInfo.db == m.dbs[d.schemaID] && name in rep.schemaMap && rep.schemaMap[name] == dbInfo
      ensures NewBlock(d) != 0 ==> rep.buckets[BucketIdx(NewBlock(d))] in own
      ensures tblIDs == if OldBlock(d) != 0 && OldBlock(d) != NewBlock(d)
                        then [OldBlock(d)] + m.tables[OldBlock(d)].info.parts else []
    {
      hide DistinctParts, SchemaValues, BucketValues, Holds, DropTable, SortedById, TableIn, OldBlock, NewBlock,
           OldSchema;
      var oldBlockID, newBlockID := OldBlock(d), NewBlock(d);
      HeldSchema(rep.Value(), m, d.schemaID);
      SchemaValuesAll(rep.schemaMap);
      BucketValuesLength(rep.buckets);
      dbInfo := CopyForDiff(name, oldBlockID, newBlockID);
      tblIDs := [];
      if oldBlockID != 0 {
        var tmpIDs := DropOld(d, dbInfo, oldBlockID, m);
        if oldBlockID != newBlockID {
          tblIDs := tmpIDs.value;
        }
      }
    }

    /** Takes the old table out of the database that it is in. */
    method DropOld(d: Diff, dbInfo: SchemaBlocks, oldBlockID: nat, ghost m: Catalog) returns (ids: Option<seq<nat>>)
      requires Distinct() && |rep.buckets| == BUCKET_COUNT && Holds(rep.Value(), m) && dbInfo in own
          && !IsSchemaAction(d.tp)
      requires d.schemaID in m.dbs && dbInfo.db == m.dbs[d.schemaID]
      requires dbInfo.db.name in rep.schemaMap && rep.schemaMap[dbInfo.db.name] == dbInfo
      requires oldBlockID in m.tables && m.tables[oldBlockID].db == OldSchema(d) && OldSchema(d) in m.dbs
      requires rep.buckets[BucketIdx(oldBlockID)] in own
      modifies this`own, rep`schemaMap, own
      ensures Distinct() && fresh(own - old(own)) && old(own) <= own && |old(rep.Value()).buckets| == BUCKET_COUNT
      ensures rep.buckets == old(rep.buckets)
      ensures ids == Some([oldBlockID] + m.tables[oldBlockID].info.parts)
      ensures rep.Value() == DropTable(old(rep.Value()), m.dbs[OldSchema(d)].name, oldBlockID)
      ensures dbInfo.db == old(dbInfo.db) && dbInfo.db.name in rep.schemaMap && rep.schemaMap[dbInfo.db.name] == dbInfo
    {
      hide DistinctParts, SchemaValues, BucketValues, Holds, DropTable, SortedById, TableIn;
      BucketFor(rep.Value(), m, oldBlockID);
      BucketValuesLength(rep.buckets);
      ghost var info := m.tables[oldBlockID].info;
      NoneBefore([info.id] + info.parts);
      var tmpIDs;
      if d.tp.RenameBlock? && d.oldSchemaID != d.schemaID {
        var oldRoDBInfo := rep.SchemaByID(d.oldSchemaID, m);
        if oldRoDBInfo == null {
          return None;
        }
        OtherName(rep.Value(), m, d.schemaID, d.oldSchemaID);
        var oldDBInfo := CopySchemaBlocks(oldRoDBInfo.db.name);
        tmpIDs := DropBlock(oldDBInfo, oldBlockID, []);
      } else {
        tmpIDs := DropBlock(dbInfo, oldBlockID, []);
      }
      ids := Some(tmpIDs);
    }
  }
}
