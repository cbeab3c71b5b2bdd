/** The schema replicant as a value: the tables by name and by id, and what building it step by step does to it. */
module Replicants {
  import opened Catalogs

  const BUCKET_COUNT := 512

  /** A database with its table list and its tables by name. */
  datatype Schema = Schema(db: Db, infos: seq<BlockInfo>, blocks: map<string, BlockInfo>)

  datatype Rep = Rep(schemas: map<string, Schema>, buckets: seq<seq<BlockInfo>>)

  function BucketIdx(id: nat): nat {
    id % BUCKET_COUNT
  }

  // ---------- lists of tables ----------

  ghost predicate SortedById(s: seq<BlockInfo>) {
    forall i, j | 0 <= i < j < |s| :: s[i].id < s[j].id
  }

  ghost predicate UniqueIds(s: seq<BlockInfo>) {
    forall i, j | 0 <= i < j < |s| :: s[i].id != s[j].id
  }

  predicate HasId(s: seq<BlockInfo>, id: nat) {
    exists i :: 0 <= i < |s| && s[i].id == id
  }

  /** Without the first table that has an id. */
  function Remove(s: seq<BlockInfo>, id: nat): seq<BlockInfo> {
    if s == [] then []
    else if s[0].id == id then s[1..]
    else [s[0]] + Remove(s[1..], id)
  }

  lemma {:induction false} RemoveAt(s: seq<BlockInfo>, i: nat)
    requires i < |s| && forall j | 0 <= j < i :: s[j].id != s[i].id
    ensures Remove(s, s[i].id) == s[..i] + s[i + 1..]
  {
    if i > 0 {
      assert s[1..][i - 1] == s[i];
      RemoveAt(s[1..], i - 1);
      assert s[..i] == [s[0]] + s[1..][..i - 1];
    }
  }

  lemma {:induction false} RemoveNone(s: seq<BlockInfo>, id: nat)
    requires !HasId(s, id)
    ensures Remove(s, id) == s
  {
    if s != [] {
      assert forall i | 0 <= i < |s[1..]| :: s[1..][i] == s[i + 1];
      RemoveNone(s[1..], id);
    }
  }

  lemma {:induction false} RemoveIs(s: seq<BlockInfo>, id: nat)
    requires UniqueIds(s)
    ensures UniqueIds(Remove(s, id)) && (SortedById(s) ==> SortedById(Remove(s, id)))
    ensures forall t :: t in Remove(s, id) <==> t in s && t.id != id
  {
    hide UniqueIds, SortedById;
    if s != [] {
      TailOf(s);
      if s[0].id != id {
        RemoveIs(s[1..], id);
        ConsUnique(s[0], Remove(s[1..], id));
      }
    }
  }

  /** The parts of a list with unique ids. */
  lemma TailOf(s: seq<BlockInfo>)
    requires s != [] && UniqueIds(s)
    ensures UniqueIds(s[1..]) && (forall u :: u in s[1..] <==> u in s && u != s[0])
    ensures forall u | u in s[1..] :: u.id != s[0].id
    ensures SortedById(s) ==> SortedById(s[1..]) && forall u | u in s[1..] :: s[0].id < u.id
  {
    forall u ensures u in s[1..] <==> u in s && u != s[0] {
      if u in s && u != s[0] {
        var i :| 0 <= i < |s| && s[i] == u;
        assert s[1..][i - 1] == u;
      }
      if u in s[1..] {
        var i :| 0 <= i < |s[1..]| && s[1..][i] == u;
        assert s[i + 1] == u;
      }
    }
    forall u | u in s[1..] ensures u.id != s[0].id && (SortedById(s) ==> s[0].id < u.id) {
      var i :| 0 <= i < |s[1..]| && s[1..][i] == u;
      assert s[i + 1] == u;
    }
  }

  lemma ConsUnique(t: BlockInfo, s: seq<BlockInfo>)
    requires UniqueIds(s) && forall u | u in s :: u.id != t.id
    ensures UniqueIds([t] + s)
    ensures SortedById(s) && (forall u | u in s :: t.id < u.id) ==> SortedById([t] + s)
  {
    var r := [t] + s;
    assert forall i | 0 < i < |r| :: r[i] == s[i - 1] && s[i - 1] in s;
  }

  lemma SortedIsUnique(s: seq<BlockInfo>)
    requires SortedById(s)
    ensures UniqueIds(s)
  {
  }

  /** Into the place where the order by id wants it. */
  function Insert(s: seq<BlockInfo>, t: BlockInfo): seq<BlockInfo> {
    if s == [] || t.id < s[0].id then [t] + s else [s[0]] + Insert(s[1..], t)
  }

  lemma {:induction false} InsertIs(s: seq<BlockInfo>, t: BlockInfo)
    requires SortedById(s) && forall u | u in s :: u.id != t.id
    ensures SortedById(Insert(s, t))
    ensures forall u :: u in Insert(s, t) <==> u in s || u == t
  {
    hide UniqueIds, SortedById;
    SortedIsUnique(s);
    if s == [] {
      ConsUnique(t, s);
    } else {
      TailOf(s);
      if t.id < s[0].id {
        ConsUnique(t, s);
      } else {
        assert s[0] in s;
        InsertIs(s[1..], t);
        SortedIsUnique(Insert(s[1..], t));
        ConsUnique(s[0], Insert(s[1..], t));
      }
    }
  }

  /** A sorted list is determined by its members. */
  lemma {:induction false} SortedUnique(s: seq<BlockInfo>, t: seq<BlockInfo>)
    requires SortedById(s) && SortedById(t) && forall u :: u in s <==> u in t
    ensures s == t
  {
    hide UniqueIds, SortedById;
    EmptyTogether(s, t);
    if s != [] {
      SortedIsUnique(s);
      SortedIsUnique(t);
      TailOf(s);
      TailOf(t);
      assert s[0] in t && t[0] in s;
      SortedUnique(s[1..], t[1..]);
      assert s == [s[0]] + s[1..] && t == [t[0]] + t[1..];
    }
  }

  lemma EmptyTogether(s: seq<BlockInfo>, t: seq<BlockInfo>)
    requires forall u :: u in s <==> u in t
    ensures s == [] <==> t == []
  {
    if s != [] { assert s[0] in t; }
    if t != [] { assert t[0] in s; }
  }

  // ---------- what a replicant holds ----------

  /** Each bucket is sorted and holds exactly the tables whose ids belong there. */
  ghost predicate BucketsHold(buckets: seq<seq<BlockInfo>>, tables: map<nat, Placed>) {
    && |buckets| == BUCKET_COUNT
    && (forall i | 0 <= i < BUCKET_COUNT :: SortedById(buckets[i]))
    && (forall i, t | 0 <= i < BUCKET_COUNT && t in buckets[i] ::
          BucketIdx(t.id) == i && t.id in tables && tables[t.id].info == t)
    && (forall id | id in tables :: tables[id].info in buckets[BucketIdx(id)] && tables[id].info.id == id)
  }

  /** A database has exactly its tables in its list, and no others by name. */
  ghost predicate SchemaHolds(s: Schema, tables: map<nat, Placed>) {
    && UniqueIds(s.infos)
    && (forall t | t in s.infos :: t.id in tables && tables[t.id] == Placed(s.db.id, t))
    && (forall id | id in tables && tables[id].db == s.db.id :: tables[id].info in s.infos && tables[id].info.id == id)
    && (forall k | k in s.blocks ::
      k == s.blocks[k].name && s.blocks[k].id in tables && tables[s.blocks[k].id] == Placed(s.db.id, s.blocks[k]))
  }

  ghost predicate Holds(r: Rep, c: Catalog) {
    && BucketsHold(r.buckets, c.tables)
    && (forall n | n in r.schemas ::
      r.schemas[n].db.name == n && r.schemas[n].db.id in c.dbs && c.dbs[r.schemas[n].db.id] == r.schemas[n].db)
    && (forall n | n in r.schemas :: SchemaHolds(r.schemas[n], c.tables))
    && (forall i | i in c.dbs ::
      c.dbs[i].id == i && c.dbs[i].name in r.schemas && r.schemas[c.dbs[i].name].db == c.dbs[i])
  }

  /** A table can be reached by the names of its database and itself. */
  ghost predicate Named(r: Rep, c: Catalog, id: nat) {
    && id in c.tables && c.tables[id].db in c.dbs && c.dbs[c.tables[id].db].name in r.schemas
    && var s := r.schemas[c.dbs[c.tables[id].db].name];
    && c.tables[id].info.name in s.blocks && s.blocks[c.tables[id].info.name] == c.tables[id].info
  }

  /** What a full load of a catalog gives. */
  ghost predicate IsFull(r: Rep, c: Catalog) {
    Holds(r, c) && forall id | id in c.tables :: Named(r, c, id)
  }

  /** All full loads are the same, but for the order of the table lists. */
  lemma FullIsUnique(r: Rep, r': Rep, c: Catalog)
    requires WellFormed(c) && IsFull(r, c) && IsFull(r', c)
    ensures r.buckets == r'.buckets && r.schemas.Keys == r'.schemas.Keys
    ensures forall n | n in r.schemas ::
              && r.schemas[n].db == r'.schemas[n].db && r.schemas[n].blocks == r'.schemas[n].blocks
              && forall t :: t in r.schemas[n].infos <==> t in r'.schemas[n].infos
  {
    hide SortedById, SchemaHolds;
    SameBuckets(r.buckets, r'.buckets, c.tables);
    assert forall n | n in r.schemas :: n in r'.schemas && r'.schemas[n].db == r.schemas[n].db;
    assert forall n | n in r'.schemas :: n in r.schemas;
    forall n | n in r.schemas
      ensures r.schemas[n].blocks == r'.schemas[n].blocks
          && forall t :: t in r.schemas[n].infos <==> t in r'.schemas[n].infos
    {
      SameBlocks(r, r', c, n);
      SameBlocks(r', r, c, n);
      SameInfos(r.schemas[n], r'.schemas[n], c.tables);
    }
  }

  lemma SameBuckets(b: seq<seq<BlockInfo>>, b': seq<seq<BlockInfo>>, tables: map<nat, Placed>)
    requires BucketsHold(b, tables) && BucketsHold(b', tables)
    ensures b == b'
  {
    hide SortedById;
    forall i | 0 <= i < BUCKET_COUNT ensures b[i] == b'[i] {
      forall t ensures t in b[i] <==> t in b'[i] {
        if t in b[i] { assert tables[t.id].info in b'[BucketIdx(t.id)]; }
        if t in b'[i] { assert tables[t.id].info in b[BucketIdx(t.id)]; }
      }
      SortedUnique(b[i], b'[i]);
    }
  }

  lemma SameInfos(s: Schema, s': Schema, tables: map<nat, Placed>)
    requires SchemaHolds(s, tables) && SchemaHolds(s', tables) && s.db == s'.db
    ensures forall t :: t in s.infos <==> t in s'.infos
  {
  }

  lemma SameBlocks(r: Rep, r': Rep, c: Catalog, n: string)
    requires WellFormed(c) && IsFull(r, c) && IsFull(r', c) && n in r.schemas && n in r'.schemas
    ensures forall k | k in r.schemas[n].blocks ::
        k in r'.schemas[n].blocks && r'.schemas[n].blocks[k] == r.schemas[n].blocks[k]
  {
    forall k | k in r.schemas[n].blocks
      ensures k in r'.schemas[n].blocks && r'.schemas[n].blocks[k] == r.schemas[n].blocks[k]
    {
      assert Named(r', c, r.schemas[n].blocks[k].id);
    }
  }

  /** In a full load the tables found by id are exactly those reached by name. */
  lemma ByIdIsByName(r: Rep, c: Catalog, t: BlockInfo)
    requires WellFormed(c) && IsFull(r, c)
    ensures t in r.buckets[BucketIdx(t.id)]
        <==> exists n, k :: n in r.schemas && k in r.schemas[n].blocks && r.schemas[n].blocks[k] == t
  {
    if t in r.buckets[BucketIdx(t.id)] { assert Named(r, c, t.id); }
  }
}
