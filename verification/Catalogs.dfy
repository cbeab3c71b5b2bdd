/** The stored schema: databases and tables as they are at one version, and the diffs that lead from one version
    to the next. */
module Catalogs {
  /** A table.  `parts` are the ids of its partitions, and `def` stands for everything else it is made of. */
  datatype BlockInfo = BlockInfo(id: nat, name: string, parts: seq<nat>, def: int)

  datatype Db = Db(id: nat, name: string, charset: string)

  /** A table and the database it is in. */
  datatype Placed = Placed(db: nat, info: BlockInfo)

  datatype Catalog = Catalog(dbs: map<nat, Db>, tables: map<nat, Placed>)

  /** Names are unique among databases, and within a database among tables; id 0 means no table. */
  ghost predicate WellFormed(c: Catalog) {
    && (forall i | i in c.dbs :: c.dbs[i].id == i)
    && (forall i, j | i in c.dbs && j in c.dbs && c.dbs[i].name == c.dbs[j].name :: i == j)
    && (forall i | i in c.tables :: i != 0 && c.tables[i].info.id == i && c.tables[i].db in c.dbs)
    && (forall i, j | i in c.tables && j in c.tables && SamePlace(c.tables[i], c.tables[j]) :: i == j)
  }

  predicate SamePlace(p: Placed, q: Placed) {
    p.db == q.db && p.info.name == q.info.name
  }

  datatype Action =
    | CreateSchema | DropSchema | ModifySchemaCharset
    | CreateBlock | CreateSequence | RecoverBlock
    | DropBlock | DropView | DropSequence
    | TruncateBlock | CreateView
    | RenameBlock | SetTiFlashReplica | UpdateTiFlashReplicaStatus | AlterBlock

  /** One schema change.  `bit` is the bit of its action, 1 shifted by the number of the action. */
  datatype Diff = Diff(version: int, tp: Action, bit: bv64, schemaID: nat, blockID: nat, oldSchemaID: nat,
                       oldBlockID: nat)

  /** The table that a diff takes away, or 0. */
  function OldBlock(d: Diff): nat {
    match d.tp
    case CreateBlock | CreateSequence | RecoverBlock => 0
    case DropBlock | DropView | DropSequence => d.blockID
    case TruncateBlock | CreateView => d.oldBlockID
    case _ => d.blockID
  }

  /** The table that a diff brings, or 0; the same table for a change in place. */
  function NewBlock(d: Diff): nat {
    match d.tp
    case CreateBlock | CreateSequence | RecoverBlock => d.blockID
    case DropBlock | DropView | DropSequence => 0
    case TruncateBlock | CreateView => d.blockID
    case _ => d.blockID
  }

  /** The database that the old table was in. */
  function OldSchema(d: Diff): nat {
    if d.tp == RenameBlock then d.oldSchemaID else d.schemaID
  }

  predicate IsSchemaAction(tp: Action) {
    tp == CreateSchema || tp == DropSchema || tp == ModifySchemaCharset
  }

  /** Changes that running transactions need not know about. */
  predicate CanSkipCheck(tp: Action) {
    tp == UpdateTiFlashReplicaStatus || tp == SetTiFlashReplica
  }

  /** A diff describes the change from one catalog to the next. */
  ghost predicate Describes(c: Catalog, d: Diff, c': Catalog) {
    match d.tp
    case CreateSchema =>
      d.schemaID !in c.dbs && d.schemaID in c'.dbs && c'.dbs == c.dbs[d.schemaID := c'.dbs[d.schemaID]]
        && c'.tables == c.tables
    case DropSchema =>
      c'.dbs == c.dbs - {d.schemaID} && c'.tables == map i | i in c.tables && c.tables[i].db != d.schemaID ::
        c.tables[i]
    case ModifySchemaCharset =>
      && d.schemaID in c.dbs && d.schemaID in c'.dbs && c'.dbs == c.dbs[d.schemaID := c'.dbs[d.schemaID]]
      && c'.tables == c.tables
    case _ => DescribesBlock(c, d, c')
  }

  ghost predicate DescribesBlock(c: Catalog, d: Diff, c': Catalog) {
    var o, n := OldBlock(d), NewBlock(d);
    && c'.dbs == c.dbs && d.schemaID in c.dbs
    && (o != 0 ==> o in c.tables && c.tables[o].db == OldSchema(d) && (o != n ==> o !in c'.tables))
    && (n != 0 ==> n in c'.tables && c'.tables[n].db == d.schemaID && (n == o || n !in c.tables))
    && (forall i | i != o && i != n :: i in c.tables <==> i in c'.tables)
    && (forall i | i != o && i != n && i in c.tables :: c'.tables[i] == c.tables[i])
  }

  lemma TablesByBlock(c: Catalog, d: Diff, c': Catalog)
    requires WellFormed(c) && WellFormed(c') && DescribesBlock(c, d, c')
    ensures c'.tables.Keys == c.tables.Keys - {OldBlock(d)} + if NewBlock(d) != 0 then {NewBlock(d)} else {}
    ensures OldBlock(d) != 0 ==> OldBlock(d) in c.tables && c.tables[OldBlock(d)].db == OldSchema(d)
    ensures NewBlock(d) != 0 ==> NewBlock(d) in c'.tables && c'.tables[NewBlock(d)].db == d.schemaID
    ensures NewBlock(d) != 0 && NewBlock(d) != OldBlock(d) ==> NewBlock(d) !in c.tables
  {
    hide OldBlock, NewBlock, OldSchema, SamePlace;
    var o, n := OldBlock(d), NewBlock(d);
    assert forall i | i in c'.tables :: i != 0;
    assert o == n || o !in c'.tables;
    assert forall i :: i in c'.tables <==> (i in c.tables && i != o) || (i == n && n != 0);
  }

  /** What a diff does to the set of tables, by its action. */
  lemma TablesByAction(c: Catalog, d: Diff, c': Catalog)
    requires WellFormed(c) && WellFormed(c') && Describes(c, d, c') && d.blockID != 0
    ensures match d.tp
            case CreateSchema | ModifySchemaCharset => c'.tables == c.tables
            case DropSchema => forall j :: j in c'.tables <==> j in c.tables && c.tables[j].db != d.schemaID
            case CreateBlock | CreateSequence | RecoverBlock =>
              d.blockID !in c.tables && c'.tables.Keys == c.tables.Keys + {d.blockID}
            case DropBlock | DropView | DropSequence =>
              d.blockID in c.tables && c'.tables.Keys == c.tables.Keys - {d.blockID}
            case TruncateBlock | CreateView =>
              c'.tables.Keys == c.tables.Keys - {d.oldBlockID} + {d.blockID}
            case RenameBlock =>
              && c'.tables.Keys == c.tables.Keys && d.blockID in c.tables
              && c.tables[d.blockID].db == d.oldSchemaID && c'.tables[d.blockID].db == d.schemaID
            case SetTiFlashReplica | UpdateTiFlashReplicaStatus | AlterBlock =>
              d.blockID in c.tables && c'.tables.Keys == c.tables.Keys
  {
    hide DescribesBlock, SamePlace, WellFormed;
    if !IsSchemaAction(d.tp) {
      TablesByBlock(c, d, c');
      NoTableZero(c);
    }
  }

  lemma NoTableZero(c: Catalog)
    requires WellFormed(c)
    ensures 0 !in c.tables
  {
  }

  /** The tables that differ between two catalogs. */
  ghost function Changed(c: Catalog, c': Catalog): set<nat> {
    set i | i in c.tables.Keys + c'.tables.Keys && !(i in c.tables && i in c'.tables && c.tables[i] == c'.tables[i])
  }
}
