/** How the tree, its index and the value log fit together, and what each kind of step does to the fit. */
module Invariants {
  import opened Addresses
  import opened Keys
  import opened RedBlack
  import opened NodeTable
  import opened Search
  import opened Arenas
  import opened LogRecords
  import opened ValueLog
  import opened Layering
  import opened Accounting

  // ---------- the index: which node holds a key ----------

  ghost predicate Indexed(n: Table, s: seq<Addr>, index: map<Key, Addr>) {
    && (forall k | k in index :: index[k] in s && index[k] in n && n[index[k]].key == k)
    && (forall a | a in s :: a in n && n[a].key in index && index[n[a].key] == a)
  }

  lemma IndexedInjective(n: Table, s: seq<Addr>, index: map<Key, Addr>)
    requires Indexed(n, s, index)
    ensures Injective(index)
  {
  }

  lemma IndexedData(n: Table, n': Table, s: seq<Addr>, index: map<Key, Addr>)
    requires Indexed(n, s, index) && SameData(n, n')
    ensures Indexed(n', s, index)
  {
  }

  lemma NotIndexed(n: Table, s: seq<Addr>, index: map<Key, Addr>, key: Key)
    requires Indexed(n, s, index) && forall a | a in s :: a in n && n[a].key != key
    ensures key !in index
  {
  }

  lemma AddrOfKey(n: Table, s: seq<Addr>, index: map<Key, Addr>, a: Addr)
    requires Indexed(n, s, index) && a in s
    ensures a in n && n[a].key in index && index[n[a].key] == a
  {
  }

  lemma IndexedAddr(n: Table, s: seq<Addr>, index: map<Key, Addr>, key: Key)
    requires Indexed(n, s, index) && key in index
    ensures index[key] in s && index[key] in n && n[index[key]].key == key
  {
  }

  lemma IndexedInsert(n: Table, l: seq<Addr>, r: seq<Addr>, index: map<Key, Addr>, z: Addr)
    requires Indexed(n, l + r, index) && z in n && n[z].key !in index
    ensures Indexed(n, l + [z] + r, index[n[z].key := z])
  {
    var s, s', index' := l + r, l + [z] + r, index[n[z].key := z];
    forall k | k in index' ensures index'[k] in s' {
      if k in index && k != n[z].key { assert index[k] in s; }
    }
    forall a | a in s' ensures a in n && n[a].key in index' && index'[n[a].key] == a {
      if a != z { assert a in s; }
    }
  }

  lemma IndexedRemove(n: Table, s: seq<Addr>, index: map<Key, Addr>, i: nat)
    requires Indexed(n, s, index) && NoRepeats(s) && i < |s|
    ensures s[i] in n && Indexed(n, s[..i] + s[i + 1..], index - {n[s[i]].key})
  {
    var s', k0 := s[..i] + s[i + 1..], n[s[i]].key;
    assert s[i] in s;
    forall a | a in s' ensures a in s && a != s[i] {
      var j :| 0 <= j < |s'| && s'[j] == a;
      assert a == s[if j < i then j else j + 1];
    }
    forall k | k in index && k != k0 ensures index[k] in s' {
      var j :| 0 <= j < |s| && s[j] == index[k];
      assert j != i;
      assert s'[if j < i then j else j - 1] == index[k];
    }
  }

  function FlagsOf(n: Table, index: map<Key, Addr>): map<Key, KeyFlags> {
    map k | k in index && index[k] in n :: n[index[k]].flags
  }

  // ---------- the link between nodes and log ----------

  /** Every record belongs to a node of the tree, and every node points at its newest record. */
  ghost predicate Linked(n: Table, s: seq<Addr>, recs: seq<LogRec>) {
    && (forall i | 0 <= i < |recs| :: recs[i].node in s)
    && (forall a | a in s :: a in n && n[a].vptr == LastAddr(recs, a))
  }

  lemma LinkedData(n: Table, n': Table, s: seq<Addr>, recs: seq<LogRec>)
    requires Linked(n, s, recs) && SameData(n, n')
    ensures Linked(n', s, recs)
  {
  }

  lemma NoRecords(s: seq<Addr>, recs: seq<LogRec>, z: Addr)
    requires (forall i | 0 <= i < |recs| :: recs[i].node in s) && z !in s
    ensures LastIdx(recs, z) < 0 && LastAddr(recs, z) == NULL && z !in Fold(recs)
  {
    FoldIsLast(recs, z);
  }

  lemma LinkedInsert(n: Table, n': Table, l: seq<Addr>, r: seq<Addr>, recs: seq<LogRec>, z: Addr)
    requires Linked(n, l + r, recs) && z !in l + r && z in n' && n'[z].vptr == NULL
    requires forall a | a in n && a != z :: a in n' && n'[a].vptr == n[a].vptr
    ensures Linked(n', l + [z] + r, recs)
  {
    NoRecords(l + r, recs, z);
    forall i | 0 <= i < |recs| ensures recs[i].node in l + [z] + r {
      assert recs[i].node in l + r;
    }
    forall a | a in l + [z] + r ensures a in n' && n'[a].vptr == LastAddr(recs, a) {
      if a != z { assert a in l + r; }
    }
  }

  lemma LinkedAppend(n: Table, s: seq<Addr>, recs: seq<LogRec>, r: LogRec)
    requires Linked(n, s, recs) && r.node in s
    ensures Linked(n[r.node := n[r.node].(vptr := r.At())], s, recs + [r])
  {
    assert (recs + [r])[..|recs|] == recs;
  }

  lemma LinkedOverwrite(n: Table, s: seq<Addr>, recs: seq<LogRec>, j: nat, v: Value)
    requires Linked(n, s, recs) && j < |recs|
    ensures Linked(n, s, recs[j := recs[j].(value := v)])
  {
    forall a | a in s ensures LastAddr(recs, a) == LastAddr(recs[j := recs[j].(value := v)], a) {
      SameNodes(recs, recs[j := recs[j].(value := v)], a);
    }
  }

  /** Undoing the newest record: the node it names points at exactly this record, and gets the previous one back. */
  lemma LastAddrSnoc(recs: seq<LogRec>, r: LogRec, a: Addr)
    ensures LastAddr(recs + [r], a) == if r.node == a then r.At() else LastAddr(recs, a)
  {
    assert (recs + [r])[..|recs|] == recs;
  }

  lemma LinkedUndo(n: Table, s: seq<Addr>, recs: seq<LogRec>, m: nat)
    requires 0 < m <= |recs| && Linked(n, s, recs[..m]) && Chained(recs)
    ensures var r := recs[m - 1];
            && r.node in s && r.node in n && n[r.node].vptr == r.At()
            && Linked(n[r.node := n[r.node].(vptr := r.prev)], s, recs[..m - 1])
  {
    hide Chained, LastAddr;
    var r, s0 := recs[m - 1], recs[..m - 1];
    assert recs[..m] == s0 + [r] && (s0 + [r])[m - 1] == r;
    ChainedAt(recs, m - 1);
    forall a ensures LastAddr(recs[..m], a) == if r.node == a then r.At() else LastAddr(s0, a) {
      LastAddrSnoc(s0, r, a);
    }
    forall i | 0 <= i < m - 1 ensures s0[i].node in s {
      assert (s0 + [r])[i].node in s;
    }
  }

  /** A node without records left can leave the tree. */
  lemma LinkedRemove(n: Table, s: seq<Addr>, recs: seq<LogRec>, i: nat)
    requires Linked(n, s, recs) && i < |s| && LastIdx(recs, s[i]) < 0
    ensures Linked(n, s[..i] + s[i + 1..], recs)
  {
    var s' := s[..i] + s[i + 1..];
    forall j | 0 <= j < |recs| ensures recs[j].node in s' {
      var p :| 0 <= p < |s| && s[p] == recs[j].node;
      assert p != i;
      assert s'[if p < i then p else p - 1] == s[p];
    }
    forall a | a in s' ensures a in s {
    }
  }

  // ---------- stages ----------

  /** The stages and the record counts at which they were opened. */
  ghost predicate Staged(recs: seq<LogRec>, stages: seq<Checkpoint>, marks: seq<nat>) {
    && |stages| == |marks| && MarksOk(|recs|, marks)
    && forall i | 0 <= i < |stages| ::
         && Marks(recs, marks[i], stages[i])
         && stages[i].blockSize <= MAX_BLOCK_SIZE && (stages[i].blocks > 0 ==> stages[i].blockSize > 0)
  }

  lemma StagedMarks(recs: seq<LogRec>, stages: seq<Checkpoint>, marks: seq<nat>)
    requires Staged(recs, stages, marks)
    ensures MarksOk(|recs|, marks)
  {
  }

  lemma StagedAppend(recs: seq<LogRec>, stages: seq<Checkpoint>, marks: seq<nat>, r: LogRec)
    requires Staged(recs, stages, marks)
    ensures Staged(recs + [r], stages, marks)
  {
  }

  lemma StagedOverwrite(recs: seq<LogRec>, stages: seq<Checkpoint>, marks: seq<nat>, j: nat, v: Value)
    requires Staged(recs, stages, marks) && j < |recs|
    ensures Staged(recs[j := recs[j].(value := v)], stages, marks)
  {
  }

  // ---------- dirtiness ----------

  const PERSISTENT_FLAGS: KeyFlags := 2 | 4

  /** A buffer that is not dirty holds nothing that survives discarding the open stages. */
  ghost predicate CleanUnlessDirty(dirty: bool, n: Table, s: seq<Addr>, recs: seq<LogRec>, marks: seq<nat>) {
    !dirty ==>
      && (if marks == [] then recs == [] else marks[0] == 0)
      && forall a | a in s :: a in n && n[a].flags & PERSISTENT_FLAGS == 0
  }

  // ---------- memory ----------

  const NODE_HDR_SIZE: nat := 8 * 4 + 2 + 1
  const MAX_KEY_LEN: nat := 65535

  ghost predicate Allocated(n: Table, live: set<Extent>) {
    forall a | a in n && a != NULL ::
      IsAddr(a) && |n[a].key| <= MAX_KEY_LEN && Extent(a, NODE_HDR_SIZE + |n[a].key|) in live
  }

  lemma FreshNode(n: Table, live: set<Extent>, z: Addr, size: nat)
    requires Allocated(n, live) && z != NULL && size > 0
    requires forall e | e in live :: !Overlap(e, Extent(z, size))
    ensures z !in n
  {
    if z in n { assert Overlap(Extent(z, NODE_HDR_SIZE + |n[z].key|), Extent(z, size)); }
  }

  // ---------- linking a new leaf ----------

  lemma LinkAt(n: Table, n': Table, root: Addr, root': Addr, c: Ctx, z: Addr, leaf: Tree)
    requires At(n, root, c, Leaf) && z !in n && z != NULL && z in n' && leaf == Branch(Leaf, z, true, Leaf)
    requires n'[z].up == UpOf(c) && n'[z].left == NULL && n'[z].right == NULL && n'[z].red
    requires forall a | a in n && a != UpOf(c) :: a in n' && n'[a] == n[a]
    requires Relinked(n, n', root, root', c, z) && NULL in n && NULL in n' && n'[NULL] == n[NULL]
    ensures At(n', root', c, leaf)
  {
    CtxEmbeddedAddrs(n, c, root, NULL);
    CtxNullFree(c);
    CtxRelink(n, n', root, root', c, NULL, z);
    assert Addrs(leaf) == {z} && Distinct(leaf);
    assert Embeds(n', Leaf, z);
  }

  /** The empty buffer. */
  lemma EmptyBuffer(n: Table)
    requires n == map[NULL := MemNode(NULL, NULL, NULL, NULL, [], false, 0)]
    ensures At(n, NULL, Top, Leaf) && IsRedBlack(Leaf) && InOrder(Leaf) == []
    ensures Ascending(n, []) && Indexed(n, [], map[]) && Linked(n, [], []) && Allocated(n, {})
    ensures Total([], n, Fold([])) == 0
    ensures Staged([], [], []) && CleanUnlessDirty(false, n, [], [], [])
    ensures Layers([], [], map[]) == [map[]] && FlagsOf(n, map[]) == map[]
  {
    assert ByKey(Fold([]), map[]) == map[];
  }

  // ---------- inserting a node ----------

  /** Fresh memory with a key, no value and no flags. */
  function NewNode(key: Key): MemNode {
    MemNode(Addr(0, 0), Addr(0, 0), Addr(0, 0), NULL, key, false, 0)
  }

  /** One node more, and nothing but links and colours different in the others. */
  ghost predicate Inserted(n: Table, n': Table, z: Addr, key: Key) {
    && z !in n && z != NULL && n'.Keys == n.Keys + {z}
    && n'[z].key == key && n'[z].vptr == NULL && n'[z].flags == 0
    && forall a | a in n :: n'[a].key == n[a].key && n'[a].vptr == n[a].vptr && n'[a].flags == n[a].flags
  }

  lemma LinkPlace(n: Table, root: Addr, c: Ctx)
    requires At(n, root, c, Leaf)
    ensures NULL in n && UpOf(c) in n && (c.Top? <==> UpOf(c) == NULL)
  {
    CtxEmbeddedAddrs(n, c, root, NULL);
    CtxNullFree(c);
    assert c.Under? ==> UpOf(c) in CtxAddrs(c);
  }

  lemma NewLeafRules(c: Ctx, leaf: Tree, tree: Tree)
    requires IsRedBlack(tree) && Plug(c, Leaf) == tree && leaf.Branch? && leaf == Branch(Leaf, leaf.addr, true, Leaf)
    ensures Red(leaf) && Balanced(leaf) && NoRedRed(leaf) && Fits(c, BlackHeight(leaf)) && CtxNoRedRed(c)
    ensures InOrder(leaf) == [leaf.addr]
  {
    PlugRedBlack(c, Leaf);
  }

  lemma InsertedData(n: Table, n1: Table, n2: Table, z: Addr, key: Key)
    requires Inserted(n, n1, z, key) && SameData(n1, n2)
    ensures Inserted(n, n2, z, key)
  {
  }

  lemma AllocatedData(n: Table, n': Table, live: set<Extent>)
    requires Allocated(n, live) && SameData(n, n')
    ensures Allocated(n', live)
  {
  }

  lemma InsertedOrder(n: Table, n': Table, l: seq<Addr>, r: seq<Addr>, z: Addr, key: Key)
    requires Ascending(n, l + r) && Inserted(n, n', z, key) && AllLess(n, l, key) && AllGreater(n, r, key)
    ensures Ascending(n', l + [z] + r)
  {
    assert Ascending(n', l + r);
    AscendingInsert(n', l, z, r);
  }

  lemma IndexedInserted(n: Table, n': Table, l: seq<Addr>, r: seq<Addr>, index: map<Key, Addr>, z: Addr, key: Key)
    requires Indexed(n, l + r, index) && Inserted(n, n', z, key) && key !in index
    ensures Indexed(n', l + [z] + r, index[key := z])
  {
    assert Indexed(n', l + r, index);
    IndexedInsert(n', l, r, index, z);
  }

  lemma InsertedTotal(n: Table, n': Table, l: seq<Addr>, r: seq<Addr>, vals: map<Addr, Value>, z: Addr, key: Key)
    requires Inserted(n, n', z, key) && (forall a | a in l + r :: a in n) && z !in vals
    ensures forall a | a in l + [z] + r :: a in n'
    ensures Total(l + [z] + r, n', vals) == Total(l + r, n, vals) + |key|
  {
    var s := l + [z] + r;
    assert forall a | a in s :: a == z || a in l + r;
    assert s[..|l|] + s[|l| + 1..] == l + r;
    TotalWithout(s, |l|, n', vals);
    TotalFrame(l + r, n, vals, n', vals);
  }

  lemma InsertedFlags(n: Table, n': Table, s: seq<Addr>, index: map<Key, Addr>, z: Addr, key: Key)
    requires Inserted(n, n', z, key) && Indexed(n, s, index) && key !in index
    ensures FlagsOf(n', index[key := z]) == FlagsOf(n, index)[key := 0]
  {
  }

  /** A node without records does not show in any layer. */
  lemma InsertedLayers(n: Table, s: seq<Addr>, recs: seq<LogRec>, marks: seq<nat>, index: map<Key, Addr>, z: Addr,
                       key: Key)
    requires Linked(n, s, recs) && MarksOk(|recs|, marks) && z !in s && key !in index
    ensures Layers(recs, marks, index[key := z]) == Layers(recs, marks, index)
  {
    LayersIndex(recs, marks, index, index[key := z]);
  }

  lemma LinkedNodes(n: Table, s: seq<Addr>, recs: seq<LogRec>)
    requires Linked(n, s, recs)
    ensures (forall i | 0 <= i < |recs| :: recs[i].node in s) && (forall a | a in s :: a in n)
  {
  }

  lemma InsertedClean(dirty: bool, n: Table, n': Table, l: seq<Addr>, r: seq<Addr>, recs: seq<LogRec>,
                      marks: seq<nat>, z: Addr, key: Key)
    requires CleanUnlessDirty(dirty, n, l + r, recs, marks) && Inserted(n, n', z, key)
    ensures CleanUnlessDirty(dirty, n', l + [z] + r, recs, marks)
  {
    forall a | a in l + [z] + r && !dirty ensures a in n' && n'[a].flags & PERSISTENT_FLAGS == 0 {
      if a != z { assert a in l + r; }
    }
  }

  /** The table after a new node has been linked below `y`. */
  function LinkedBelow(n: Table, z: Addr, y: Addr, d: Side): Table
    requires z in n && (y != NULL ==> y in n)
  {
    var n1 := n[z := n[z].(up := y, left := NULL, right := NULL, red := true)];
    if y == NULL then n1 else n1[y := SetLink(n1[y], d, z)]
  }

  lemma UpdateSame<K, V>(m: map<K, V>, k: K, u: V, v: V)
    ensures m[k := u][k := v] == m[k := v]
  {
  }

  lemma UpdateSwap<K, V>(m: map<K, V>, j: K, k: K, u: V, v: V)
    requires j != k
    ensures m[j := u][k := v] == m[k := v][j := u]
  {
  }

  /** Writes to one place, with writes to two others in between. */
  lemma UpdateAmong<K, V>(m: map<K, V>, k: K, a: K, b: K, u1: V, u2: V, u3: V, u4: V, va: V, vb: V)
    requires k != a && k != b
    ensures m[k := u1][a := va][k := u2][b := vb][k := u3][k := u4] == m[a := va][b := vb][k := u4]
  {
    UpdateSwap(m, k, a, u1, va);
    UpdateSame(m[a := va], k, u1, u2);
    UpdateSwap(m[a := va], k, b, u2, vb);
    UpdateSame(m[a := va][b := vb], k, u2, u3);
    UpdateSame(m[a := va][b := vb], k, u3, u4);
  }

  /** The source's writes to the links and the colour of a node, one by one. */
  lemma LeafWrites(n: Table, z: Addr)
    requires z in n
    ensures var n1 := n[z := n[z].(left := NULL)];
            var n2 := n1[z := n1[z].(right := NULL)];
            n2[z := n2[z].(red := true)] == n[z := n[z].(left := NULL, right := NULL, red := true)]
  {
    var u := n[z].(left := NULL);
    UpdateSame(n, z, u, u.(right := NULL));
    UpdateSame(n, z, u.(right := NULL), u.(right := NULL, red := true));
  }

  lemma BelowWrites(n: Table, z: Addr, y: Addr, d: Side)
    requires z in n && (y != NULL ==> y in n) && y != z
    ensures var n1 := n[z := n[z].(up := y)];
            var n2 := if y == NULL then n1 else n1[y := SetLink(n1[y], d, z)];
            n2[z := n2[z].(left := NULL, right := NULL, red := true)] == LinkedBelow(n, z, y, d)
  {
    var u, v := n[z].(up := y), n[z].(up := y, left := NULL, right := NULL, red := true);
    UpdateSame(n, z, u, v);
    if y != NULL { UpdateSwap(n[z := u], y, z, SetLink(n[y], d, z), v); }
  }

  lemma LinkedTable(n: Table, n': Table, z: Addr, key: Key, y: Addr, d: Side, live: set<Extent>)
    requires z !in n && z != NULL && Allocated(n[z := NewNode(key)], live) && y != z && (y != NULL ==> y in n)
    requires n' == LinkedBelow(n[z := NewNode(key)], z, y, d)
    ensures Allocated(n', live) && Inserted(n, n', z, key)
    ensures n'[z].up == y && n'[z].left == NULL && n'[z].right == NULL && n'[z].red
    ensures forall a | a in n && a != y :: a in n' && n'[a] == n[a]
    ensures y != NULL ==> n'[y] == SetLink(n[y], d, z)
    ensures NULL in n ==> n'[NULL] == n[NULL]
  {
    forall a | a in n' && a != NULL
      ensures IsAddr(a) && |n'[a].key| <= MAX_KEY_LEN && Extent(a, NODE_HDR_SIZE + |n'[a].key|) in live
    {
      assert a in n[z := NewNode(key)];
    }
  }

  /** The parent of the place of a missing key holds another key. */
  lemma ParentInTree(n: Table, root: Addr, c: Ctx, index: map<Key, Addr>, tree: Tree, key: Key)
    requires At(n, root, c, Leaf) && Plug(c, Leaf) == tree && Indexed(n, InOrder(tree), index) && key !in index
    ensures c.Under? ==> c.addr in n && n[c.addr].key != key
  {
    if c.Under? {
      PlugAddrs(c, Leaf);
      InOrderAddrs(tree);
      assert c.addr in CtxAddrs(c);
    }
  }

  lemma FlagsKeys(n: Table, s: seq<Addr>, index: map<Key, Addr>)
    requires Indexed(n, s, index)
    ensures FlagsOf(n, index).Keys == index.Keys
    ensures forall k | k in index :: index[k] in n && FlagsOf(n, index)[k] == n[index[k]].flags
  {
  }

  // ---------- changing the value pointer or the flags of one node ----------

  ghost predicate Patched(n: Table, n': Table, x: Addr) {
    && x in n && x != NULL && n'.Keys == n.Keys && (forall a | a in n && a != x :: n'[a] == n[a])
    && n'[x].key == n[x].key && n'[x].red == n[x].red
    && n'[x].up == n[x].up && n'[x].left == n[x].left && n'[x].right == n[x].right
  }

  lemma PatchedAt(n: Table, n': Table, root: Addr, tree: Tree, x: Addr)
    requires Patched(n, n', x) && At(n, root, Top, tree)
    ensures At(n', root, Top, tree)
  {
    EmbeddedAddrs(n, tree, NULL);
    AtFrame(n, n', root, Top, tree);
  }

  lemma PatchedOrder(n: Table, n': Table, s: seq<Addr>, index: map<Key, Addr>, live: set<Extent>, x: Addr)
    requires Patched(n, n', x) && Ascending(n, s) && Indexed(n, s, index) && Allocated(n, live)
    ensures Ascending(n', s) && Indexed(n', s, index) && Allocated(n', live)
  {
  }

  lemma PatchedTotal(n: Table, n': Table, s: seq<Addr>, vals: map<Addr, Value>, x: Addr)
    requires Patched(n, n', x) && forall a | a in s :: a in n
    ensures Total(s, n', vals) == Total(s, n, vals)
  {
    TotalFrame(s, n, vals, n', vals);
  }

  lemma ReflaggedLinks(n: Table, s: seq<Addr>, recs: seq<LogRec>, x: Addr, f: KeyFlags)
    requires Linked(n, s, recs) && x in n
    ensures Linked(n[x := n[x].(flags := f)], s, recs)
  {
  }

  lemma ReflaggedFlags(n: Table, s: seq<Addr>, index: map<Key, Addr>, key: Key, f: KeyFlags)
    requires Indexed(n, s, index) && key in index
    ensures index[key] in n && FlagsOf(n[index[key] := n[index[key]].(flags := f)], index)
        == FlagsOf(n, index)[key := f]
  {
  }

  lemma ReflaggedClean(dirty: bool, dirty': bool, n: Table, s: seq<Addr>, recs: seq<LogRec>, marks: seq<nat>, x: Addr,
                       f: KeyFlags)
    requires CleanUnlessDirty(dirty, n, s, recs, marks) && x in n
    requires dirty' == (dirty || f & PERSISTENT_FLAGS != 0)
    ensures CleanUnlessDirty(dirty', n[x := n[x].(flags := f)], s, recs, marks)
  {
  }

  lemma RevaluedFlags(n: Table, index: map<Key, Addr>, x: Addr, p: Addr)
    requires x in n
    ensures FlagsOf(n[x := n[x].(vptr := p)], index) == FlagsOf(n, index)
  {
  }

  lemma AppendedClean(dirty: bool, n: Table, s: seq<Addr>, recs: seq<LogRec>, marks: seq<nat>, r: LogRec, p: Addr)
    requires CleanUnlessDirty(dirty, n, s, recs, marks) && (marks == [] ==> dirty) && r.node in n
    ensures CleanUnlessDirty(dirty, n[r.node := n[r.node].(vptr := p)], s, recs + [r], marks)
  {
  }

  /** The total after a node has got another value. */
  lemma TotalPut(s: seq<Addr>, n: Table, vals: map<Addr, Value>, x: Addr, v: Value)
    requires NoRepeats(s) && x in s && forall a | a in s :: a in n
    ensures Total(s, n, vals[x := v]) == Total(s, n, vals) - ValueBytes(vals, x) + |v|
  {
    var i :| 0 <= i < |s| && s[i] == x;
    TotalSet(s, i, n, vals, vals[x := v]);
  }

  lemma InTree(n: Table, root: Addr, tree: Tree, x: Addr)
    requires At(n, root, Top, tree) && x in InOrder(tree)
    ensures x in n && x != NULL
  {
    InOrderAddrs(tree);
    NullFree(tree);
    EmbeddedAddrs(n, tree, NULL);
  }

  lemma OrderNoRepeats(n: Table, root: Addr, tree: Tree)
    requires At(n, root, Top, tree)
    ensures NoRepeats(InOrder(tree))
  {
    InOrderNoRepeats(tree);
  }

  /** The shape of the tree, the index and the memory do not notice a new value pointer or new flags. */
  lemma PatchedShape(n: Table, n': Table, root: Addr, tree: Tree, index: map<Key, Addr>, live: set<Extent>, x: Addr,
                     vals: map<Addr, Value>)
    requires x in InOrder(tree) && x in n && x in n'
    requires n' == n[x := n[x].(vptr := n'[x].vptr)] || n' == n[x := n[x].(flags := n'[x].flags)]
    requires At(n, root, Top, tree) && Ascending(n, InOrder(tree)) && Indexed(n, InOrder(tree), index)
        && Allocated(n, live)
    ensures At(n', root, Top, tree) && Ascending(n', InOrder(tree)) && Indexed(n', InOrder(tree), index)
        && Allocated(n', live)
    ensures Total(InOrder(tree), n', vals) == Total(InOrder(tree), n, vals)
  {
    InTree(n, root, tree, x);
    PatchedAt(n, n', root, tree, x);
    PatchedOrder(n, n', InOrder(tree), index, live, x);
    PatchedTotal(n, n', InOrder(tree), vals, x);
  }

  lemma AllocatedAddr(n: Table, live: set<Extent>, a: Addr)
    requires Allocated(n, live) && a in n && a != NULL
    ensures IsAddr(a)
  {
  }

  // ---------- undoing records ----------

  /** What undoing the newest record `r` does to the nodes and the index. */
  ghost predicate Undone(n: Table, index: map<Key, Addr>, n': Table, index': map<Key, Addr>, r: LogRec) {
    && r.node in n && n'.Keys == n.Keys && (forall b | b in n :: n'[b].key == n[b].key)
    && (forall b | b in n && b != r.node :: n'[b].flags == n[b].flags)
    && (if r.prev == NULL && n[r.node].flags & PERSISTENT_FLAGS == 0 then index' == index - {n[r.node].key}
      else index' == index)
    && (r.prev == NULL && n[r.node].flags & PERSISTENT_FLAGS != 0 ==>
      n'[r.node].flags == n[r.node].flags & PERSISTENT_FLAGS)
    && (r.prev != NULL ==> n'[r.node].flags == n[r.node].flags)
  }

  lemma UndoneDropped(n: Table, n1: Table, n': Table, index: map<Key, Addr>, r: LogRec)
    requires r.node in n && n1 == n[r.node := n[r.node].(vptr := r.prev)] && SameData(n1, n')
    requires r.prev == NULL && n[r.node].flags & PERSISTENT_FLAGS == 0
    ensures Undone(n, index, n', index - {n[r.node].key}, r)
  {
  }

  lemma UndoneKept(n: Table, index: map<Key, Addr>, r: LogRec)
    requires r.node in n
    ensures var n1 := n[r.node := n[r.node].(vptr := r.prev)];
            && (r.prev != NULL ==> Undone(n, index, n1, index, r))
            && (r.prev == NULL && n[r.node].flags & PERSISTENT_FLAGS != 0 ==>
                  Undone(n, index, n1[r.node := n1[r.node].(flags := n[r.node].flags & PERSISTENT_FLAGS)], index, r))
  {
  }

  /** The node has records in the whole log but none among the first `m`. */
  ghost predicate Dropped(recs: seq<LogRec>, m: nat, a: Addr)
    requires m <= |recs|
  {
    a in Fold(recs) && a !in Fold(recs[..m])
  }

  /** What undoing all records after the first `m` does: a node that loses its first value keeps its persistent
      flags only, and goes if there are none; everything else stays. */
  ghost predicate Reverted(n0: Table, index0: map<Key, Addr>, n: Table, index: map<Key, Addr>, recs: seq<LogRec>,
                           m: nat)
    requires m <= |recs|
  {
    && n.Keys == n0.Keys && (forall b | b in n :: n[b].key == n0[b].key)
    && index.Keys <= index0.Keys
    && forall k | k in index0 ::
         && var a := index0[k];
         && a in n0
         && var f := if Dropped(recs, m, a) then n0[a].flags & PERSISTENT_FLAGS else n0[a].flags;
         && (k in index <==> !(Dropped(recs, m, a) && f == 0))
         && (k in index ==> index[k] == a && n[a].flags == f)
  }

  lemma NothingReverted(n: Table, s: seq<Addr>, index: map<Key, Addr>, recs: seq<LogRec>)
    requires Indexed(n, s, index)
    ensures Reverted(n, index, n, index, recs, |recs|)
  {
    assert recs[..|recs|] == recs;
  }

  lemma DroppedStep(recs: seq<LogRec>, m: nat, a: Addr)
    requires 0 < m <= |recs|
    ensures a in Fold(recs[..m]) <==> a == recs[m - 1].node || a in Fold(recs[..m - 1])
    ensures a in Fold(recs[..m]) ==> a in Fold(recs)
    ensures Dropped(recs, m - 1, a) <==> Dropped(recs, m, a) || (a == recs[m - 1].node && a !in Fold(recs[..m - 1]))
  {
    assert recs[..m][..m - 1] == recs[..m - 1];
    assert recs[..m] + recs[m..] == recs;
    FoldConcat(recs[..m], recs[m..]);
  }

  lemma RevertedStep(n0: Table, index0: map<Key, Addr>, n: Table, index: map<Key, Addr>,
                     n': Table, index': map<Key, Addr>, recs: seq<LogRec>, m: nat, s: seq<Addr>)
    requires 0 < m <= |recs| && Reverted(n0, index0, n, index, recs, m) && Indexed(n, s, index)
    requires Undone(n, index, n', index', recs[m - 1]) && recs[m - 1].node in s
    requires recs[m - 1].prev == NULL <==> recs[m - 1].node !in Fold(recs[..m - 1])
    ensures Reverted(n0, index0, n', index', recs, m - 1)
  {
    hide Dropped, Fold;
    var r := recs[m - 1];
    forall k | k in index0
      ensures var a := index0[k];
              && a in n0
              && var f := if Dropped(recs, m - 1, a) then n0[a].flags & PERSISTENT_FLAGS else n0[a].flags;
              && (k in index' <==> !(Dropped(recs, m - 1, a) && f == 0))
              && (k in index' ==> index'[k] == a && n'[a].flags == f)
    {
      RevertedKey(n0, index0, n, index, n', index', recs, m, s, k);
    }
  }

  lemma RevertedKey(n0: Table, index0: map<Key, Addr>, n: Table, index: map<Key, Addr>,
                    n': Table, index': map<Key, Addr>, recs: seq<LogRec>, m: nat, s: seq<Addr>, k: Key)
    requires 0 < m <= |recs| && Reverted(n0, index0, n, index, recs, m) && Indexed(n, s, index) && k in index0
    requires Undone(n, index, n', index', recs[m - 1]) && recs[m - 1].node in s
    requires recs[m - 1].prev == NULL <==> recs[m - 1].node !in Fold(recs[..m - 1])
    ensures var a := index0[k];
            && a in n0
            && var f := if Dropped(recs, m - 1, a) then n0[a].flags & PERSISTENT_FLAGS else n0[a].flags;
            && (k in index' <==> !(Dropped(recs, m - 1, a) && f == 0))
            && (k in index' ==> index'[k] == a && n'[a].flags == f)
  {
    var r, a := recs[m - 1], index0[k];
    DroppedStep(recs, m, a);
    hide Fold;
    if a == r.node {
      assert !Dropped(recs, m, a);
      assert k in index && index[k] == a && n[a].flags == n0[a].flags && n[a].key == k;
    } else {
      assert Dropped(recs, m - 1, a) <==> Dropped(recs, m, a);
      assert k in index ==> k != n[r.node].key;
    }
  }

  /** Every layer below the discarded one keeps its values. */
  lemma RevertedLayers(n0: Table, s0: seq<Addr>, index0: map<Key, Addr>, n: Table, index: map<Key, Addr>,
                       recs: seq<LogRec>, m: nat, marks: seq<nat>)
    requires m <= |recs| && Reverted(n0, index0, n, index, recs, m) && MarksOk(m, marks)
    ensures Layers(recs[..m], marks, index) == Layers(recs[..m], marks, index0)
  {
    forall k, i | k in index0 && 0 <= i < m && recs[..m][i].node == index0[k]
      ensures k in index && index[k] == index0[k]
    {
      FoldIsLast(recs[..m], index0[k]);
      assert !Dropped(recs, m, index0[k]);
    }
    LayersIndex(recs[..m], marks, index, index0);
  }

  // ---------- discarding a layer, as callers see it ----------

  /** The key has its only value in the top layer. */
  ghost predicate OnlyInTop(layers: seq<Layer>, k: Key)
    requires layers != []
  {
    k in layers[|layers| - 1] && Lookup(layers[..|layers| - 1], k).None?
  }

  ghost function DiscardFlags(layers: seq<Layer>, flags: map<Key, KeyFlags>): map<Key, KeyFlags>
    requires layers != []
  {
    map k | k in flags && !(OnlyInTop(layers, k) && flags[k] & PERSISTENT_FLAGS == 0) ::
      if OnlyInTop(layers, k) then flags[k] & PERSISTENT_FLAGS else flags[k]
  }

  lemma DroppedIsOnlyInTop(recs: seq<LogRec>, marks: seq<nat>, index: map<Key, Addr>, k: Key)
    requires MarksOk(|recs|, marks) && marks != [] && k in index
    ensures marks[|marks| - 1] <= |recs|
    ensures OnlyInTop(Layers(recs, marks, index), k) <==> Dropped(recs, marks[|marks| - 1], index[k])
  {
    hide Fold, Lookup, Layers;
    var below, m := marks[..|marks| - 1], marks[|marks| - 1];
    LookupIsNewest(recs[..m], below, index, k);
    LastLayer(recs, marks, index);
    assert recs[..m] + recs[m..] == recs;
    FoldConcat(recs[..m], recs[m..]);
  }

  lemma RevertedFlags(n0: Table, s0: seq<Addr>, index0: map<Key, Addr>, n: Table, s: seq<Addr>, index: map<Key, Addr>,
                      recs: seq<LogRec>, marks: seq<nat>)
    requires MarksOk(|recs|, marks) && marks != [] && Indexed(n0, s0, index0) && Indexed(n, s, index)
    requires Reverted(n0, index0, n, index, recs, marks[|marks| - 1])
    ensures FlagsOf(n, index) == DiscardFlags(Layers(recs, marks, index0), FlagsOf(n0, index0))
  {
    hide Dropped, OnlyInTop, Layers;
    FlagsKeys(n0, s0, index0);
    FlagsKeys(n, s, index);
    forall k | k in index0
      ensures OnlyInTop(Layers(recs, marks, index0), k) <==> Dropped(recs, marks[|marks| - 1], index0[k])
    {
      DroppedIsOnlyInTop(recs, marks, index0, k);
    }
  }

  lemma StagedAt(recs: seq<LogRec>, stages: seq<Checkpoint>, marks: seq<nat>, i: nat)
    requires Staged(recs, stages, marks) && i < |stages|
    ensures |marks| == |stages| && Marks(recs, marks[i], stages[i]) && MarksOk(|recs|, marks)
    ensures stages[i].blockSize <= MAX_BLOCK_SIZE && (stages[i].blocks > 0 ==> stages[i].blockSize > 0)
  {
  }

  lemma StagedPop(recs: seq<LogRec>, stages: seq<Checkpoint>, marks: seq<nat>)
    requires Staged(recs, stages, marks) && marks != []
    ensures var k := marks[|marks| - 1]; k <= |recs| && Staged(recs[..k], stages[..|stages| - 1], marks[..|marks| - 1])
  {
    var k := marks[|marks| - 1];
    forall i | 0 <= i < |marks| - 1 ensures Marks(recs[..k], marks[i], stages[i]) {
      assert marks[i] <= k;
    }
  }

  lemma CleanPop(dirty: bool, dirty': bool, n: Table, s: seq<Addr>, n': Table, s': seq<Addr>, recs: seq<LogRec>,
                 marks: seq<nat>)
    requires MarksOk(|recs|, marks) && marks != [] && CleanUnlessDirty(dirty, n, s, recs, marks) && (dirty ==> dirty')
    requires !dirty' ==> forall a | a in s' :: a in n' && n'[a].flags & PERSISTENT_FLAGS == 0
    ensures CleanUnlessDirty(dirty', n', s', recs[..marks[|marks| - 1]], marks[..|marks| - 1])
  {
  }
}
