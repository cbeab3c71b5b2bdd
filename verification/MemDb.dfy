/** The transaction buffer: a red-black tree over an arena, a value log that can be rolled back, and flags. */
module MemDb {
  import opened Addresses
  import opened Keys
  import opened RedBlack
  import opened NodeTable
  import opened Rebalancing
  import opened Removal
  import opened Search
  import opened Arenas
  import opened LogRecords
  import opened ValueLog
  import opened Layering
  import opened Accounting
  import opened Invariants
  import opened Flags

  datatype Error = NoError | CannotSetNilValue | EntryTooLarge | TxnTooLarge

  /** What callers see: the layers of values, bottom first, and the flags of the keys that have a node. */
  datatype Buffer = Buffer(layers: seq<Layer>, flags: map<Key, KeyFlags>)

  /** What a write does to the buffer: nothing if the entry is too large, otherwise the flags of the key are
      updated (a new key starts without flags) and the value, if there is one, goes to the top layer. */
  function Write(b: Buffer, entrySizeLimit: nat, key: Key, value: Option<Value>, ops: seq<FlagsOp>): Buffer
    requires b.layers != []
  {
    if value.Some? && |key| + |value.value| > entrySizeLimit then b
    else
      var f := ApplyOps(if key in b.flags then b.flags[key] else 0, ops);
      Buffer(if value.None? then b.layers else PutTop(b.layers, key, value.value), b.flags[key := f])
  }

  /** Whether a write makes the buffer dirty: without an open stage any, otherwise one that leaves a persistent flag. */
  function Dirties(b: Buffer, entrySizeLimit: nat, staged: bool, key: Key, value: Option<Value>,
                   ops: seq<FlagsOp>): bool {
    && (value.Some? ==> |key| + |value.value| <= entrySizeLimit)
    && (!staged || (ops != [] && ApplyOps(if key in b.flags then b.flags[key] else 0, ops) & PERSISTENT_FLAGS != 0))
  }

  /** A write is its part that concerns flags and, if there is one, its value. */
  lemma SplitWrite(b: Buffer, limit: nat, staged: bool, key: Key, value: Option<Value>, ops: seq<FlagsOp>)
    requires b.layers != []
    ensures value.Some? && |key| + |value.value| > limit ==>
              Write(b, limit, key, value, ops) == b && !Dirties(b, limit, staged, key, value, ops)
    ensures value.Some? && |key| + |value.value| <= limit ==>
              && Write(b, limit, key, value, ops)
                == Write(b, limit, key, None, ops).(layers := PutTop(b.layers, key, value.value))
              && Write(b, limit, key, None, ops).layers == b.layers
              && Dirties(b, limit, staged, key, value, ops) == Dirties(b, limit, staged, key, None, ops)
  {
  }

  lemma DirtiesIs(b: Buffer, limit: nat, staged: bool, key: Key, value: Option<Value>, ops: seq<FlagsOp>)
    ensures Dirties(b, limit, staged, key, value, ops) <==>
              && (value.None? || |key| + |value.value| <= limit)
              && (staged ==> ops != [] && Locks(ApplyOps(if key in b.flags then b.flags[key] else 0, ops)))
  {
    PersistentFlagsAreLocks();
  }

  /** A write without flag operations does not make the buffer dirty inside a stage, and does so outside. */
  lemma PlainDirties(b: Buffer, limit: nat, staged: bool, key: Key, value: Option<Value>, ops: seq<FlagsOp>)
    ensures staged && ops == [] ==> !Dirties(b, limit, staged, key, value, ops)
    ensures !staged && (value.None? || |key| + |value.value| <= limit) ==> Dirties(b, limit, staged, key, value, ops)
  {
  }

  /** Whether a value is overwritten in place: it belongs to the active stage and is as long as the new one. */
  ghost predicate InPlace(recs: seq<LogRec>, marks: seq<nat>, x: Addr, value: Value) {
    var j := LastIdx(recs, x);
    j >= 0 && TopStart(marks) <= j && value != [] && |recs[j].value| == |value|
  }

  /** The log after a value of node `x` has been set: overwritten in place, or appended. */
  ghost predicate ValueLogged(recs: seq<LogRec>, after: seq<LogRec>, marks: seq<nat>, x: Addr, value: Value) {
    if InPlace(recs, marks, x, value) then
      var j := LastIdx(recs, x);
      after == recs[j := recs[j].(value := value)]
    else
      |after| == |recs| + 1 && after[..|recs|] == recs && after[|recs|].node == x && after[|recs|].value == value
  }

  /** The log after a write: flags leave no record, and neither does an entry that is too large. */
  ghost predicate Logged(recs: seq<LogRec>, after: seq<LogRec>, marks: seq<nat>, index: map<Key, Addr>, limit: nat,
                         key: Key, value: Option<Value>)
  {
    if value.Some? && |key| + |value.value| <= limit
    then key in index && ValueLogged(recs, after, marks, index[key], value.value)
    else after == recs
  }

  /** Discarding the top layer.  Flags are not rolled back, except that a key that loses its only value keeps
      just its persistent flags, and disappears if it has none. */
  ghost function Discard(b: Buffer): Buffer
    requires b.layers != []
  {
    Buffer(b.layers[..|b.layers| - 1], DiscardFlags(b.layers, b.flags))
  }

  /** The limits that the source leaves to its callers: key lengths fit in 16 bits, a record fits in a block. */
  predicate EntryFits(key: Key, value: Value) {
    |key| <= MAX_KEY_LEN && HDR_SIZE + |value| <= MAX_BLOCK_SIZE
  }

  function SetError(entrySizeLimit: nat, key: Key, value: Value, newSize: int, bufferSizeLimit: nat): Error {
    if value == [] then CannotSetNilValue
    else if |key| + |value| > entrySizeLimit then EntryTooLarge
    else if newSize > bufferSizeLimit then TxnTooLarge
    else NoError
  }

  class MemDb {
    var root: Addr
    var nodes: Table
    const nodeMem: Arena
    const vlog: Vlog
    const entrySizeLimit: nat
    const bufferSizeLimit: nat
    var count: int
    var size: int
    var dirty: bool
    var stages: seq<Checkpoint>

    ghost var tree: Tree
    ghost var index: map<Key, Addr>
    ghost var marks: seq<nat>

    /** The nodes form a red-black tree in key order, and the index says where each key is. */
    ghost predicate Shape()
      reads `root, `nodes, `tree, `index
    {
      && At(nodes, root, Top, tree) && IsRedBlack(tree)
      && Ascending(nodes, InOrder(tree)) && Indexed(nodes, InOrder(tree), index)
    }

    ghost predicate Memory()
      reads `nodes, nodeMem
    {
      nodeMem.Valid() && Allocated(nodes, nodeMem.live)
    }

    /** The state of the values when only the first `m` records of the log count. */
    ghost predicate Values(m: nat)
      reads `nodes, `tree, `count, `size, vlog, vlog.mem
    {
      && vlog.Valid() && m <= |vlog.recs| && Linked(nodes, InOrder(tree), vlog.recs[..m])
      && count == |InOrder(tree)|
      && size == Total(InOrder(tree), nodes, Fold(vlog.recs[..m]))
    }

    ghost predicate Valid()
      reads this, nodeMem, vlog, vlog.mem
    {
      && nodeMem != vlog.mem
      && Memory() && Shape()
      && Values(|vlog.recs|)
      && Staged(vlog.recs, stages, marks)
      && CleanUnlessDirty(dirty, nodes, InOrder(tree), vlog.recs, marks)
    }

    /** How many blocks the larger of the two arenas has. */
    ghost function Blocks(): nat
      reads nodeMem, vlog, vlog.mem
    {
      if |nodeMem.blocks| < |vlog.mem.blocks| then |vlog.mem.blocks| else |nodeMem.blocks|
    }

    ghost predicate HasRoom()
      reads nodeMem, vlog, vlog.mem
    {
      Blocks() < MAX_UINT32
    }

    ghost function View(): Buffer
      requires Valid()
      reads this, nodeMem, vlog, vlog.mem
    {
      Buffer(Layers(vlog.recs, marks, index), FlagsOf(nodes, index))
    }

    constructor (entrySizeLimit: nat, bufferSizeLimit: nat)
      ensures Valid() && View() == Buffer([map[]], map[]) && !dirty && count == 0 && size == 0
      ensures this.entrySizeLimit == entrySizeLimit && this.bufferSizeLimit == bufferSizeLimit
      ensures stages == [] && marks == [] && vlog.recs == [] && Blocks() == 0
      ensures fresh(nodeMem) && fresh(vlog) && fresh(vlog.mem)
    {
      this.entrySizeLimit, this.bufferSizeLimit := entrySizeLimit, bufferSizeLimit;
      nodeMem := new Arena();
      vlog := new Vlog();
      root, nodes := NULL, map[NULL := MemNode(NULL, NULL, NULL, NULL, [], false, 0)];
      count, size, dirty, stages := 0, 0, false, [];
      tree, index, marks := Leaf, map[], [];
      new;
      hide Valid, View, Vlog.Valid, Arena.Valid;
      EmptyIsValid();
    }

    lemma EmptyIsValid()
      requires nodeMem != vlog.mem && nodeMem.Valid() && nodeMem.live == {} && vlog.Valid() && vlog.recs == []
      requires nodes == map[NULL := MemNode(NULL, NULL, NULL, NULL, [], false, 0)] && root == NULL
      requires stages == [] && marks == [] && tree == Leaf && index == map[] && !dirty && count == 0 && size == 0
      ensures Valid() && View() == Buffer([map[]], map[])
    {
      hide At, IsRedBlack, Ascending, Indexed, Linked, Allocated, Total, Fold, Layers, FlagsOf, InOrder, Vlog.Valid,
           Arena.Valid;
      EmptyBuffer(nodes);
      assert vlog.recs[..0] == [];
    }

    // ---------- stages ----------

    method Staging() returns (h: nat)
      requires Valid()
      modifies `stages, `marks
      ensures Valid() && h == |stages| == |old(stages)| + 1 && stages[..h - 1] == old(stages)
      ensures marks == old(marks) + [|vlog.recs|]
      ensures View() == old(View()).(layers := old(View().layers) + [map[]])
    {
      hide At, IsRedBlack, Ascending, Indexed, Linked, Allocated, Total, Fold, Layers, FlagsOf, InOrder, Partitioned,
           Chained, Vlog.Valid, Arena.Valid;
      var cp := vlog.TakeCheckpoint();
      StagePushes(vlog.recs, marks, index);
      stages := stages + [cp];
      marks := marks + [|vlog.recs|];
      h := |stages|;
    }

    /** Folds the top layer into the one below.  Any other handle than the newest makes the source panic. */
    method Release(h: nat)
      requires Valid() && 0 < h == |stages|
      modifies `stages, `marks, `dirty
      ensures Valid() && stages == old(stages)[..h - 1] && marks == old(marks)[..h - 1]
      ensures View() == old(View()).(layers := MergeTop(old(View().layers)))
      ensures dirty == (old(dirty) || (h == 1 && |vlog.recs| != old(marks)[0]))
    {
      hide At, IsRedBlack, Ascending, Indexed, Linked, Allocated, Total, Fold, Layers, FlagsOf, InOrder, Partitioned,
           Chained, Vlog.Valid, Arena.Valid;
      if h == 1 {
        var tail := vlog.TakeCheckpoint();
        vlog.SamePosition(marks[0], |vlog.recs|, stages[0], tail);
        if !stages[0].IsSamePosition(tail) {
          dirty := true;
        }
      }
      ReleaseMerges(vlog.recs, marks, index);
      stages := stages[..h - 1];
      marks := marks[..h - 1];
    }

    /** Empties the buffer. */
    method Reset()
      requires Valid()
      modifies this, nodeMem, vlog, vlog.mem
      ensures Valid() && View() == Buffer([map[]], map[]) && !dirty && count == 0 && size == 0
      ensures stages == [] && marks == [] && vlog.recs == [] && Blocks() == 0
    {
      hide Valid, View, Vlog.Valid, Arena.Valid;
      DifferentArenas();
      root := NULL;
      stages := [];
      dirty := false;
      size, count := 0, 0;
      vlog.Reset();
      nodeMem.Reset();
      nodes := map[NULL := MemNode(NULL, NULL, NULL, NULL, [], false, 0)];
      tree, index, marks := Leaf, map[], [];
      EmptyIsValid();
    }

    lemma HasLayers()
      requires Valid()
      ensures View().layers != []
    {
      hide At, IsRedBlack, Ascending, Indexed, Linked, Allocated, Total, Fold, FlagsOf, InOrder, Vlog.Valid,
           Arena.Valid;
    }

    lemma DifferentArenas()
      requires Valid()
      ensures nodeMem != vlog.mem
    {
    }

    // ---------- reading ----------

    /** The value on top of the layers.  A key without node, or with flags only, does not exist. */
    method Get(key: Key) returns (value: Option<Value>)
      requires Valid()
      ensures value == Lookup(View().layers, key)
    {
      hide At, IsRedBlack, Ascending, Indexed, Linked, Allocated, Total, Fold, Layers, FlagsOf, InOrder, Vlog.Valid,
           Arena.Valid;
      LookupIsNewest(vlog.recs, marks, index, key);
      assert vlog.recs[..|vlog.recs|] == vlog.recs;
      var x, _, _ := Locate(key);
      if x == NULL {
        return None;
      }
      ghost var j := NewestOf(key);
      if nodes[x].vptr == NULL {
        return None;
      }
      var v := vlog.GetValue(nodes[x].vptr, j);
      value := Some(v);
    }

    /** The value pointer of a key's node is its newest record, or null if it has none. */
    lemma NewestOf(key: Key) returns (j: nat)
      requires Valid() && key in index
      ensures index[key] in nodes
      ensures nodes[index[key]].vptr == NULL <==> index[key] !in Fold(vlog.recs)
      ensures nodes[index[key]].vptr == LastAddr(vlog.recs, index[key])
      ensures nodes[index[key]].vptr != NULL ==>
                && j < |vlog.recs| && j == LastIdx(vlog.recs, index[key])
                && vlog.recs[j].At() == nodes[index[key]].vptr && Fold(vlog.recs)[index[key]] == vlog.recs[j].value
    {
      hide At, IsRedBlack, Ascending, Allocated, Total, Fold, Layers, FlagsOf, InOrder, Vlog.Valid, Arena.Valid;
      var a, recs := index[key], vlog.recs;
      assert recs[..|recs|] == recs;
      FoldIsLast(recs, a);
      vlog.NullIsNone(|recs|, a);
      j := if LastIdx(recs, a) >= 0 then LastIdx(recs, a) else 0;
    }

    /** The key lemma of rolling back and of snapshots: a node's value pointer is its newest record. */
    lemma VptrIsNewest(a: Addr)
      requires Valid() && a in InOrder(tree)
      ensures a in nodes && nodes[a].vptr == LastAddr(vlog.recs, a)
      ensures nodes[a].vptr != NULL <==> a in Fold(vlog.recs)
    {
      hide At, IsRedBlack, Ascending, Indexed, Allocated, Total, Fold, Layers, FlagsOf, InOrder, Vlog.Valid,
           Arena.Valid;
      assert vlog.recs[..|vlog.recs|] == vlog.recs;
      FoldIsLast(vlog.recs, a);
      vlog.NullIsNone(|vlog.recs|, a);
    }

    method GetFlags(key: Key) returns (flags: Option<KeyFlags>)
      requires Valid()
      ensures var all := View().flags; flags == if key in all then Some(all[key]) else None
    {
      hide At, IsRedBlack, Ascending, Linked, Allocated, Total, Fold, Layers, InOrder, Vlog.Valid, Arena.Valid;
      var x, _, _ := Locate(key);
      if x == NULL {
        return None;
      }
      flags := Some(nodes[x].flags);
    }

    // ---------- writing ----------

    method Set(key: Key, value: Value) returns (err: Error)
      requires Valid() && HasRoom() && EntryFits(key, value)
      modifies this, nodeMem, vlog, vlog.mem
      ensures Valid() && err == SetError(entrySizeLimit, key, value, size, bufferSizeLimit)
      ensures err == CannotSetNilValue <==> value == []
      ensures err == EntryTooLarge <==> value != [] && |key| + |value| > entrySizeLimit
      ensures View() == old(if value == [] then View() else Write(View(), entrySizeLimit, key, Some(value), []))
      ensures dirty == old(dirty || (value != []
          && Dirties(View(), entrySizeLimit, stages != [], key, Some(value), [])))
      ensures stages != [] ==> dirty == old(dirty)
      ensures stages == old(stages) && marks == old(marks)
      ensures Grown(old(index), index) && Blocks() <= old(Blocks()) + 1
      ensures if value == [] then vlog.recs == old(vlog.recs)
              else Logged(old(vlog.recs), vlog.recs, marks, index, entrySizeLimit, key, Some(value))
    {
      hide Valid, View, Write, Dirties, Logged;
      if |value| == 0 {
        return CannotSetNilValue;
      }
      err := SetEntry(key, Some(value), []);
    }

    method SetWithFlags(key: Key, value: Value, ops: seq<FlagsOp>) returns (err: Error)
      requires Valid() && HasRoom() && EntryFits(key, value)
      modifies this, nodeMem, vlog, vlog.mem
      ensures Valid() && err == SetError(entrySizeLimit, key, value, size, bufferSizeLimit)
      ensures err == CannotSetNilValue <==> value == []
      ensures err == EntryTooLarge <==> value != [] && |key| + |value| > entrySizeLimit
      ensures View() == old(if value == [] then View() else Write(View(), entrySizeLimit, key, Some(value), ops))
      ensures dirty == old(dirty || (value != []
          && Dirties(View(), entrySizeLimit, stages != [], key, Some(value), ops)))
      ensures stages == old(stages) && marks == old(marks)
      ensures Grown(old(index), index) && Blocks() <= old(Blocks()) + 1
      ensures if value == [] then vlog.recs == old(vlog.recs)
              else Logged(old(vlog.recs), vlog.recs, marks, index, entrySizeLimit, key, Some(value))
    {
      hide Valid, View, Write, Dirties, Logged;
      if |value| == 0 {
        return CannotSetNilValue;
      }
      err := SetEntry(key, Some(value), ops);
    }

    /** Deleting writes the tombstone, a value of no bytes. */
    method Delete(key: Key) returns (err: Error)
      requires Valid() && HasRoom() && |key| <= MAX_KEY_LEN
      modifies this, nodeMem, vlog, vlog.mem
      ensures Valid()
      ensures err == (if |key| > entrySizeLimit then EntryTooLarge else if size > bufferSizeLimit then TxnTooLarge
          else NoError)
      ensures View() == old(Write(View(), entrySizeLimit, key, Some([]), []))
      ensures dirty == old(dirty || Dirties(View(), entrySizeLimit, stages != [], key, Some([]), []))
      ensures stages != [] ==> dirty == old(dirty)
      ensures stages == old(stages) && marks == old(marks)
      ensures Grown(old(index), index) && Blocks() <= old(Blocks()) + 1
      ensures Logged(old(vlog.recs), vlog.recs, marks, index, entrySizeLimit, key, Some([]))
    {
      hide Valid, View, Write, Dirties, Logged;
      err := SetEntry(key, Some([]), []);
    }

    method UpdateFlags(key: Key, ops: seq<FlagsOp>)
      requires Valid() && HasRoom() && |key| <= MAX_KEY_LEN
      modifies this, nodeMem, vlog, vlog.mem
      ensures Valid()
      ensures View() == old(Write(View(), entrySizeLimit, key, None, ops))
      ensures dirty == old(dirty || Dirties(View(), entrySizeLimit, stages != [], key, None, ops))
      ensures stages == old(stages) && marks == old(marks)
      ensures Grown(old(index), index) && Blocks() <= old(Blocks()) + 1
      ensures Logged(old(vlog.recs), vlog.recs, marks, index, entrySizeLimit, key, None)
    {
      hide Valid, View, Write, Dirties, Logged;
      var _ := SetEntry(key, None, ops);
    }

    /** The source's unexported set: no value means that only the flags are updated. */
    method SetEntry(key: Key, value: Option<Value>, ops: seq<FlagsOp>) returns (err: Error)
      requires Valid() && HasRoom() && EntryFits(key, value.GetOr([]))
      modifies this, nodeMem, vlog, vlog.mem
      ensures Valid()
      ensures View() == old(Write(View(), entrySizeLimit, key, value, ops))
      ensures dirty == old(dirty || Dirties(View(), entrySizeLimit, stages != [], key, value, ops))
      ensures stages != [] && ops == [] ==> dirty == old(dirty)
      ensures stages == [] && (value.None? || |key| + |value.value| <= entrySizeLimit) ==> dirty
      ensures stages == old(stages) && marks == old(marks)
      ensures Grown(old(index), index) && Blocks() <= old(Blocks()) + 1
      ensures Logged(old(vlog.recs), vlog.recs, marks, index, entrySizeLimit, key, value)
      ensures err == match value
                     case None => NoError
                     case Some(v) =>
                       if |key| + |v| > entrySizeLimit then EntryTooLarge
                       else if size > bufferSizeLimit then TxnTooLarge else NoError
    {
      hide Valid, View, Grown, Write, Dirties, ValueLogged, ApplyOps, LockBits;
      GrownSame(index);
      DifferentArenas();
      HasLayers();
      ghost var b := View();
      SplitWrite(b, entrySizeLimit, stages != [], key, value, ops);
      PlainDirties(b, entrySizeLimit, stages != [], key, value, ops);
      if value.Some? {
        var entrySize := |key| + |value.value|;
        if entrySize > entrySizeLimit {
          return EntryTooLarge;
        }
      }
      var x := FindAndFlag(key, ops);
      if value.None? {
        return NoError;
      }
      SetValue(key, x, value.value);
      if size > bufferSizeLimit {
        return TxnTooLarge;
      }
      return NoError;
    }

    /** The part of a write that does not concern the value. */
    method FindAndFlag(key: Key, ops: seq<FlagsOp>) returns (x: Addr)
      requires Valid() && nodeMem.HasRoom() && |key| <= MAX_KEY_LEN
      modifies this, nodeMem
      ensures Valid() && key in index && x == index[key]
      ensures View() == old(Write(View(), entrySizeLimit, key, None, ops))
      ensures stages == old(stages) && marks == old(marks)
      ensures dirty == old(dirty || Dirties(View(), entrySizeLimit, stages != [], key, None, ops))
          && (stages == [] ==> dirty)
      ensures Grown(old(index), index) && |nodeMem.blocks| <= |old(nodeMem.blocks)| + 1
    {
      hide Valid, View, Grown;
      MarkDirty();
      x := Traverse(key);
      if |ops| != 0 {
        SetFlags(key, x, ops);
      }
    }

    lemma GrownSame(index: map<Key, Addr>)
      ensures Grown(index, index)
    {
    }

    /** Without an open stage every write makes the buffer dirty. */
    method MarkDirty()
      requires Valid()
      modifies `dirty
      ensures Valid() && View() == old(View()) && dirty == (old(dirty) || stages == [])
    {
      if |stages| == 0 {
        dirty := true;
      }
    }

    method SetFlags(key: Key, x: Addr, ops: seq<FlagsOp>)
      requires Valid() && key in index && x == index[key]
      modifies `nodes, `dirty
      ensures Valid() && View() == old(View().(flags := View().flags[key := ApplyOps(View().flags[key], ops)]))
      ensures dirty == old(dirty || ApplyOps(View().flags[key], ops) & PERSISTENT_FLAGS != 0)
    {
      hide At, IsRedBlack, Ascending, Indexed, Linked, Allocated, Total, Fold, Layers, FlagsOf, InOrder, Vlog.Valid,
           Arena.Valid;
      IndexedAddr(nodes, InOrder(tree), index, key);
      FlagsKeys(nodes, InOrder(tree), index);
      assert vlog.recs[..|vlog.recs|] == vlog.recs;
      var flags := ApplyFlagsOps(nodes[x].flags, ops);
      if flags & PERSISTENT_FLAGS != 0 {
        dirty := true;
      }
      nodes := nodes[x := nodes[x].(flags := flags)];
      Reflagged(key, old(nodes), old(dirty), flags);
    }

    lemma Reflagged(key: Key, n: Table, dirty0: bool, flags: KeyFlags)
      requires key in index && index[key] in n && nodeMem != vlog.mem && vlog.Valid()
      requires nodes == n[index[key] := n[index[key]].(flags := flags)]
      requires nodeMem.Valid() && Allocated(n, nodeMem.live)
      requires At(n, root, Top, tree) && IsRedBlack(tree) && Ascending(n, InOrder(tree))
          && Indexed(n, InOrder(tree), index)
      requires Linked(n, InOrder(tree), vlog.recs) && Staged(vlog.recs, stages, marks)
      requires count == |InOrder(tree)| && size == Total(InOrder(tree), n, Fold(vlog.recs))
      requires CleanUnlessDirty(dirty0, n, InOrder(tree), vlog.recs, marks)
      requires dirty == (dirty0 || flags & PERSISTENT_FLAGS != 0)
      ensures Valid() && View() == Buffer(Layers(vlog.recs, marks, index), FlagsOf(n, index)[key := flags])
    {
      hide At, IsRedBlack, Ascending, Indexed, Linked, Allocated, Total, Fold, Layers, FlagsOf, InOrder, Vlog.Valid,
           Arena.Valid;
      hide Staged, CleanUnlessDirty;
      var s, x := InOrder(tree), index[key];
      assert vlog.recs[..|vlog.recs|] == vlog.recs;
      IndexedAddr(n, s, index, key);
      LinkedNodes(n, s, vlog.recs);
      PatchedShape(n, nodes, root, tree, index, nodeMem.live, x, Fold(vlog.recs));
      ReflaggedLinks(n, s, vlog.recs, x, flags);
      ReflaggedFlags(n, s, index, key, flags);
      ReflaggedClean(dirty0, dirty, n, s, vlog.recs, marks, x, flags);
    }

    /** The present value, and whether it is overwritten in place. */
    method OldValue(key: Key, x: Addr, value: Value) returns (oldVal: Value, inPlace: bool)
      requires Valid() && key in index && x == index[key]
      ensures inPlace <==> InPlace(vlog.recs, marks, x, value)
      ensures |oldVal| == ValueBytes(Fold(vlog.recs), x)
    {
      hide At, IsRedBlack, Ascending, Indexed, Linked, Allocated, Total, Fold, Layers, FlagsOf, InOrder, Vlog.Valid,
           Arena.Valid;
      IndexedAddr(nodes, InOrder(tree), index, key);
      assert vlog.recs[..|vlog.recs|] == vlog.recs;
      NewestIdx(x);
      BytesOfLast(vlog.recs, x);
      oldVal := [];
      if nodes[x].vptr == NULL {
        return oldVal, false;
      }
      ghost var j := NewestOf(key);
      oldVal := vlog.GetValue(nodes[x].vptr, j);
      if |oldVal| == 0 {
        return oldVal, false;
      }
      var modifiable := true;
      if |stages| > 0 {
        modifiable := vlog.CanModify(stages[|stages| - 1], nodes[x].vptr, marks[|marks| - 1], j);
      }
      inPlace := modifiable && |oldVal| == |value|;
    }

    /** Overwrites the newest value in place if it belongs to the active stage and has the same length,
        and appends a record otherwise. */
    method SetValue(key: Key, x: Addr, value: Value)
      requires Valid() && key in index && x == index[key]
      requires vlog.mem.HasRoom() && HDR_SIZE + |value| <= MAX_BLOCK_SIZE && (stages == [] ==> dirty)
      modifies `nodes, `size, vlog, vlog.mem
      ensures Valid() && View() == old(View().(layers := PutTop(View().layers, key, value)))
      ensures |vlog.mem.blocks| <= |old(vlog.mem.blocks)| + 1
      ensures ValueLogged(old(vlog.recs), vlog.recs, marks, x, value)
    {
      hide At, IsRedBlack, Ascending, Indexed, Linked, Allocated, Total, Fold, Layers, FlagsOf, InOrder, Vlog.Valid,
           Arena.Valid;
      IndexedAddr(nodes, InOrder(tree), index, key);
      assert vlog.recs[..|vlog.recs|] == vlog.recs;
      NewestIdx(x);
      InTree(nodes, root, tree, x);
      AllocatedAddr(nodes, nodeMem.live, x);
      ghost var j := NewestOf(key);
      var oldVal, inPlace := OldValue(key, x, value);
      if inPlace {
        vlog.Overwrite(nodes[x].vptr, value, j);
        Overwritten(key, old(vlog.recs), j, value);
        return;
      }
      var addr := vlog.AppendValue(x, nodes[x].vptr, value);
      nodes := nodes[x := nodes[x].(vptr := addr)];
      size := size - |oldVal| + |value|;
      Appended(key, old(nodes), old(vlog.recs), old(size), value);
    }

    lemma NewestIdx(x: Addr)
      requires Valid() && x in InOrder(tree)
      ensures x in nodes && (nodes[x].vptr == NULL <==> LastIdx(vlog.recs, x) < 0)
    {
      hide At, IsRedBlack, Ascending, Indexed, Linked, Allocated, Total, Fold, Layers, FlagsOf, InOrder, Vlog.Valid,
           Arena.Valid;
      VptrIsNewest(x);
      FoldIsLast(vlog.recs, x);
    }

    lemma Overwritten(key: Key, recs: seq<LogRec>, j: nat, value: Value)
      requires nodeMem != vlog.mem && Memory() && Shape() && vlog.Valid() && key in index
      requires j < |recs| && vlog.recs == recs[j := recs[j].(value := value)] && |value| == |recs[j].value|
      requires j == LastIdx(recs, index[key]) && TopStart(marks) <= j
      requires Linked(nodes, InOrder(tree), recs) && Staged(recs, stages, marks)
      requires count == |InOrder(tree)| && size == Total(InOrder(tree), nodes, Fold(recs))
      requires CleanUnlessDirty(dirty, nodes, InOrder(tree), recs, marks)
      ensures Valid() && View().layers == PutTop(Layers(recs, marks, index), key, value)
    {
      hide At, IsRedBlack, Ascending, Indexed, Linked, Allocated, Total, Fold, Layers, FlagsOf, InOrder, Vlog.Valid,
           Arena.Valid;
      var s, x := InOrder(tree), index[key];
      assert vlog.recs[..|vlog.recs|] == vlog.recs;
      IndexedAddr(nodes, s, index, key);
      IndexedInjective(nodes, s, index);
      LinkedNodes(nodes, s, recs);
      LinkedOverwrite(nodes, s, recs, j, value);
      StagedOverwrite(recs, stages, marks, j, value);
      OrderNoRepeats(nodes, root, tree);
      FoldOverwrite(recs, x, j, value);
      FoldIsLast(recs, x);
      TotalPut(s, nodes, Fold(recs), x, value);
      OverwritePuts(recs, marks, index, key, j, value);
    }

    lemma Appended(key: Key, n: Table, recs: seq<LogRec>, size0: int, value: Value)
      requires key in index && index[key] in n && nodeMem != vlog.mem && vlog.Valid()
      requires |vlog.recs| == |recs| + 1 && vlog.recs[..|recs|] == recs
      requires vlog.recs[|recs|].node == index[key] && vlog.recs[|recs|].value == value
      requires nodes == n[index[key] := n[index[key]].(vptr := vlog.recs[|recs|].At())]
      requires nodeMem.Valid() && Allocated(n, nodeMem.live)
      requires At(n, root, Top, tree) && IsRedBlack(tree) && Ascending(n, InOrder(tree))
          && Indexed(n, InOrder(tree), index)
      requires Linked(n, InOrder(tree), recs) && Staged(recs, stages, marks)
      requires count == |InOrder(tree)| && size0 == Total(InOrder(tree), n, Fold(recs))
      requires size == size0 - ValueBytes(Fold(recs), index[key]) + |value|
      requires CleanUnlessDirty(dirty, n, InOrder(tree), recs, marks) && (marks == [] ==> dirty)
      ensures Valid() && View().layers == PutTop(Layers(recs, marks, index), key, value)
      ensures View().flags == FlagsOf(n, index)
    {
      hide At, IsRedBlack, Ascending, Indexed, Linked, Allocated, Total, Fold, Layers, FlagsOf, InOrder, Vlog.Valid,
           Arena.Valid;
      hide Staged, CleanUnlessDirty, ValueBytes;
      var s, x, r := InOrder(tree), index[key], vlog.recs[|recs|];
      assert vlog.recs == recs + [r] && vlog.recs[..|vlog.recs|] == vlog.recs;
      IndexedAddr(n, s, index, key);
      IndexedInjective(n, s, index);
      PatchedShape(n, nodes, root, tree, index, nodeMem.live, x, Fold(vlog.recs));
      LinkedNodes(n, s, recs);
      LinkedAppend(n, s, recs, r);
      StagedAppend(recs, stages, marks, r);
      StagedMarks(recs, stages, marks);
      OrderNoRepeats(n, root, tree);
      FoldConcat(recs, [r]);
      FoldOne(r);
      assert Fold(vlog.recs) == Fold(recs)[x := value];
      TotalPut(s, n, Fold(recs), x, value);
      AppendPuts(recs, marks, index, key, r);
      AppendedClean(dirty, n, s, recs, marks, r, r.At());
      RevaluedFlags(n, index, x, r.At());
    }

    // ---------- rolling back ----------

    /** Discards the top layer: its records are undone from the newest to the oldest and the log is cut back.
        A handle above the newest stage is ignored; one below it makes the source panic. */
    method Cleanup(h: nat)
      requires Valid() && |stages| <= h && 0 < h
      modifies this, vlog, vlog.mem
      ensures Valid()
      ensures h > old(|stages|) ==> View() == old(View()) && stages == old(stages)
      ensures h == old(|stages|) ==> View() == old(Discard(View())) && stages == old(stages)[..h - 1]
      ensures Blocks() <= old(Blocks()) && dirty == old(dirty)
    {
      hide At, IsRedBlack, Ascending, Indexed, Linked, Allocated, Total, Fold, Layers, FlagsOf, InOrder, Vlog.Valid,
           Arena.Valid;
      hide Staged, CleanUnlessDirty;
      if h > |stages| {
        return;
      }
      StagedAt(vlog.recs, stages, marks, h - 1);
      ghost var k := marks[h - 1];
      var cp := stages[h - 1];
      ghost var n0, index0, s0 := nodes, index, InOrder(tree);
      vlog.ReachableMark(k, cp);
      CleanFlags();
      assert vlog.recs[..|vlog.recs|] == vlog.recs;
      RevertToCheckpoint(cp, k);
      vlog.Truncate(cp, k);
      stages := stages[..h - 1];
      marks := marks[..h - 1];
      CleanedUp(n0, index0, s0, old(dirty), old(vlog.recs), old(stages), old(marks));
    }

    /** Undoes the records after the first `k`, walking the log backwards from its end. */
    method RevertToCheckpoint(cp: Checkpoint, ghost k: nat)
      requires Memory() && Shape() && Values(|vlog.recs|) && Marks(vlog.recs, k, cp) && FlagsClean()
      modifies `nodes, `root, `tree, `index, `count, `size, `dirty
      ensures Memory() && Shape() && Values(k) && FlagsClean()
      ensures Reverted(old(nodes), old(index), nodes, index, vlog.recs, k)
      ensures dirty == old(dirty)
    {
      hide At, IsRedBlack, Ascending, Indexed, Linked, Allocated, Total, Fold, Layers, FlagsOf, InOrder, Vlog.Valid,
           Arena.Valid;
      assert vlog.Valid() && Indexed(nodes, InOrder(tree), index);
      hide Shape, Memory, Values, FlagsClean, Reverted, Undone, Dropped, SameData, Chained, Partitioned;
      var cursor := vlog.TakeCheckpoint();
      ghost var m := |vlog.recs|;
      NothingReverted(nodes, InOrder(tree), index, vlog.recs);
      vlog.SamePosition(k, m, cp, cursor);
      while !cp.IsSamePosition(cursor)
        invariant k <= m <= |vlog.recs| && Marks(vlog.recs, m, cursor) && (cp.IsSamePosition(cursor) <==> k == m)
        invariant Memory() && Shape() && Values(m) && FlagsClean() && vlog.Valid()
        invariant Reverted(old(nodes), old(index), nodes, index, vlog.recs, m)
        invariant dirty == old(dirty)
        decreases m
      {
        var hdr := vlog.ReadHdr(Addr(cursor.blocks - 1, cursor.offsetInBlock), m - 1);
        UndoNext(hdr, m, old(nodes), old(index));
        cursor := vlog.MoveBackCursor(cursor, hdr, m);
        m := m - 1;
        vlog.SamePosition(k, m, cp, cursor);
      }
    }

    /** Undoes one record and accounts for it. */
    method UndoNext(hdr: Hdr, ghost m: nat, ghost n0: Table, ghost index0: map<Key, Addr>)
      requires Memory() && Shape() && Values(m) && FlagsClean() && 0 < m <= |vlog.recs|
      requires hdr == Hdr(vlog.recs[m - 1].node, vlog.recs[m - 1].prev, |vlog.recs[m - 1].value|)
      requires Reverted(n0, index0, nodes, index, vlog.recs, m)
      modifies `nodes, `root, `tree, `index, `count, `size, `dirty
      ensures Memory() && Shape() && Values(m - 1) && FlagsClean() && dirty == old(dirty)
      ensures Reverted(n0, index0, nodes, index, vlog.recs, m - 1)
    {
      hide Shape, Memory, Values, FlagsClean, Reverted, Undone, Dropped, SameData, Indexed, Fold;
      ghost var s := UndoFacts(m);
      UndoRecord(hdr, m);
      RevertedStep(n0, index0, old(nodes), old(index), nodes, index, vlog.recs, m, s);
    }

    /** A buffer that is not dirty has no persistent flags. */
    ghost predicate FlagsClean()
      reads `nodes, `tree, `dirty
    {
      !dirty ==> forall a | a in InOrder(tree) :: a in nodes && nodes[a].flags & PERSISTENT_FLAGS == 0
    }

    /** One turn of the source's revert loop: the node gets its previous value back; a node whose first value goes
        keeps its persistent flags, and leaves the tree if it has none. */
    method UndoRecord(hdr: Hdr, ghost m: nat)
      requires Memory() && Shape() && Values(m) && FlagsClean() && 0 < m <= |vlog.recs|
      requires hdr == Hdr(vlog.recs[m - 1].node, vlog.recs[m - 1].prev, |vlog.recs[m - 1].value|)
      modifies `nodes, `root, `tree, `index, `count, `size, `dirty
      ensures Memory() && Shape() && Values(m - 1) && FlagsClean()
      ensures Undone(old(nodes), old(index), nodes, index, vlog.recs[m - 1])
      ensures dirty == old(dirty)
    {
      hide At, IsRedBlack, Ascending, Indexed, Linked, Allocated, Total, Fold, Layers, FlagsOf, InOrder, Vlog.Valid,
           Arena.Valid;
      hide Chained, ValueBytes, Undone, SameData;
      ghost var recs := vlog.recs;
      vlog.LogChained();
      LinkedUndo(nodes, InOrder(tree), recs, m);
      var node := hdr.nodeAddr;
      nodes := nodes[node := nodes[node].(vptr := hdr.oldValue)];
      size := size - hdr.valueLen;
      UndonePointer(old(nodes), old(size), m);
      UndoneKept(old(nodes), index, recs[m - 1]);
      ghost var vals := Fold(recs[..m - 1]);
      if node !in vals { NotInFold(vals, node); }
      if hdr.oldValue == NULL {
        ghost var n1 := nodes;
        KeepOrDrop(node, m - 1);
        if n1[node].flags & PERSISTENT_FLAGS == 0 {
          UndoneDropped(old(nodes), n1, nodes, old(index), recs[m - 1]);
        }
      } else {
        ghost var j := LastIdx(recs[..m - 1], node);
        var v := vlog.GetValue(hdr.oldValue, j);
        size := size + |v|;
      }
    }

    /** The case of a node without records. */
    method KeepOrDrop(node: Addr, ghost m: nat)
      requires Memory() && Shape() && Values(m) && FlagsClean()
      requires node in InOrder(tree) && node in nodes && node !in Fold(vlog.recs[..m])
      modifies `nodes, `root, `tree, `index, `count, `size, `dirty
      ensures Memory() && Shape() && Values(m) && FlagsClean() && dirty == old(dirty)
      ensures var f := old(nodes)[node].flags & PERSISTENT_FLAGS;
              if f == 0 then index == old(index) - {old(nodes)[node].key} && SameData(old(nodes), nodes)
              else index == old(index) && nodes == old(nodes)[node := old(nodes)[node].(flags := f)]
    {
      hide At, IsRedBlack, Ascending, Indexed, Linked, Allocated, Total, Fold, Layers, FlagsOf, InOrder, Vlog.Valid,
           Arena.Valid;
      hide SameData;
      var keptFlags := nodes[node].flags & PERSISTENT_FLAGS;
      if keptFlags == 0 {
        DropNode(node, m);
      } else {
        nodes := nodes[node := nodes[node].(flags := keptFlags)];
        dirty := true;
        FlagsKept(old(nodes), node, keptFlags, m);
      }
    }

    /** The case of a node without records and persistent flags. */
    method DropNode(node: Addr, ghost m: nat)
      requires Memory() && Shape() && Values(m) && FlagsClean()
      requires node in InOrder(tree) && node in nodes && node !in Fold(vlog.recs[..m])
      modifies `nodes, `root, `tree, `index, `count, `size
      ensures Memory() && Shape() && Values(m) && FlagsClean()
      ensures index == old(index) - {old(nodes)[node].key} && SameData(old(nodes), nodes)
    {
      hide At, IsRedBlack, Ascending, Indexed, Linked, Allocated, Total, Fold, Layers, FlagsOf, InOrder, Vlog.Valid,
           Arena.Valid;
      ghost var i := PositionOf(node);
      ghost var key := nodes[node].key;
      OrderNoRepeats(nodes, root, tree);
      DeleteNode(node, i);
      index := index - {key};
      NodeRemoved(old(nodes), old(InOrder(tree)), old(index), old(size), i, m);
    }

    lemma CleanFlags()
      requires Valid()
      ensures FlagsClean()
    {
      hide At, IsRedBlack, Ascending, Indexed, Linked, Allocated, Total, Fold, Layers, FlagsOf, InOrder, Vlog.Valid,
           Arena.Valid;
    }

    /** What a record says about its node before it is undone. */
    lemma UndoFacts(m: nat) returns (s: seq<Addr>)
      requires Shape() && Values(m) && 0 < m <= |vlog.recs|
      ensures Indexed(nodes, s, index) && vlog.recs[m - 1].node in s
      ensures vlog.recs[m - 1].prev == NULL <==> vlog.recs[m - 1].node !in Fold(vlog.recs[..m - 1])
    {
      hide At, IsRedBlack, Ascending, Indexed, Linked, Allocated, Total, Fold, Layers, FlagsOf, InOrder, Vlog.Valid,
           Arena.Valid;
      hide Chained;
      s := InOrder(tree);
      vlog.LogChained();
      LinkedUndo(nodes, s, vlog.recs, m);
      ChainedAt(vlog.recs, m - 1);
      vlog.NullIsNone(m - 1, vlog.recs[m - 1].node);
      FoldIsLast(vlog.recs[..m - 1], vlog.recs[m - 1].node);
    }

    /** After the value pointer has been put back, only the size is still short of the previous value. */
    lemma UndonePointer(n: Table, size0: int, m: nat)
      requires 0 < m <= |vlog.recs| && vlog.Valid() && nodeMem.Valid() && Allocated(n, nodeMem.live)
      requires At(n, root, Top, tree) && IsRedBlack(tree) && Ascending(n, InOrder(tree))
          && Indexed(n, InOrder(tree), index)
      requires Linked(n, InOrder(tree), vlog.recs[..m])
      requires var r := vlog.recs[m - 1];
               r.node in n && nodes == n[r.node := n[r.node].(vptr := r.prev)] && size == size0 - |r.value|
      requires size0 == Total(InOrder(tree), n, Fold(vlog.recs[..m]))
      ensures Memory() && Shape() && Linked(nodes, InOrder(tree), vlog.recs[..m - 1])
      ensures forall a | a in InOrder(tree) :: a in nodes
      ensures var r, vals := vlog.recs[m - 1], Fold(vlog.recs[..m - 1]);
              && size == Total(InOrder(tree), nodes, vals) - ValueBytes(vals, r.node)
              && (r.prev == NULL <==> r.node !in vals)
              && (r.prev != NULL ==>
                    && var j := LastIdx(vlog.recs[..m - 1], r.node);
                    && 0 <= j && vlog.recs[j].At() == r.prev && ValueBytes(vals, r.node) == |vlog.recs[j].value|)
    {
      hide At, IsRedBlack, Ascending, Indexed, Linked, Allocated, Total, Fold, Layers, FlagsOf, InOrder, Vlog.Valid,
           Arena.Valid;
      hide ValueBytes, Chained;
      var s, recs, r := InOrder(tree), vlog.recs, vlog.recs[m - 1];
      vlog.LogChained();
      LinkedUndo(n, s, recs, m);
      ChainedAt(recs, m - 1);
      vlog.NullIsNone(m - 1, r.node);
      FoldIsLast(recs[..m - 1], r.node);
      assert recs[..m] == recs[..m - 1] + [r];
      FoldConcat(recs[..m - 1], [r]);
      FoldOne(r);
      assert Fold(recs[..m]) == Fold(recs[..m - 1])[r.node := r.value];
      LinkedNodes(n, s, recs[..m]);
      PatchedShape(n, nodes, root, tree, index, nodeMem.live, r.node, Fold(recs[..m - 1]));
      OrderNoRepeats(n, root, tree);
      TotalPut(s, n, Fold(recs[..m - 1]), r.node, r.value);
      LinkedNodes(nodes, s, recs[..m - 1]);
      BytesOfLast(recs[..m - 1], r.node);
    }

    lemma PositionOf(a: Addr) returns (i: nat)
      requires a in InOrder(tree)
      ensures i < |InOrder(tree)| && InOrder(tree)[i] == a
    {
      hide InOrder;
      i :| 0 <= i < |InOrder(tree)| && InOrder(tree)[i] == a;
    }

    /** The node that lost its only value has left the tree. */
    lemma NodeRemoved(n: Table, s: seq<Addr>, index0: map<Key, Addr>, size0: int, i: nat, m: nat)
      requires vlog.Valid() && m <= |vlog.recs| && nodeMem.Valid() && Allocated(n, nodeMem.live) && NoRepeats(s)
      requires i < |s| && Ascending(n, s) && Indexed(n, s, index0) && Linked(n, s, vlog.recs[..m])
      requires s[i] in n && s[i] !in Fold(vlog.recs[..m]) && index == index0 - {n[s[i]].key}
      requires At(nodes, root, Top, tree) && IsRedBlack(tree) && InOrder(tree) == s[..i] + s[i + 1..]
          && SameData(n, nodes)
      requires count == |s| - 1 && size0 == Total(s, n, Fold(vlog.recs[..m])) && size == size0 - |n[s[i]].key|
      requires !dirty ==> forall a | a in s :: a in n && n[a].flags & PERSISTENT_FLAGS == 0
      ensures Memory() && Shape() && Values(m) && FlagsClean()
    {
      hide At, IsRedBlack, Ascending, Indexed, Linked, Allocated, Total, Fold, Layers, FlagsOf, InOrder, Vlog.Valid,
           Arena.Valid;
      hide SameData, NoRepeats, ValueBytes;
      var s', vals := s[..i] + s[i + 1..], Fold(vlog.recs[..m]);
      NotInFold(vals, s[i]);
      SameKeys(n, nodes);
      FoldIsLast(vlog.recs[..m], s[i]);
      LinkedNodes(n, s, vlog.recs[..m]);
      LinkedRemove(n, s, vlog.recs[..m], i);
      LinkedData(n, nodes, s', vlog.recs[..m]);
      IndexedRemove(n, s, index0, i);
      IndexedData(n, nodes, s', index);
      AscendingRemove(n, s, i);
      AscendingData(n, nodes, s');
      AllocatedData(n, nodes, nodeMem.live);
      TotalWithout(s, i, n, vals);
      TotalFrame(s', n, vals, nodes, vals);
      assert forall a | a in s' :: a in s;
    }

    /** The node that lost its only value stays for the sake of its persistent flags. */
    lemma FlagsKept(n: Table, x: Addr, f: KeyFlags, m: nat)
      requires vlog.Valid() && m <= |vlog.recs| && nodeMem.Valid() && Allocated(n, nodeMem.live)
      requires At(n, root, Top, tree) && IsRedBlack(tree) && Ascending(n, InOrder(tree))
          && Indexed(n, InOrder(tree), index)
      requires Linked(n, InOrder(tree), vlog.recs[..m]) && x in InOrder(tree) && x in n
      requires count == |InOrder(tree)| && size == Total(InOrder(tree), n, Fold(vlog.recs[..m]))
      requires nodes == n[x := n[x].(flags := f)] && dirty
      ensures Memory() && Shape() && Values(m) && FlagsClean()
    {
      hide At, IsRedBlack, Ascending, Indexed, Linked, Allocated, Total, Fold, Layers, FlagsOf, InOrder, Vlog.Valid,
           Arena.Valid;
      LinkedNodes(n, InOrder(tree), vlog.recs[..m]);
      PatchedShape(n, nodes, root, tree, index, nodeMem.live, x, Fold(vlog.recs[..m]));
      ReflaggedLinks(n, InOrder(tree), vlog.recs[..m], x, f);
    }

    /** The state after the log has been cut back. */
    lemma CleanedUp(n0: Table, index0: map<Key, Addr>, s0: seq<Addr>, dirty0: bool,
                    recs: seq<LogRec>, stages0: seq<Checkpoint>, marks0: seq<nat>)
      requires marks0 != [] && Staged(recs, stages0, marks0) && Indexed(n0, s0, index0)
      requires CleanUnlessDirty(dirty0, n0, s0, recs, marks0) && (dirty0 ==> dirty) && FlagsClean()
      requires stages == stages0[..|stages0| - 1] && marks == marks0[..|marks0| - 1]
      requires marks0[|marks0| - 1] <= |recs| && vlog.recs == recs[..marks0[|marks0| - 1]]
      requires nodeMem != vlog.mem && Memory() && Shape() && vlog.Valid()
      requires Linked(nodes, InOrder(tree), vlog.recs) && count == |InOrder(tree)|
      requires size == Total(InOrder(tree), nodes, Fold(vlog.recs))
      requires Reverted(n0, index0, nodes, index, recs, marks0[|marks0| - 1])
      ensures Valid()
      ensures MarksOk(|recs|, marks0)
      ensures View() == Discard(Buffer(Layers(recs, marks0, index0), FlagsOf(n0, index0)))
    {
      hide At, IsRedBlack, Ascending, Indexed, Linked, Allocated, Total, Fold, Layers, FlagsOf, InOrder, Vlog.Valid,
           Arena.Valid;
      hide Reverted;
      StagedPop(recs, stages0, marks0);
      StagedMarks(recs, stages0, marks0);
      CleanPop(dirty0, dirty, n0, s0, nodes, InOrder(tree), recs, marks0);
      hide Staged, CleanUnlessDirty;
      assert vlog.recs[..|vlog.recs|] == vlog.recs;
      CleanupPops(recs, marks0, index0);
      RevertedLayers(n0, s0, index0, nodes, index, recs, marks0[|marks0| - 1], marks);
      RevertedFlags(n0, s0, index0, nodes, InOrder(tree), index, recs, marks0);
    }


    // ---------- search and insertion ----------

    /** The first half of the source's traverse: the node of a key, or the place where it belongs. */
    method Locate(key: Key) returns (x: Addr, y: Addr, ghost c: Ctx)
      requires Shape()
      ensures x != NULL <==> key in index
      ensures x != NULL ==> x == index[key]
      ensures x == NULL ==> HangsAt(key, y, c)
    {
      hide At, IsRedBlack, Ascending, Indexed, Linked, Allocated, Total, Fold, Layers, FlagsOf, InOrder, Vlog.Valid,
           Arena.Valid;
      hide Embeds, CtxEmbeds, Distinct, CtxDistinct, Separate, Addrs, CtxAddrs, Plug, Before, After, AllLess,
           AllGreater;
      x, y := root, NULL;
      var found := false;
      c := Top;
      ghost var t := tree;
      PlugTop(tree);
      AtRoot(nodes, root, tree);
      EmptyCtx(nodes, tree, key);
      while x != NULL && !found
        invariant At(nodes, root, c, t) && x == AddrOf(t) && (x == NULL <==> t.Leaf?) && Plug(c, t) == tree
        invariant Ascending(nodes, Before(c) + InOrder(t) + After(c))
        invariant AllLess(nodes, Before(c), key) && AllGreater(nodes, After(c), key)
        invariant !found ==> y == UpOf(c) && (c.Under? ==> y in nodes && (c.side == L <==> Less(key, nodes[y].key)))
        invariant found ==> t.Branch? && x in nodes && nodes[x].key == key
        decreases !found, t
      {
        y := x;
        SpliceFootprint(nodes, root, c, t);
        Search.Descend(nodes, c, t, key);
        LessTotal(key, nodes[x].key);
        var cmp := Compare(key, nodes[x].key);
        if cmp < 0 {
          x := nodes[x].left;
          Zoom(nodes, root, L, c, t.addr, t.red, t.right, t.left);
          PlugStep(L, c, t.addr, t.red, t.right, t.left);
          c, t := Under(L, c, t.addr, t.red, t.right), t.left;
        } else if cmp > 0 {
          x := nodes[x].right;
          LessAsymmetric(nodes[y].key, key);
          Zoom(nodes, root, R, c, t.addr, t.red, t.left, t.right);
          PlugStep(R, c, t.addr, t.red, t.left, t.right);
          c, t := Under(R, c, t.addr, t.red, t.left), t.right;
        } else {
          found := true;
        }
      }
      PlugInOrder(c, t);
      if x == NULL {
        LeafInOrder();
        NotFound(nodes, InOrder(tree), Before(c), After(c), key);
        NotIndexed(nodes, InOrder(tree), index, key);
      } else {
        InOrderAddrs(tree);
        PlugAddrs(c, t);
        TopAddrs(c, t);
        AddrOfKey(nodes, InOrder(tree), index, x);
        AtDummy(nodes, root, c, t);
      }
    }

    /** Where a missing key belongs: an empty place below `y`, with smaller keys before it and greater ones after. */
    ghost predicate HangsAt(key: Key, y: Addr, c: Ctx)
      reads `root, `nodes, `tree
    {
      && At(nodes, root, c, Leaf) && Plug(c, Leaf) == tree && y == UpOf(c)
      && AllLess(nodes, Before(c), key) && AllGreater(nodes, After(c), key)
      && (c.Under? ==> y in nodes && (c.side == L <==> Less(key, nodes[y].key)))
    }

    method AllocNode(key: Key) returns (z: Addr)
      requires Memory() && nodeMem.HasRoom() && |key| <= MAX_KEY_LEN && NULL in nodes
      modifies `nodes, `count, `size, nodeMem
      ensures Memory() && z != NULL && z !in old(nodes)
      ensures nodes == old(nodes)[z := NewNode(key)]
      ensures count == old(count) + 1 && size == old(size) + |key|
      ensures |nodeMem.blocks| <= |old(nodeMem.blocks)| + 1
    {
      size := size + |key|;
      count := count + 1;
      z := nodeMem.Alloc(NODE_HDR_SIZE + |key|, true);
      FreshNode(nodes, old(nodeMem.live), z, NODE_HDR_SIZE + |key|);
      nodes := nodes[z := NewNode(key)];
    }

    /** Hangs a new red node into the place that Locate found. */
    method LinkNode(key: Key, y: Addr, ghost c: Ctx) returns (z: Addr)
      requires At(nodes, root, c, Leaf) && y == UpOf(c)
          && (c.Under? ==> y in nodes && (c.side == L <==> Less(key, nodes[y].key)))
      requires Memory() && nodeMem.HasRoom() && |key| <= MAX_KEY_LEN && (c.Under? ==> key != nodes[y].key)
      modifies `nodes, `root, `count, `size, nodeMem
      ensures At(nodes, root, c, Branch(Leaf, z, true, Leaf)) && Memory() && Inserted(old(nodes), nodes, z, key)
      ensures count == old(count) + 1 && size == old(size) + |key|
      ensures |nodeMem.blocks| <= |old(nodeMem.blocks)| + 1
    {
      hide At, IsRedBlack, Ascending, Indexed, Linked, Allocated, Total, Fold, Layers, FlagsOf, InOrder, Vlog.Valid,
           Arena.Valid;
      hide Embeds, CtxEmbeds, Distinct, CtxDistinct, Separate, Addrs, CtxAddrs, Plug, Before, After, AllLess,
           AllGreater;
      LinkPlace(nodes, root, c);
      z := AllocNode(key);
      HangNode(z, y, if c.Top? then L else c.side);
      LinkedTable(old(nodes), nodes, z, key, y, if c.Top? then L else c.side, nodeMem.live);
      LinkAt(old(nodes), nodes, old(root), root, c, z, Branch(Leaf, z, true, Leaf));
    }

    /** The writes that link a new node below `y`. */
    method HangNode(z: Addr, y: Addr, ghost d: Side)
      requires z in nodes && z != y
      requires y != NULL ==>
          y in nodes && nodes[z].key != nodes[y].key && (d == L <==> Less(nodes[z].key, nodes[y].key))
      modifies `nodes, `root
      ensures root == if y == NULL then z else old(root)
      ensures nodes == LinkedBelow(old(nodes), z, y, d)
    {
      hide LinkedBelow;
      BelowWrites(nodes, z, y, d);
      nodes := nodes[z := nodes[z].(up := y)];
      if y == NULL {
        root := z;
      } else {
        var cmp := Compare(nodes[z].key, nodes[y].key);
        if cmp < 0 {
          nodes := nodes[y := nodes[y].(left := z)];
        } else {
          nodes := nodes[y := nodes[y].(right := z)];
        }
      }
      LeafWrites(nodes, z);
      nodes := nodes[z := nodes[z].(left := NULL)];
      nodes := nodes[z := nodes[z].(right := NULL)];
      nodes := nodes[z := nodes[z].(red := true)];
    }

    /** The second half of the source's traverse: links the new node and rebalances. */
    method InsertNode(key: Key, y: Addr, ghost c: Ctx) returns (z: Addr)
      requires Shape() && Memory() && nodeMem.HasRoom() && |key| <= MAX_KEY_LEN
      requires HangsAt(key, y, c) && key !in index
      modifies `nodes, `root, `tree, `index, `count, `size, nodeMem
      ensures Shape() && Memory() && Inserted(old(nodes), nodes, z, key)
      ensures old(InOrder(tree)) == Before(c) + After(c) && InOrder(tree) == Before(c) + [z] + After(c)
      ensures index == old(index)[key := z]
      ensures count == old(count) + 1 && size == old(size) + |key|
      ensures |nodeMem.blocks| <= |old(nodeMem.blocks)| + 1
    {
      hide At, IsRedBlack, Ascending, Indexed, Linked, Allocated, Total, Fold, Layers, FlagsOf, InOrder, Vlog.Valid,
           Arena.Valid;
      hide Embeds, CtxEmbeds, Distinct, CtxDistinct, Separate, Addrs, CtxAddrs, Plug, Before, After, AllLess,
           AllGreater;
      hide Balanced, NoRedRed, Fits, CtxNoRedRed, BlackHeight, Inserted;
      LeafInOrder();
      PlugInOrder(c, Leaf);
      assert InOrder(tree) == Before(c) + After(c);
      ParentInTree(nodes, root, c, index, tree, key);
      z := LinkNode(key, y, c);
      ghost var leaf, n := Branch(Leaf, z, true, Leaf), nodes;
      NewLeafRules(c, leaf, tree);
      PlugInOrder(c, leaf);
      tree := RebalanceAfterInsert(z, c, leaf);
      InsertedData(old(nodes), n, nodes, z, key);
      InsertedOrder(old(nodes), nodes, Before(c), After(c), z, key);
      IndexedInserted(old(nodes), nodes, Before(c), After(c), index, z, key);
      AllocatedData(n, nodes, nodeMem.live);
      index := index[key := z];
    }

    /** Finds the node of a key, adding one without value and flags if there is none. */
    method Traverse(key: Key) returns (x: Addr)
      requires Valid() && nodeMem.HasRoom() && |key| <= MAX_KEY_LEN
      modifies `nodes, `root, `tree, `index, `count, `size, nodeMem
      ensures Valid() && key in index && x == index[key]
      ensures View().layers == old(View().layers)
      ensures View().flags == old(var all := View().flags; if key in all then all else all[key := 0])
      ensures |nodeMem.blocks| <= |old(nodeMem.blocks)| + 1
      ensures Grown(old(index), index)
    {
      hide At, IsRedBlack, Ascending, Indexed, Linked, Allocated, Total, Fold, Layers, FlagsOf, InOrder, Vlog.Valid,
           Arena.Valid;
      hide Inserted;
      assert vlog.recs[..|vlog.recs|] == vlog.recs;
      FlagsKeys(nodes, InOrder(tree), index);
      var y; ghost var c;
      x, y, c := Locate(key);
      if x == NULL {
        x := InsertNode(key, y, c);
        InsertedValid(old(nodes), Before(c), After(c), old(index), x, key);
      }
    }

    lemma InsertedValid(n: Table, l: seq<Addr>, r: seq<Addr>, index0: map<Key, Addr>, z: Addr, key: Key)
      requires nodeMem != vlog.mem && Memory() && Shape() && vlog.Valid() && Staged(vlog.recs, stages, marks)
      requires Inserted(n, nodes, z, key) && InOrder(tree) == l + [z] + r && index == index0[key := z] && key !in index0
      requires Indexed(n, l + r, index0) && Linked(n, l + r, vlog.recs)
      requires CleanUnlessDirty(dirty, n, l + r, vlog.recs, marks)
      requires count == |l + r| + 1 && size == Total(l + r, n, Fold(vlog.recs)) + |key|
      ensures Valid()
      ensures View().layers == Layers(vlog.recs, marks, index0) && View().flags == FlagsOf(n, index0)[key := 0]
    {
      hide At, IsRedBlack, Ascending, Indexed, Linked, Allocated, Total, Fold, Layers, FlagsOf, InOrder, Vlog.Valid,
           Arena.Valid;
      hide Arena.Valid;
      assert vlog.recs[..|vlog.recs|] == vlog.recs;
      assert z !in l + r by { if z in l + r { AddrOfKey(n, l + r, index0, z); } }
      NoRecords(l + r, vlog.recs, z) by { LinkedNodes(n, l + r, vlog.recs); }
      LinkedInsert(n, nodes, l, r, vlog.recs, z);
      InsertedTotal(n, nodes, l, r, Fold(vlog.recs), z, key);
      InsertedFlags(n, nodes, l + r, index0, z, key);
      InsertedLayers(n, l + r, vlog.recs, marks, index0, z, key);
      InsertedClean(dirty, n, nodes, l, r, vlog.recs, marks, z, key);
    }

    // ---------- rotations ----------

    /** Makes `y` the child, or the root, that `x` was.  The source repeats these lines wherever it relinks. */
    method ReplaceChild(x: Addr, up: Addr, y: Addr, ghost c: Ctx)
      requires up == UpOf(c) && (c.Top? <==> up == NULL)
      requires up != NULL ==> up in nodes && Link(nodes[up], c.side) == x && Link(nodes[up], Opp(c.side)) != x
      modifies `nodes, `root
      ensures nodes == if up == NULL then old(nodes) else old(nodes[up := SetLink(nodes[up], c.side, y)])
      ensures root == if up == NULL then y else old(root)
    {
      if up == NULL {
        root := y;
      } else if x == nodes[up].left {
        nodes := nodes[up := nodes[up].(left := y)];
      } else {
        nodes := nodes[up := nodes[up].(right := y)];
      }
    }

    method LeftRotate(x: Addr, ghost c: Ctx)
      requires CanRotate(nodes, root, L, c, x)
      modifies `nodes, `root
      ensures Rotated(old(nodes), nodes, old(root), root, L, c, x, old(nodes[x].right), old(nodes[nodes[x].right].left))
    {
      hide Rotated;
      var y := nodes[x].right;
      nodes := nodes[x := nodes[x].(right := nodes[y].left)];
      if nodes[y].left != NULL {
        var left := nodes[y].left;
        nodes := nodes[left := nodes[left].(up := x)];
      }
      nodes := nodes[y := nodes[y].(up := nodes[x].up)];
      ReplaceChild(x, nodes[x].up, y, c);
      nodes := nodes[y := nodes[y].(left := x)];
      nodes := nodes[x := nodes[x].(up := y)];
      RotateWrites(old(nodes), old(root), L, c, x, nodes, root);
    }

    method RightRotate(y: Addr, ghost c: Ctx)
      requires CanRotate(nodes, root, R, c, y)
      modifies `nodes, `root
      ensures Rotated(old(nodes), nodes, old(root), root, R, c, y, old(nodes[y].left), old(nodes[nodes[y].left].right))
    {
      hide Rotated;
      var x := nodes[y].left;
      nodes := nodes[y := nodes[y].(left := nodes[x].right)];
      if nodes[x].right != NULL {
        var right := nodes[x].right;
        nodes := nodes[right := nodes[right].(up := y)];
      }
      nodes := nodes[x := nodes[x].(up := nodes[y].up)];
      ReplaceChild(y, nodes[y].up, x, c);
      nodes := nodes[x := nodes[x].(right := y)];
      nodes := nodes[y := nodes[y].(up := x)];
      RotateWrites(old(nodes), old(root), R, c, y, nodes, root);
    }

    /** One turn of the insertion loop, for a parent that is a left child. */
    method InsertStepLeft(x0: Addr, ghost c0: Ctx, ghost t0: Tree) returns (x: Addr, ghost c: Ctx, ghost t: Tree)
      requires At(nodes, root, c0, t0) && t0.Branch? && t0.addr == x0 && RedFocus(c0, t0)
      requires RedCtx(c0) && c0.up.Under? && c0.up.side == L
      modifies `nodes, `root
      ensures At(nodes, root, c, t) && t.Branch? && t.addr == x && RedFocus(c, t)
      ensures InOrder(Plug(c, t)) == InOrder(Plug(c0, t0))
      ensures !RedCtx(c) || c == c0.up.up
      ensures SameData(old(nodes), nodes)
    {
      hide At, Embeds, CtxEmbeds, Distinct, CtxDistinct, Separate, Addrs, CtxAddrs, InOrder, Plug;
      hide Balanced, NoRedRed, Fits, CtxNoRedRed, SameData, PaintNode, CanRotate, Rotated;
      x, c, t := x0, c0, t0;
      ghost var g, ga, u := c.up.up, c.up.addr, c.up.sib;
      Around(nodes, root, c, t);
      Grandparent(nodes, root, c, t);
      var xUp := nodes[x].up;
      var xUpUp := nodes[xUp].up;
      var y := nodes[xUpUp].right;
      if nodes[y].red {
        t := RedUncle(nodes, root, L, g, xUpUp, u, c.side, xUp, c.sib, t);
        c := g;
        SameDataPaints(nodes, xUp, false, y, false, xUpUp, true);
        nodes := PaintNode(nodes, xUp, false);
        nodes := PaintNode(nodes, y, false);
        nodes := PaintNode(nodes, xUpUp, true);
        x := nodes[xUp].up;
      } else {
        SameDataReflexive(nodes);
        if x == nodes[xUp].right {
          assert c.side == R;
          x := nodes[x].up;
          c, t := InnerRotationLeft(x, c, t);
          xUp := nodes[x].up;
          xUpUp := nodes[xUp].up;
        }
        ghost var n := nodes;
        c := OuterRotationLeft(xUp, xUpUp, c, t);
        SameDataTransitive(old(nodes), n, nodes);
      }
    }

    method InnerRotationLeft(x: Addr, ghost c: Ctx, ghost t: Tree) returns (ghost c': Ctx, ghost t': Tree)
      requires At(nodes, root, c, t) && RedFocus(c, t)
      requires RedCtx(c) && c.side == R && x == c.addr && c.up.Under?
      modifies `nodes, `root
      ensures At(nodes, root, c', t') && t'.Branch? && t'.addr == x && RedFocus(c', t')
      ensures c'.Under? && c'.red && c'.side == L && c'.up == c.up
      ensures x in nodes && nodes[x].up == c'.addr && c'.addr in nodes && nodes[c'.addr].up == c.up.addr
      ensures InOrder(Plug(c', t')) == InOrder(Plug(c, t))
      ensures SameData(old(nodes), nodes)
    {
      hide At, Embeds, CtxEmbeds, Distinct, CtxDistinct, Separate, Addrs, CtxAddrs, InOrder, Plug;
      hide Balanced, NoRedRed, Fits, CtxNoRedRed, SameData, PaintNode, CanRotate, Rotated;
      ghost var gc, s := c.up, c.sib;
      ghost var b, y, e := t.left, t.addr, t.right;
      Zoom(nodes, root, R, gc, x, true, s, t);
      RotationFootprint(nodes, root, L, gc, s, x, true, b, y, true, e);
      LeftRotate(x, gc);
      RotateAt(old(nodes), nodes, old(root), root, L, gc, s, x, true, b, y, true, e);
      RotatedData(old(nodes), nodes, old(root), root, L, gc, x, y, AddrOf(b));
      InnerGrandchild(L, gc, x, s, b, y, e);
      c', t' := Under(L, gc, y, true, e), Mk(L, s, x, true, b);
      Zoom(nodes, root, L, gc, y, true, e, t');
      Around(nodes, root, c', t');
    }

    method OuterRotationLeft(p: Addr, ga: Addr, ghost c: Ctx, ghost t: Tree) returns (ghost c': Ctx)
      requires At(nodes, root, c, t) && RedFocus(c, t) && t.Branch?
      requires RedCtx(c) && c.side == L && p == c.addr
      requires c.up.Under? && !c.up.red && c.up.side == L && ga == c.up.addr && !Red(c.up.sib)
      modifies `nodes, `root
      ensures At(nodes, root, c', t) && RedFocus(c', t) && !RedCtx(c')
      ensures InOrder(Plug(c', t)) == InOrder(Plug(c, t))
      ensures SameData(old(nodes), nodes)
    {
      hide At, Embeds, CtxEmbeds, Distinct, CtxDistinct, Separate, Addrs, CtxAddrs, InOrder, Plug;
      hide Balanced, NoRedRed, Fits, CtxNoRedRed, SameData, PaintNode, CanRotate, Rotated;
      ghost var g, u, s := c.up.up, c.up.sib, c.sib;
      PaintGrandparent(nodes, root, L, g, ga, u, p, s, t);
      nodes := PaintNode(nodes, p, false);
      nodes := PaintNode(nodes, ga, true);
      SameDataTransitive(old(nodes), PaintNode(old(nodes), p, false), nodes);
      label painted:
      RotationFootprint(nodes, root, R, g, u, ga, true, s, p, false, t);
      RightRotate(ga, g);
      RotateAt(old@painted(nodes), nodes, old(root), root, R, g, u, ga, true, s, p, false, t);
      RotatedData(old@painted(nodes), nodes, old(root), root, R, g, ga, p, AddrOf(s));
      SameDataTransitive(old(nodes), old@painted(nodes), nodes);
      RotatedGrandparent(nodes, root, L, g, ga, u, p, s, t);
      OuterGrandchild(L, g, ga, u, p, s, t);
      c' := Under(L, g, p, false, Mk(L, s, ga, true, u));
    }

    /** One turn of the insertion loop, for a parent that is a right child. */
    method InsertStepRight(x0: Addr, ghost c0: Ctx, ghost t0: Tree) returns (x: Addr, ghost c: Ctx, ghost t: Tree)
      requires At(nodes, root, c0, t0) && t0.Branch? && t0.addr == x0 && RedFocus(c0, t0)
      requires RedCtx(c0) && c0.up.Under? && c0.up.side == R
      modifies `nodes, `root
      ensures At(nodes, root, c, t) && t.Branch? && t.addr == x && RedFocus(c, t)
      ensures InOrder(Plug(c, t)) == InOrder(Plug(c0, t0))
      ensures !RedCtx(c) || c == c0.up.up
      ensures SameData(old(nodes), nodes)
    {
      hide At, Embeds, CtxEmbeds, Distinct, CtxDistinct, Separate, Addrs, CtxAddrs, InOrder, Plug;
      hide Balanced, NoRedRed, Fits, CtxNoRedRed, SameData, PaintNode, CanRotate, Rotated;
      x, c, t := x0, c0, t0;
      ghost var g, ga, u := c.up.up, c.up.addr, c.up.sib;
      Around(nodes, root, c, t);
      Grandparent(nodes, root, c, t);
      var xUp := nodes[x].up;
      var xUpUp := nodes[xUp].up;
      var y := nodes[xUpUp].left;
      if nodes[y].red {
        t := RedUncle(nodes, root, R, g, xUpUp, u, c.side, xUp, c.sib, t);
        c := g;
        SameDataPaints(nodes, xUp, false, y, false, xUpUp, true);
        nodes := PaintNode(nodes, xUp, false);
        nodes := PaintNode(nodes, y, false);
        nodes := PaintNode(nodes, xUpUp, true);
        x := nodes[xUp].up;
      } else {
        SameDataReflexive(nodes);
        if x == nodes[xUp].left {
          assert c.side == L;
          x := nodes[x].up;
          c, t := InnerRotationRight(x, c, t);
          xUp := nodes[x].up;
          xUpUp := nodes[xUp].up;
        }
        ghost var n := nodes;
        c := OuterRotationRight(xUp, xUpUp, c, t);
        SameDataTransitive(old(nodes), n, nodes);
      }
    }

    method InnerRotationRight(x: Addr, ghost c: Ctx, ghost t: Tree) returns (ghost c': Ctx, ghost t': Tree)
      requires At(nodes, root, c, t) && RedFocus(c, t)
      requires RedCtx(c) && c.side == L && x == c.addr && c.up.Under?
      modifies `nodes, `root
      ensures At(nodes, root, c', t') && t'.Branch? && t'.addr == x && RedFocus(c', t')
      ensures c'.Under? && c'.red && c'.side == R && c'.up == c.up
      ensures x in nodes && nodes[x].up == c'.addr && c'.addr in nodes && nodes[c'.addr].up == c.up.addr
      ensures InOrder(Plug(c', t')) == InOrder(Plug(c, t))
      ensures SameData(old(nodes), nodes)
    {
      hide At, Embeds, CtxEmbeds, Distinct, CtxDistinct, Separate, Addrs, CtxAddrs, InOrder, Plug;
      hide Balanced, NoRedRed, Fits, CtxNoRedRed, SameData, PaintNode, CanRotate, Rotated;
      ghost var gc, s := c.up, c.sib;
      ghost var b, y, e := t.right, t.addr, t.left;
      Zoom(nodes, root, L, gc, x, true, s, t);
      RotationFootprint(nodes, root, R, gc, s, x, true, b, y, true, e);
      RightRotate(x, gc);
      RotateAt(old(nodes), nodes, old(root), root, R, gc, s, x, true, b, y, true, e);
      RotatedData(old(nodes), nodes, old(root), root, R, gc, x, y, AddrOf(b));
      InnerGrandchild(R, gc, x, s, b, y, e);
      c', t' := Under(R, gc, y, true, e), Mk(R, s, x, true, b);
      Zoom(nodes, root, R, gc, y, true, e, t');
      Around(nodes, root, c', t');
    }

    method OuterRotationRight(p: Addr, ga: Addr, ghost c: Ctx, ghost t: Tree) returns (ghost c': Ctx)
      requires At(nodes, root, c, t) && RedFocus(c, t) && t.Branch?
      requires RedCtx(c) && c.side == R && p == c.addr
      requires c.up.Under? && !c.up.red && c.up.side == R && ga == c.up.addr && !Red(c.up.sib)
      modifies `nodes, `root
      ensures At(nodes, root, c', t) && RedFocus(c', t) && !RedCtx(c')
      ensures InOrder(Plug(c', t)) == InOrder(Plug(c, t))
      ensures SameData(old(nodes), nodes)
    {
      hide At, Embeds, CtxEmbeds, Distinct, CtxDistinct, Separate, Addrs, CtxAddrs, InOrder, Plug;
      hide Balanced, NoRedRed, Fits, CtxNoRedRed, SameData, PaintNode, CanRotate, Rotated;
      ghost var g, u, s := c.up.up, c.up.sib, c.sib;
      PaintGrandparent(nodes, root, R, g, ga, u, p, s, t);
      nodes := PaintNode(nodes, p, false);
      nodes := PaintNode(nodes, ga, true);
      SameDataTransitive(old(nodes), PaintNode(old(nodes), p, false), nodes);
      label painted:
      RotationFootprint(nodes, root, L, g, u, ga, true, s, p, false, t);
      LeftRotate(ga, g);
      RotateAt(old@painted(nodes), nodes, old(root), root, L, g, u, ga, true, s, p, false, t);
      RotatedData(old@painted(nodes), nodes, old(root), root, L, g, ga, p, AddrOf(s));
      SameDataTransitive(old(nodes), old@painted(nodes), nodes);
      RotatedGrandparent(nodes, root, R, g, ga, u, p, s, t);
      OuterGrandchild(R, g, ga, u, p, s, t);
      c' := Under(R, g, p, false, Mk(R, s, ga, true, u));
    }

    /** Second half of the source's traverse: walks up from the new red node, recolouring and rotating. */
    method RebalanceAfterInsert(z: Addr, ghost c0: Ctx, ghost t0: Tree) returns (ghost tree': Tree)
      requires At(nodes, root, c0, t0) && t0.Branch? && t0.addr == z && RedFocus(c0, t0)
      modifies `nodes, `root
      ensures At(nodes, root, Top, tree') && IsRedBlack(tree')
      ensures InOrder(tree') == InOrder(Plug(c0, t0))
      ensures SameData(old(nodes), nodes)
    {
      hide At, Embeds, CtxEmbeds, Distinct, CtxDistinct, Separate, Addrs, CtxAddrs, InOrder, Plug;
      hide Balanced, NoRedRed, Fits, CtxNoRedRed, SameData, PaintNode;
      var x := z;
      ghost var c, t := c0, t0;
      SameDataReflexive(nodes);
      while x != root
        invariant At(nodes, root, c, t) && t.Branch? && t.addr == x && RedFocus(c, t)
        invariant InOrder(Plug(c, t)) == InOrder(Plug(c0, t0))
        invariant SameData(old(nodes), nodes)
        decreases RedCtx(c), c
      {
        RootIsAboveCursor(nodes, root, c, t);
        Around(nodes, root, c, t);
        var xUp := nodes[x].up;
        if !nodes[xUp].red {
          break;
        }
        Grandparent(nodes, root, c, t);
        var xUpUp := nodes[xUp].up;
        ghost var n := nodes;
        if nodes[x].up == nodes[xUpUp].left {
          x, c, t := InsertStepLeft(x, c, t);
        } else {
          x, c, t := InsertStepRight(x, c, t);
        }
        SameDataTransitive(old(nodes), n, nodes);
      }
      RootIsAboveCursor(nodes, root, c, t);
      ghost var n := nodes;
      tree' := RedFocusDone(nodes, root, c, t);
      nodes := PaintNode(nodes, root, false);
      SameDataTransitive(old(nodes), n, nodes);
    }

    /** One turn of the deletion loop, for a short tree that is a left child. */
    method DeleteStepLeft(x0: Addr, ghost c0: Ctx, ghost t0: Tree) returns (x: Addr, ghost c: Ctx, ghost t: Tree)
      requires ShortAt(nodes, root, c0, t0, x0) && c0.Under? && c0.side == L && !Red(t0)
      modifies `nodes, `root
      ensures ShortAt(nodes, root, c, t, x) && (c.Top? || Red(t) || c == c0.up)
      ensures InOrder(Plug(c, t)) == InOrder(Plug(c0, t0))
      ensures SameData(old(nodes), nodes)
    {
      hide At, Embeds, CtxEmbeds, Distinct, CtxDistinct, Separate, Addrs, CtxAddrs, InOrder, Plug;
      hide Balanced, NoRedRed, Fits, CtxNoRedRed, SameData, PaintNode, CanRotate, Rotated;
      x, c, t := x0, c0, t0;
      Around(nodes, root, c, t);
      SiblingExists(c, t);
      Nephews(nodes, root, c, t);
      var xUp := nodes[x].up;
      var w := nodes[xUp].right;
      SameDataReflexive(nodes);
      if nodes[w].red {
        c := RedSiblingLeft(xUp, w, c, t, x);
        Around(nodes, root, c, t);
        Nephews(nodes, root, c, t);
        w := nodes[nodes[x].up].right;
      }
      ghost var n := nodes;
      ghost var wn, wf := c.sib.left, c.sib.right;
      if !nodes[nodes[w].left].red && !nodes[nodes[w].right].red {
        BlackNephews(L, c.up, c.addr, c.red, wn, w, wf, t);
        PaintBlackSibling(nodes, root, L, c.up, c.addr, c.red, wn, w, wf, t);
        nodes := PaintNode(nodes, w, true);
        x := nodes[x].up;
        c, t := c.up, Mk(L, t, c.addr, c.red, Mk(L, wn, w, true, wf));
        UpOfFocus(nodes, root, c, t);
        SameDataTransitive(old(nodes), n, nodes);
      } else {
        if !nodes[nodes[w].right].red {
          c := NearNephewLeft(w, c, t, x);
          Around(nodes, root, c, t);
          Nephews(nodes, root, c, t);
          w := nodes[nodes[x].up].right;
          SameDataTransitive(old(nodes), n, nodes);
          n := nodes;
        }
        xUp := nodes[x].up;
        t := FarNephewLeft(xUp, w, c, t);
        c := Top;
        x := root;
        WholeTree(nodes, root, t);
        SameDataTransitive(old(nodes), n, nodes);
      }
    }

    method RedSiblingLeft(xUp: Addr, w: Addr, ghost c: Ctx, ghost t: Tree, ghost x: Addr) returns (ghost c': Ctx)
      requires ShortAt(nodes, root, c, t, x) && c.Under? && c.side == L && c.addr == xUp
      requires Red(c.sib) && c.sib.addr == w
      modifies `nodes, `root
      ensures ShortAt(nodes, root, c', t, x) && c'.Under? && c'.side == L && c'.sib.Branch? && !c'.sib.red
      ensures c'.red && c'.addr == xUp && c'.up.Under? && c'.up.up == c.up
      ensures InOrder(Plug(c', t)) == InOrder(Plug(c, t))
      ensures SameData(old(nodes), nodes)
    {
      hide At, Embeds, CtxEmbeds, Distinct, CtxDistinct, Separate, Addrs, CtxAddrs, InOrder, Plug;
      hide Balanced, NoRedRed, Fits, CtxNoRedRed, SameData, PaintNode, CanRotate, Rotated;
      ghost var wn, wf, up := c.sib.left, c.sib.right, c.up;
      PaintRedSibling(nodes, root, L, up, xUp, c.red, wn, w, wf, t);
      nodes := PaintNode(nodes, w, false);
      nodes := PaintNode(nodes, xUp, true);
      SameDataTransitive(old(nodes), PaintNode(old(nodes), w, false), nodes);
      label painted:
      RotationFootprint(nodes, root, L, up, t, xUp, true, wn, w, false, wf);
      LeftRotate(xUp, up);
      RotateAt(old@painted(nodes), nodes, old(root), root, L, up, t, xUp, true, wn, w, false, wf);
      RotatedData(old@painted(nodes), nodes, old(root), root, L, up, xUp, w, AddrOf(wn));
      RotatedDummy(old@painted(nodes), nodes, old(root), root, L, up, xUp, w, AddrOf(wn));
      SameDataTransitive(old(nodes), old@painted(nodes), nodes);
      RedSibling(L, up, xUp, c.red, wn, w, wf, t);
      c' := Under(L, Under(L, up, w, false, wf), xUp, true, wn);
      Zoom(nodes, root, L, up, w, false, wf, Mk(L, t, xUp, true, wn));
      Zoom(nodes, root, L, Under(L, up, w, false, wf), xUp, true, wn, t);
      UpOfFocus(nodes, root, c', t);
    }

    method NearNephewLeft(w: Addr, ghost c: Ctx, ghost t: Tree, ghost x: Addr) returns (ghost c': Ctx)
      requires ShortAt(nodes, root, c, t, x) && c.Under? && c.side == L
      requires c.sib.Branch? && !c.sib.red && c.sib.addr == w && Red(c.sib.left) && !Red(c.sib.right)
      modifies `nodes, `root
      ensures ShortAt(nodes, root, c', t, x) && c'.Under? && c'.side == L && c'.sib.Branch? && !c'.sib.red
      ensures Red(c'.sib.right) && c'.up == c.up && c'.addr == c.addr && c'.red == c.red
      ensures InOrder(Plug(c', t)) == InOrder(Plug(c, t))
      ensures SameData(old(nodes), nodes)
    {
      hide At, Embeds, CtxEmbeds, Distinct, CtxDistinct, Separate, Addrs, CtxAddrs, InOrder, Plug;
      hide Balanced, NoRedRed, Fits, CtxNoRedRed, SameData, PaintNode, CanRotate, Rotated;
      ghost var wn, wf, up, a, ra := c.sib.left, c.sib.right, c.up, c.addr, c.red;
      ghost var p, q := wn.left, wn.right;
      ghost var cw := Under(R, up, a, ra, t);
      Nephews(nodes, root, c, t);
      var v := nodes[w].left;
      PaintNearNephew(nodes, root, L, up, a, ra, p, v, q, w, wf, t);
      nodes := PaintNode(nodes, v, false);
      nodes := PaintNode(nodes, w, true);
      SameDataTransitive(old(nodes), PaintNode(old(nodes), v, false), nodes);
      label painted:
      RotationFootprint(nodes, root, R, cw, wf, w, true, q, v, false, p);
      RightRotate(w, cw);
      RotateAt(old@painted(nodes), nodes, old(root), root, R, cw, wf, w, true, q, v, false, p);
      RotatedData(old@painted(nodes), nodes, old(root), root, R, cw, w, v, AddrOf(q));
      RotatedDummy(old@painted(nodes), nodes, old(root), root, R, cw, w, v, AddrOf(q));
      SameDataTransitive(old(nodes), old@painted(nodes), nodes);
      RotatedNearNephew(nodes, root, L, up, a, ra, p, v, q, w, wf, t);
      RedNearNephew(L, up, a, ra, p, v, q, w, wf, t);
      c' := Under(L, up, a, ra, Mk(L, p, v, false, Mk(L, q, w, true, wf)));
      UpOfFocus(nodes, root, c', t);
    }

    method FarNephewLeft(xUp: Addr, w: Addr, ghost c: Ctx, ghost t: Tree) returns (ghost tree': Tree)
      requires At(nodes, root, c, t) && Short(c, t) && !Red(t) && c.Under? && c.side == L && c.addr == xUp
      requires c.sib.Branch? && !c.sib.red && c.sib.addr == w && Red(c.sib.right)
      modifies `nodes, `root
      ensures At(nodes, root, Top, tree') && IsRedBlack(tree') && tree'.Branch?
      ensures InOrder(tree') == InOrder(Plug(c, t))
      ensures SameData(old(nodes), nodes)
    {
      hide At, Embeds, CtxEmbeds, Distinct, CtxDistinct, Separate, Addrs, CtxAddrs, InOrder, Plug;
      hide Balanced, NoRedRed, Fits, CtxNoRedRed, SameData, PaintNode, CanRotate, Rotated;
      ghost var wn, wf, up, ra := c.sib.left, c.sib.right, c.up, c.red;
      ghost var wf' := wf.(red := false);
      Around(nodes, root, c, t);
      Nephews(nodes, root, c, t);
      PaintFarNephew(nodes, root, L, up, xUp, ra, wn, w, wf, t);
      SameDataPaints(nodes, w, ra, xUp, false, wf.addr, false);
      nodes := PaintNode(nodes, w, nodes[xUp].red);
      nodes := PaintNode(nodes, xUp, false);
      nodes := PaintNode(nodes, nodes[w].right, false);
      label painted:
      RotationFootprint(nodes, root, L, up, t, xUp, false, wn, w, ra, wf');
      LeftRotate(xUp, up);
      RotateAt(old@painted(nodes), nodes, old(root), root, L, up, t, xUp, false, wn, w, ra, wf');
      RotatedData(old@painted(nodes), nodes, old(root), root, L, up, xUp, w, AddrOf(wn));
      SameDataTransitive(old(nodes), old@painted(nodes), nodes);
      RedFarNephew(L, up, xUp, ra, wn, w, wf, t);
      tree' := Plug(up, Mk(L, Mk(L, t, xUp, false, wn), w, ra, wf'));
      ZoomOut(nodes, root, up, Mk(L, Mk(L, t, xUp, false, wn), w, ra, wf'));
      PlugBranch(up, Mk(L, Mk(L, t, xUp, false, wn), w, ra, wf'));
    }

    /** One turn of the deletion loop, for a short tree that is a right child. */
    method DeleteStepRight(x0: Addr, ghost c0: Ctx, ghost t0: Tree) returns (x: Addr, ghost c: Ctx, ghost t: Tree)
      requires ShortAt(nodes, root, c0, t0, x0) && c0.Under? && c0.side == R && !Red(t0)
      modifies `nodes, `root
      ensures ShortAt(nodes, root, c, t, x) && (c.Top? || Red(t) || c == c0.up)
      ensures InOrder(Plug(c, t)) == InOrder(Plug(c0, t0))
      ensures SameData(old(nodes), nodes)
    {
      hide At, Embeds, CtxEmbeds, Distinct, CtxDistinct, Separate, Addrs, CtxAddrs, InOrder, Plug;
      hide Balanced, NoRedRed, Fits, CtxNoRedRed, SameData, PaintNode, CanRotate, Rotated;
      x, c, t := x0, c0, t0;
      Around(nodes, root, c, t);
      SiblingExists(c, t);
      Nephews(nodes, root, c, t);
      var xUp := nodes[x].up;
      var w := nodes[xUp].left;
      SameDataReflexive(nodes);
      if nodes[w].red {
        c := RedSiblingRight(xUp, w, c, t, x);
        Around(nodes, root, c, t);
        Nephews(nodes, root, c, t);
        w := nodes[nodes[x].up].left;
      }
      ghost var n := nodes;
      ghost var wn, wf := c.sib.right, c.sib.left;
      if !nodes[nodes[w].right].red && !nodes[nodes[w].left].red {
        BlackNephews(R, c.up, c.addr, c.red, wn, w, wf, t);
        PaintBlackSibling(nodes, root, R, c.up, c.addr, c.red, wn, w, wf, t);
        nodes := PaintNode(nodes, w, true);
        x := nodes[x].up;
        c, t := c.up, Mk(R, t, c.addr, c.red, Mk(R, wn, w, true, wf));
        UpOfFocus(nodes, root, c, t);
        SameDataTransitive(old(nodes), n, nodes);
      } else {
        if !nodes[nodes[w].left].red {
          c := NearNephewRight(w, c, t, x);
          Around(nodes, root, c, t);
          Nephews(nodes, root, c, t);
          w := nodes[nodes[x].up].left;
          SameDataTransitive(old(nodes), n, nodes);
          n := nodes;
        }
        xUp := nodes[x].up;
        t := FarNephewRight(xUp, w, c, t);
        c := Top;
        x := root;
        WholeTree(nodes, root, t);
        SameDataTransitive(old(nodes), n, nodes);
      }
    }

    method RedSiblingRight(xUp: Addr, w: Addr, ghost c: Ctx, ghost t: Tree, ghost x: Addr) returns (ghost c': Ctx)
      requires ShortAt(nodes, root, c, t, x) && c.Under? && c.side == R && c.addr == xUp
      requires Red(c.sib) && c.sib.addr == w
      modifies `nodes, `root
      ensures ShortAt(nodes, root, c', t, x) && c'.Under? && c'.side == R && c'.sib.Branch? && !c'.sib.red
      ensures c'.red && c'.addr == xUp && c'.up.Under? && c'.up.up == c.up
      ensures InOrder(Plug(c', t)) == InOrder(Plug(c, t))
      ensures SameData(old(nodes), nodes)
    {
      hide At, Embeds, CtxEmbeds, Distinct, CtxDistinct, Separate, Addrs, CtxAddrs, InOrder, Plug;
      hide Balanced, NoRedRed, Fits, CtxNoRedRed, SameData, PaintNode, CanRotate, Rotated;
      ghost var wn, wf, up := c.sib.right, c.sib.left, c.up;
      PaintRedSibling(nodes, root, R, up, xUp, c.red, wn, w, wf, t);
      nodes := PaintNode(nodes, w, false);
      nodes := PaintNode(nodes, xUp, true);
      SameDataTransitive(old(nodes), PaintNode(old(nodes), w, false), nodes);
      label painted:
      RotationFootprint(nodes, root, R, up, t, xUp, true, wn, w, false, wf);
      RightRotate(xUp, up);
      RotateAt(old@painted(nodes), nodes, old(root), root, R, up, t, xUp, true, wn, w, false, wf);
      RotatedData(old@painted(nodes), nodes, old(root), root, R, up, xUp, w, AddrOf(wn));
      RotatedDummy(old@painted(nodes), nodes, old(root), root, R, up, xUp, w, AddrOf(wn));
      SameDataTransitive(old(nodes), old@painted(nodes), nodes);
      RedSibling(R, up, xUp, c.red, wn, w, wf, t);
      c' := Under(R, Under(R, up, w, false, wf), xUp, true, wn);
      Zoom(nodes, root, R, up, w, false, wf, Mk(R, t, xUp, true, wn));
      Zoom(nodes, root, R, Under(R, up, w, false, wf), xUp, true, wn, t);
      UpOfFocus(nodes, root, c', t);
    }

    method NearNephewRight(w: Addr, ghost c: Ctx, ghost t: Tree, ghost x: Addr) returns (ghost c': Ctx)
      requires ShortAt(nodes, root, c, t, x) && c.Under? && c.side == R
      requires c.sib.Branch? && !c.sib.red && c.sib.addr == w && Red(c.sib.right) && !Red(c.sib.left)
      modifies `nodes, `root
      ensures ShortAt(nodes, root, c', t, x) && c'.Under? && c'.side == R && c'.sib.Branch? && !c'.sib.red
      ensures Red(c'.sib.left) && c'.up == c.up && c'.addr == c.addr && c'.red == c.red
      ensures InOrder(Plug(c', t)) == InOrder(Plug(c, t))
      ensures SameData(old(nodes), nodes)
    {
      hide At, Embeds, CtxEmbeds, Distinct, CtxDistinct, Separate, Addrs, CtxAddrs, InOrder, Plug;
      hide Balanced, NoRedRed, Fits, CtxNoRedRed, SameData, PaintNode, CanRotate, Rotated;
      ghost var wn, wf, up, a, ra := c.sib.right, c.sib.left, c.up, c.addr, c.red;
      ghost var p, q := wn.right, wn.left;
      ghost var cw := Under(L, up, a, ra, t);
      Nephews(nodes, root, c, t);
      var v := nodes[w].right;
      PaintNearNephew(nodes, root, R, up, a, ra, p, v, q, w, wf, t);
      nodes := PaintNode(nodes, v, false);
      nodes := PaintNode(nodes, w, true);
      SameDataTransitive(old(nodes), PaintNode(old(nodes), v, false), nodes);
      label painted:
      RotationFootprint(nodes, root, L, cw, wf, w, true, q, v, false, p);
      LeftRotate(w, cw);
      RotateAt(old@painted(nodes), nodes, old(root), root, L, cw, wf, w, true, q, v, false, p);
      RotatedData(old@painted(nodes), nodes, old(root), root, L, cw, w, v, AddrOf(q));
      RotatedDummy(old@painted(nodes), nodes, old(root), root, L, cw, w, v, AddrOf(q));
      SameDataTransitive(old(nodes), old@painted(nodes), nodes);
      RotatedNearNephew(nodes, root, R, up, a, ra, p, v, q, w, wf, t);
      RedNearNephew(R, up, a, ra, p, v, q, w, wf, t);
      c' := Under(R, up, a, ra, Mk(R, p, v, false, Mk(R, q, w, true, wf)));
      UpOfFocus(nodes, root, c', t);
    }

    method FarNephewRight(xUp: Addr, w: Addr, ghost c: Ctx, ghost t: Tree) returns (ghost tree': Tree)
      requires At(nodes, root, c, t) && Short(c, t) && !Red(t) && c.Under? && c.side == R && c.addr == xUp
      requires c.sib.Branch? && !c.sib.red && c.sib.addr == w && Red(c.sib.left)
      modifies `nodes, `root
      ensures At(nodes, root, Top, tree') && IsRedBlack(tree') && tree'.Branch?
      ensures InOrder(tree') == InOrder(Plug(c, t))
      ensures SameData(old(nodes), nodes)
    {
      hide At, Embeds, CtxEmbeds, Distinct, CtxDistinct, Separate, Addrs, CtxAddrs, InOrder, Plug;
      hide Balanced, NoRedRed, Fits, CtxNoRedRed, SameData, PaintNode, CanRotate, Rotated;
      ghost var wn, wf, up, ra := c.sib.right, c.sib.left, c.up, c.red;
      ghost var wf' := wf.(red := false);
      Around(nodes, root, c, t);
      Nephews(nodes, root, c, t);
      PaintFarNephew(nodes, root, R, up, xUp, ra, wn, w, wf, t);
      SameDataPaints(nodes, w, ra, xUp, false, wf.addr, false);
      nodes := PaintNode(nodes, w, nodes[xUp].red);
      nodes := PaintNode(nodes, xUp, false);
      nodes := PaintNode(nodes, nodes[w].left, false);
      label painted:
      RotationFootprint(nodes, root, R, up, t, xUp, false, wn, w, ra, wf');
      RightRotate(xUp, up);
      RotateAt(old@painted(nodes), nodes, old(root), root, R, up, t, xUp, false, wn, w, ra, wf');
      RotatedData(old@painted(nodes), nodes, old(root), root, R, up, xUp, w, AddrOf(wn));
      SameDataTransitive(old(nodes), old@painted(nodes), nodes);
      RedFarNephew(R, up, xUp, ra, wn, w, wf, t);
      tree' := Plug(up, Mk(R, Mk(R, t, xUp, false, wn), w, ra, wf'));
      ZoomOut(nodes, root, up, Mk(R, Mk(R, t, xUp, false, wn), w, ra, wf'));
      PlugBranch(up, Mk(R, Mk(R, t, xUp, false, wn), w, ra, wf'));
    }

    /** Restores the rules below `c0`, where the tree at `x0` is one black node short. */
    method DeleteNodeFix(x0: Addr, ghost c0: Ctx, ghost t0: Tree) returns (ghost tree': Tree)
      requires ShortAt(nodes, root, c0, t0, x0)
      modifies `nodes, `root
      ensures At(nodes, root, Top, tree') && IsRedBlack(tree')
      ensures InOrder(tree') == InOrder(Plug(c0, t0))
      ensures SameData(old(nodes), nodes)
    {
      hide At, Embeds, CtxEmbeds, Distinct, CtxDistinct, Separate, Addrs, CtxAddrs, InOrder, Plug;
      hide Balanced, NoRedRed, Fits, CtxNoRedRed, SameData, PaintNode, CanRotate, Rotated;
      var x := x0;
      ghost var c, t := c0, t0;
      SameDataReflexive(nodes);
      Focus(nodes, root, c, t);
      while x != root && !nodes[x].red
        invariant ShortAt(nodes, root, c, t, x) && x in nodes && nodes[x].red == Red(t)
        invariant InOrder(Plug(c, t)) == InOrder(Plug(c0, t0))
        invariant SameData(old(nodes), nodes)
        decreases c.Under? && !Red(t), c
      {
        RootIsAboveCursor(nodes, root, c, t);
        Around(nodes, root, c, t);
        SiblingExists(c, t);
        var xUp := nodes[x].up;
        ghost var n := nodes;
        if x == nodes[xUp].left {
          x, c, t := DeleteStepLeft(x, c, t);
        } else {
          x, c, t := DeleteStepRight(x, c, t);
        }
        SameDataTransitive(old(nodes), n, nodes);
        Focus(nodes, root, c, t);
      }
      RootIsAboveCursor(nodes, root, c, t);
      ghost var n := nodes;
      tree' := ShortFocusDone(nodes, root, c, t);
      nodes := PaintNode(nodes, x, false);
      SameDataTransitive(old(nodes), n, nodes);
    }

    /** Follows left links to the end. */
    method Leftmost(x: Addr, ghost c0: Ctx, ghost t0: Tree) returns (y: Addr)
      requires At(nodes, root, c0, t0) && t0.Branch? && t0.addr == x
      ensures y == First(t0)
    {
      hide At, Embeds, CtxEmbeds, Distinct, CtxDistinct, Separate, Addrs, CtxAddrs, Plug;
      y := x;
      ghost var c, t := c0, t0;
      SpliceFootprint(nodes, root, c, t);
      while nodes[y].left != NULL
        invariant At(nodes, root, c, t) && t.Branch? && t.addr == y && y in nodes
        invariant nodes[y].left == AddrOf(t.left) && (t.left.Leaf? <==> AddrOf(t.left) == NULL)
        invariant First(t) == First(t0)
        decreases t
      {
        y := nodes[y].left;
        Zoom(nodes, root, L, c, t.addr, t.red, t.right, t.left);
        c, t := Under(L, c, t.addr, t.red, t.right), t.left;
        SpliceFootprint(nodes, root, c, t);
      }
    }

    /** Climbs to the first ancestor that has the start in its left subtree. */
    method ClimbWhileRight(x0: Addr, ghost c0: Ctx, ghost t0: Tree) returns (y: Addr)
      requires At(nodes, root, c0, t0) && t0.Branch? && t0.addr == x0
      ensures y == if After(c0) != [] then After(c0)[0] else NULL
    {
      hide At, Embeds, CtxEmbeds, Distinct, CtxDistinct, Separate, Addrs, CtxAddrs, Plug;
      var x := x0;
      ghost var c, t := c0, t0;
      SpliceFootprint(nodes, root, c, t);
      y := nodes[x].up;
      while y != NULL && x == nodes[y].right
        invariant At(nodes, root, c, t) && t.Branch? && t.addr == x && y == UpOf(c) && y in nodes
        invariant After(c) == After(c0) && (c.Top? <==> y == NULL)
        invariant c.Under? ==> (x == nodes[y].right <==> c.side == R)
        decreases c
      {
        Around(nodes, root, c, t);
        x := y;
        Zoom(nodes, root, c.side, c.up, c.addr, c.red, c.sib, t);
        c, t := c.up, Mk(c.side, t, c.addr, c.red, c.sib);
        y := nodes[y].up;
        SpliceFootprint(nodes, root, c, t);
      }
    }

    /** The in-order successor of `x`, found through child and parent links, or null. */
    method Successor(x: Addr, ghost i: nat) returns (y: Addr)
      requires At(nodes, root, Top, tree) && i < |InOrder(tree)| && InOrder(tree)[i] == x
      ensures y == if i + 1 < |InOrder(tree)| then InOrder(tree)[i + 1] else NULL
    {
      hide At, Embeds, CtxEmbeds, Distinct, CtxDistinct, Separate, Addrs, CtxAddrs, Plug, InOrder, Before, After;
      InOrderAddrs(tree);
      ghost var c, t := Find(nodes, root, Top, tree, x);
      PlugTop(tree);
      TopDistinct(nodes, root, tree);
      Position(c, t, tree, i);
      SpliceFootprint(nodes, root, c, t);
      if nodes[x].right != NULL {
        Zoom(nodes, root, R, c, t.addr, t.red, t.left, t.right);
        y := Leftmost(nodes[x].right, Under(R, c, t.addr, t.red, t.left), t.right);
      } else {
        y := ClimbWhileRight(x, c, t);
      }
    }

    /** Follows right links to the end. */
    method Rightmost(x: Addr, ghost c0: Ctx, ghost t0: Tree) returns (y: Addr)
      requires At(nodes, root, c0, t0) && t0.Branch? && t0.addr == x
      ensures y == Last(t0)
    {
      hide At, Embeds, CtxEmbeds, Distinct, CtxDistinct, Separate, Addrs, CtxAddrs, Plug;
      y := x;
      ghost var c, t := c0, t0;
      SpliceFootprint(nodes, root, c, t);
      while nodes[y].right != NULL
        invariant At(nodes, root, c, t) && t.Branch? && t.addr == y && y in nodes
        invariant nodes[y].right == AddrOf(t.right) && (t.right.Leaf? <==> AddrOf(t.right) == NULL)
        invariant Last(t) == Last(t0)
        decreases t
      {
        y := nodes[y].right;
        Zoom(nodes, root, R, c, t.addr, t.red, t.left, t.right);
        c, t := Under(R, c, t.addr, t.red, t.left), t.right;
        SpliceFootprint(nodes, root, c, t);
      }
    }

    /** Climbs to the first ancestor that has the start in its right subtree. */
    method ClimbWhileLeft(x0: Addr, ghost c0: Ctx, ghost t0: Tree) returns (y: Addr)
      requires At(nodes, root, c0, t0) && t0.Branch? && t0.addr == x0
      ensures y == if Before(c0) != [] then Before(c0)[|Before(c0)| - 1] else NULL
    {
      hide At, Embeds, CtxEmbeds, Distinct, CtxDistinct, Separate, Addrs, CtxAddrs, Plug;
      var x := x0;
      ghost var c, t := c0, t0;
      SpliceFootprint(nodes, root, c, t);
      y := nodes[x].up;
      while y != NULL && x == nodes[y].left
        invariant At(nodes, root, c, t) && t.Branch? && t.addr == x && y == UpOf(c) && y in nodes
        invariant Before(c) == Before(c0) && (c.Top? <==> y == NULL)
        invariant c.Under? ==> (x == nodes[y].left <==> c.side == L)
        decreases c
      {
        Around(nodes, root, c, t);
        x := y;
        Zoom(nodes, root, c.side, c.up, c.addr, c.red, c.sib, t);
        c, t := c.up, Mk(c.side, t, c.addr, c.red, c.sib);
        y := nodes[y].up;
        SpliceFootprint(nodes, root, c, t);
      }
    }

    /** The in-order predecessor of `x`, found through child and parent links, or null. */
    method Predecessor(x: Addr, ghost i: nat) returns (y: Addr)
      requires At(nodes, root, Top, tree) && i < |InOrder(tree)| && InOrder(tree)[i] == x
      ensures y == if i > 0 then InOrder(tree)[i - 1] else NULL
    {
      hide At, Embeds, CtxEmbeds, Distinct, CtxDistinct, Separate, Addrs, CtxAddrs, Plug, InOrder, Before, After;
      InOrderAddrs(tree);
      ghost var c, t := Find(nodes, root, Top, tree, x);
      PlugTop(tree);
      TopDistinct(nodes, root, tree);
      Position(c, t, tree, i);
      SpliceFootprint(nodes, root, c, t);
      if nodes[x].left != NULL {
        Zoom(nodes, root, L, c, t.addr, t.red, t.right, t.left);
        y := Rightmost(nodes[x].left, Under(L, c, t.addr, t.red, t.right), t.left);
      } else {
        y := ClimbWhileLeft(x, c, t);
      }
    }

    // ---------- deletion ----------

    /** Takes out a node with at most one child.  The child's parent link is set even if it is the dummy node. */
    method SpliceOut(y: Addr, ghost c: Ctx, ghost t: Tree) returns (x: Addr)
      requires At(nodes, root, c, t) && t.Branch? && t.addr == y && (t.left.Leaf? || t.right.Leaf?)
      modifies `nodes, `root
      ensures At(nodes, root, c, OnlyChild(t)) && x == AddrOf(OnlyChild(t)) && x in nodes && nodes[x].up == UpOf(c)
      ensures SameData(old(nodes), nodes) && nodes.Keys == old(nodes).Keys
    {
      hide At, Embeds, CtxEmbeds, Distinct, CtxDistinct, Separate, Addrs, CtxAddrs, Plug;
      SpliceFootprint(nodes, root, c, t);
      if nodes[y].left != NULL {
        x := nodes[y].left;
      } else {
        x := nodes[y].right;
      }
      nodes := nodes[x := nodes[x].(up := nodes[y].up)];
      ReplaceChild(y, nodes[y].up, x, c);
      SpliceAt(old(nodes), nodes, old(root), root, c, t);
    }

    /** Puts `y`, which is no longer in the tree, in the place of `z`. */
    method ReplaceNode(z: Addr, y: Addr, ghost c: Ctx)
      requires CanReplace(nodes, root, c, z, y)
      modifies `nodes, `root
      ensures Replaced(old(nodes), nodes, old(root), root, c, z, y, old(nodes)[z].left, old(nodes)[z].right)
    {
      ReplaceChild(z, nodes[z].up, y, c);
      InheritLinks(z, y);
    }

    /** The rest of the source's replaceNode: `y` takes over the parent, the children and the colour of `z`. */
    method InheritLinks(z: Addr, y: Addr)
      requires z in nodes && y in nodes && y != z && nodes[z].left in nodes && nodes[z].right in nodes
      requires nodes[z].left != y && nodes[z].right != y && nodes[z].left != z && nodes[z].right != z
      requires nodes[z].left != nodes[z].right
      modifies `nodes
      ensures nodes == old(nodes[nodes[z].left := nodes[nodes[z].left].(up := y)]
                               [nodes[z].right := nodes[nodes[z].right].(up := y)]
                               [y := nodes[y].(up := nodes[z].up, left := nodes[z].left, right := nodes[z].right,
                                               red := nodes[z].red)])
    {
      ghost var n, u := nodes, nodes[y].(up := nodes[z].up);
      ghost var v := u.(left := n[z].left);
      ghost var w := v.(right := n[z].right);
      UpdateAmong(n, y, n[z].left, n[z].right, u, v, w, w.(red := n[z].red), n[n[z].left].(up := y),
                  n[n[z].right].(up := y));
      nodes := nodes[y := nodes[y].(up := nodes[z].up)];
      var left := nodes[z].left;
      nodes := nodes[left := nodes[left].(up := y)];
      nodes := nodes[y := nodes[y].(left := nodes[z].left)];
      var right := nodes[z].right;
      nodes := nodes[right := nodes[right].(up := y)];
      nodes := nodes[y := nodes[y].(right := nodes[z].right)];
      nodes := nodes[y := nodes[y].(red := nodes[z].red)];
    }

    /** Removes `z` from the tree.  A node that moves into its place keeps its address, since the log names it. */
    method DeleteNode(z: Addr, ghost i: nat)
      requires At(nodes, root, Top, tree) && IsRedBlack(tree)
      requires i < |InOrder(tree)| && InOrder(tree)[i] == z && z in nodes
      modifies `nodes, `root, `tree, `count, `size
      ensures At(nodes, root, Top, tree) && IsRedBlack(tree)
      ensures InOrder(tree) == old(InOrder(tree)[..i] + InOrder(tree)[i + 1..])
      ensures SameData(old(nodes), nodes)
      ensures count == old(count) - 1 && size == old(size) - |old(nodes)[z].key|
    {
      hide At, Embeds, CtxEmbeds, Distinct, CtxDistinct, Separate, Addrs, CtxAddrs, Plug, InOrder, Before, After;
      hide Balanced, NoRedRed, Fits, CtxNoRedRed, SameData, PaintNode, Min, MinCtx, RemoveMin;
      count := count - 1;
      size := size - |nodes[z].key|;
      InOrderAddrs(tree);
      ghost var c, t := Find(nodes, root, Top, tree, z);
      PlugTop(tree);
      TopDistinct(nodes, root, tree);
      SpliceFootprint(nodes, root, c, t);
      if nodes[z].left == NULL || nodes[z].right == NULL {
        OnlyChildInOrder(t);
        WithoutNode(c, t, tree, i, OnlyChild(t));
        DeleteLeafward(z, c, t);
      } else {
        SuccessorInOrder(t);
        WithoutNode(c, t, tree, i, Branch(t.left, Min(t.right).addr, t.red, RemoveMin(t.right)));
        DeleteInner(z, i, c, t);
      }
    }

    /** The case y == z: `z` has at most one child. */
    method DeleteLeafward(z: Addr, ghost c: Ctx, ghost t: Tree)
      requires At(nodes, root, c, t) && t.Branch? && t.addr == z && (t.left.Leaf? || t.right.Leaf?)
      requires Plug(c, t) == tree && IsRedBlack(tree)
      modifies `nodes, `root, `tree
      ensures At(nodes, root, Top, tree) && IsRedBlack(tree)
      ensures InOrder(tree) == InOrder(Plug(c, OnlyChild(t)))
      ensures SameData(old(nodes), nodes)
    {
      hide At, Embeds, CtxEmbeds, Distinct, CtxDistinct, Separate, Addrs, CtxAddrs, Plug, InOrder;
      hide Balanced, NoRedRed, Fits, CtxNoRedRed, SameData, PaintNode;
      SpliceFootprint(nodes, root, c, t);
      var needFix := !nodes[z].red;
      SplicedRules(c, t);
      var x := SpliceOut(z, c, t);
      ghost var n := nodes;
      FinishDeletion(x, needFix, c, OnlyChild(t));
      SameDataTransitive(old(nodes), n, nodes);
    }

    /** Restores the rules if a black node went away. */
    method FinishDeletion(x: Addr, needFix: bool, ghost c: Ctx, ghost t: Tree)
      requires At(nodes, root, c, t) && x == AddrOf(t) && x in nodes && nodes[x].up == UpOf(c)
      requires if needFix then Short(c, t) else IsRedBlack(Plug(c, t))
      modifies `nodes, `root, `tree
      ensures At(nodes, root, Top, tree) && IsRedBlack(tree)
      ensures InOrder(tree) == InOrder(Plug(c, t))
      ensures SameData(old(nodes), nodes)
    {
      hide At, Embeds, CtxEmbeds, Distinct, CtxDistinct, Separate, Addrs, CtxAddrs, Plug, InOrder;
      hide Balanced, NoRedRed, Fits, CtxNoRedRed, SameData, PaintNode;
      SameDataReflexive(nodes);
      Focus(nodes, root, c, t);
      if needFix {
        tree := DeleteNodeFix(x, c, t);
      } else {
        ZoomOut(nodes, root, c, t);
        tree := Plug(c, t);
      }
    }

    /** The case y != z: the successor `y` of `z` is spliced out and then takes the place of `z`. */
    method DeleteInner(z: Addr, ghost i: nat, ghost c: Ctx, ghost t: Tree)
      requires At(nodes, root, c, t) && At(nodes, root, Top, tree) && Plug(c, t) == tree && IsRedBlack(tree)
      requires t.Branch? && t.addr == z && t.left.Branch? && t.right.Branch?
      requires i < |InOrder(tree)| && InOrder(tree)[i] == z
      modifies `nodes, `root, `tree
      ensures At(nodes, root, Top, tree) && IsRedBlack(tree)
      ensures InOrder(tree) == InOrder(Plug(c, Branch(t.left, Min(t.right).addr, t.red, RemoveMin(t.right))))
      ensures SameData(old(nodes), nodes)
    {
      hide At, Embeds, CtxEmbeds, Distinct, CtxDistinct, Separate, Addrs, CtxAddrs, Plug, InOrder, Before, After;
      hide Balanced, NoRedRed, Fits, CtxNoRedRed, SameData, PaintNode, Min, MinCtx, RemoveMin, First;
      ghost var l, red, r := t.left, t.red, t.right;
      TopDistinct(nodes, root, tree);
      Position(c, t, tree, i);
      FirstIsMin(r);
      var y := Successor(z, i);
      ghost var cy, ty := MinCtx(Under(R, c, z, red, l), r), Min(r);
      AtMin(nodes, root, c, l, z, red, r);
      SpliceFootprint(nodes, root, cy, ty);
      var needFix := !nodes[y].red;
      MinIsGone(nodes, root, c, t);
      var x := SpliceOut(y, cy, ty);
      AtRemovedMin(nodes, root, c, l, z, red, r);
      label spliced:
      ReplaceFootprint(nodes, root, c, Branch(l, z, red, RemoveMin(r)), y);
      ReplaceNode(z, y, c);
      ReplaceAt(old@spliced(nodes), nodes, old@spliced(root), root, c, l, z, red, RemoveMin(r), y);
      ReplacedData(old@spliced(nodes), nodes, old@spliced(root), root, c, z, y, l.addr, AddrOf(RemoveMin(r)));
      SameDataTransitive(old(nodes), old@spliced(nodes), nodes);
      ghost var n := nodes;
      AtRemovedMin(nodes, root, c, l, y, red, r);
      InnerRules(c, l, z, red, r, y);
      ghost var cy' := MinCtx(Under(R, c, y, red, l), r);
      ReplacedUp(old@spliced(nodes), nodes, root, c, l, z, red, r, y, x);
      FinishDeletion(x, needFix, cy', ty.right);
      SameDataTransitive(old(nodes), n, nodes);
    }
  }
}
