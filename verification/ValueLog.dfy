/** The append-only value log: records laid out back to front in the blocks of an arena. */
module ValueLog {
  import opened Addresses
  import opened Keys
  import opened Arenas
  import opened LogRecords

  // ---------- little-endian words ----------

  const TWO32: nat := 0x1_0000_0000

  predicate IsWord(n: nat) {
    n < TWO32
  }

  function PutWord(n: nat): (b: seq<Byte>)
    requires IsWord(n)
    ensures |b| == 4
  {
    [n % 0x100, n / 0x100 % 0x100, n / 0x100 / 0x100 % 0x100, n / 0x100 / 0x100 / 0x100]
  }

  function GetWord(b: seq<Byte>): nat
    requires |b| >= 4
  {
    (b[0] as int) + 0x100 * (b[1] as int) + 0x1_0000 * (b[2] as int) + 0x100_0000 * (b[3] as int)
  }

  lemma WordRoundTrip(n: nat, rest: seq<Byte>)
    requires IsWord(n)
    ensures GetWord(PutWord(n) + rest) == n
  {
    var b := PutWord(n) + rest;
    assert b[0] == PutWord(n)[0] && b[1] == PutWord(n)[1] && b[2] == PutWord(n)[2] && b[3] == PutWord(n)[3];
  }

  predicate IsAddr(a: Addr) {
    IsWord(a.idx) && IsWord(a.off)
  }

  datatype Hdr = Hdr(nodeAddr: Addr, oldValue: Addr, valueLen: nat)

  /** The header as stored: value length, previous value, node. */
  function StoreHdr(h: Hdr): (b: seq<Byte>)
    requires IsAddr(h.nodeAddr) && IsAddr(h.oldValue) && IsWord(h.valueLen)
    ensures |b| == HDR_SIZE
  {
    PutWord(h.valueLen)
    + PutWord(h.oldValue.idx) + PutWord(h.oldValue.off)
    + PutWord(h.nodeAddr.idx) + PutWord(h.nodeAddr.off)
  }

  function LoadHdr(b: seq<Byte>): Hdr
    requires |b| >= HDR_SIZE
  {
    var valueLen := GetWord(b);
    var oldValue := Addr(GetWord(b[4..]), GetWord(b[8..]));
    var nodeAddr := Addr(GetWord(b[12..]), GetWord(b[16..]));
    Hdr(nodeAddr, oldValue, valueLen)
  }

  lemma HdrRoundTrip(h: Hdr, rest: seq<Byte>)
    requires IsAddr(h.nodeAddr) && IsAddr(h.oldValue) && IsWord(h.valueLen)
    ensures LoadHdr(StoreHdr(h) + rest) == h
  {
    var b := StoreHdr(h) + rest;
    var e := PutWord(h.nodeAddr.off) + rest;
    var d := PutWord(h.nodeAddr.idx) + e;
    var c := PutWord(h.oldValue.off) + d;
    var a := PutWord(h.oldValue.idx) + c;
    assert b == PutWord(h.valueLen) + a;
    assert b[4..] == a && b[8..] == c && b[12..] == d && b[16..] == e;
    WordRoundTrip(h.valueLen, a);
    WordRoundTrip(h.oldValue.idx, c);
    WordRoundTrip(h.oldValue.off, d);
    WordRoundTrip(h.nodeAddr.idx, e);
    WordRoundTrip(h.nodeAddr.off, rest);
  }

  // ---------- layout ----------

  ghost predicate Stored(blocks: seq<Block>, r: LogRec) {
    && r.idx < |blocks| && 0 <= r.Start() && r.end <= blocks[r.idx].length <= |blocks[r.idx].buf|
    && IsAddr(r.node) && IsAddr(r.prev) && IsWord(|r.value|)
    && blocks[r.idx].buf[r.Start()..r.end - HDR_SIZE] == r.value
    && blocks[r.idx].buf[r.end - HDR_SIZE..r.end] == StoreHdr(Hdr(r.node, r.prev, |r.value|))
  }

  /** A record starts where the previous one ends, or at the start of the next block once the last is closed. */
  ghost predicate Follows(blocks: seq<Block>, r: LogRec, s: LogRec) {
    || (s.idx == r.idx && s.Start() == r.end)
    || (s.idx == r.idx + 1 && s.Start() == 0 && r.idx < |blocks| && blocks[r.idx].length == r.end)
  }

  /** The used parts of the blocks are exactly partitioned into the records, in order. */
  ghost predicate Partitioned(blocks: seq<Block>, recs: seq<LogRec>) {
    && (forall i | 0 <= i < |recs| :: Stored(blocks, recs[i]))
    && (forall i | 0 < i < |recs| :: Follows(blocks, recs[i - 1], recs[i]))
    && if recs == [] then blocks == []
       else
         && recs[0].idx == 0 && recs[0].Start() == 0
         && recs[|recs| - 1].idx == |blocks| - 1 && recs[|recs| - 1].end == blocks[|blocks| - 1].length
  }

  lemma {:induction false} RecordsInOrder(blocks: seq<Block>, recs: seq<LogRec>, i: nat, j: nat)
    requires i < j < |recs| && Partitioned(blocks, recs)
    ensures recs[i].idx < recs[j].idx || (recs[i].idx == recs[j].idx && recs[i].end <= recs[j].Start())
    decreases j
  {
    assert Follows(blocks, recs[j - 1], recs[j]);
    if i < j - 1 { RecordsInOrder(blocks, recs, i, j - 1); }
  }

  lemma DistinctAddrs(blocks: seq<Block>, recs: seq<LogRec>, i: nat, j: nat)
    requires i < |recs| && j < |recs| && Partitioned(blocks, recs) && recs[i].At() == recs[j].At()
    ensures i == j
  {
    if i < j { RecordsInOrder(blocks, recs, i, j); }
    if j < i { RecordsInOrder(blocks, recs, j, i); }
  }

  /** No block is left empty: every block holds the end of a record. */
  lemma {:induction false} NoEmptyBlock(blocks: seq<Block>, recs: seq<LogRec>, b: nat)
    requires Partitioned(blocks, recs) && b < |blocks|
    ensures exists i :: 0 <= i < |recs| && recs[i].idx == b && recs[i].end == blocks[b].length
  {
    var i := |recs| - 1;
    while recs[i].idx != b
      invariant 0 <= i < |recs| && b <= recs[i].idx && recs[i].end == blocks[recs[i].idx].length
    {
      i := BlockStart(blocks, recs, i);
    }
  }

  /** Steps back from the last record of a block to the last record of the block before it. */
  lemma {:induction false} BlockStart(blocks: seq<Block>, recs: seq<LogRec>, i: nat) returns (j: nat)
    requires Partitioned(blocks, recs) && i < |recs| && recs[i].idx > 0
    ensures j < i && recs[j].idx == recs[i].idx - 1 && recs[j].end == blocks[recs[j].idx].length
    decreases i
  {
    if i == 0 {
    } else {
      assert Follows(blocks, recs[i - 1], recs[i]);
      if recs[i - 1].idx == recs[i].idx {
        j := BlockStart(blocks, recs, i - 1);
      } else {
        j := i - 1;
      }
    }
  }

  /** The position after the first `k` records: what a checkpoint taken at that moment remembers. */
  ghost predicate Marks(recs: seq<LogRec>, k: nat, cp: Checkpoint) {
    k <= |recs| &&
    if k == 0 then cp.blocks == 0 && cp.offsetInBlock == 0
    else cp.blocks == recs[k - 1].idx + 1 && cp.offsetInBlock == recs[k - 1].end
  }

  lemma MarksUnique(blocks: seq<Block>, recs: seq<LogRec>, j: nat, k: nat, cp: Checkpoint, cp': Checkpoint)
    requires Partitioned(blocks, recs) && Marks(recs, j, cp) && Marks(recs, k, cp')
    ensures cp.IsSamePosition(cp') <==> j == k
  {
    if 0 < j && 0 < k && cp.IsSamePosition(cp') {
      DistinctAddrs(blocks, recs, j - 1, k - 1);
    }
  }

  // ---------- lemmas about the layout ----------

  lemma StoredHeader(blocks: seq<Block>, r: LogRec)
    requires Stored(blocks, r)
    ensures LoadHdr(blocks[r.idx].buf[r.end - HDR_SIZE..]) == Hdr(r.node, r.prev, |r.value|)
    ensures GetWord(blocks[r.idx].buf[r.end - HDR_SIZE..]) == |r.value|
  {
    var h, buf := Hdr(r.node, r.prev, |r.value|), blocks[r.idx].buf;
    assert buf[r.end - HDR_SIZE..] == StoreHdr(h) + buf[r.end..];
    HdrRoundTrip(h, buf[r.end..]);
  }

  /** How the blocks change when room for a record is handed out and the record is written there. */
  ghost predicate Appends(blocks: seq<Block>, blocks': seq<Block>, r: LogRec) {
    && Stored(blocks', r) && r.idx == |blocks'| - 1 && r.end == blocks'[r.idx].length
    && if |blocks'| == |blocks| then
         && r.Start() == blocks[r.idx].length <= |blocks[r.idx].buf| == |blocks'[r.idx].buf|
         && blocks'[..r.idx] == blocks[..r.idx]
         && blocks'[r.idx].buf[..r.Start()] == blocks[r.idx].buf[..r.Start()]
       else
         |blocks'| == |blocks| + 1 && blocks'[..|blocks|] == blocks && r.Start() == 0
  }

  lemma StoredValue(blocks: seq<Block>, r: LogRec)
    requires Stored(blocks, r)
    ensures r.idx < |blocks| && 0 <= r.Start() && r.end <= |blocks[r.idx].buf|
    ensures blocks[r.idx].buf[r.Start()..r.end - HDR_SIZE] == r.value
  {
  }

  lemma AppendPartitioned(blocks: seq<Block>, recs: seq<LogRec>, blocks': seq<Block>, r: LogRec)
    requires Partitioned(blocks, recs) && Appends(blocks, blocks', r)
    ensures Partitioned(blocks', recs + [r])
  {
    hide Stored;
    forall i | 0 <= i < |recs| ensures Stored(blocks', recs[i]) {
      AppendKeepsStored(blocks, blocks', r, recs[i]);
    }
    forall i | 0 < i < |recs| ensures Follows(blocks', recs[i - 1], recs[i]) {
      AppendKeepsOrder(blocks, recs, blocks', r, i);
    }
    if recs != [] {
      assert blocks'[|blocks| - 1].length == blocks[|blocks| - 1].length || |blocks'| == |blocks| by {
        if |blocks'| != |blocks| { assert blocks'[|blocks| - 1] == blocks'[..|blocks|][|blocks| - 1]; }
      }
      assert Follows(blocks', recs[|recs| - 1], r);
    }
  }

  lemma AppendKeepsOrder(blocks: seq<Block>, recs: seq<LogRec>, blocks': seq<Block>, r: LogRec, i: nat)
    requires Partitioned(blocks, recs) && Appends(blocks, blocks', r) && 0 < i < |recs|
    ensures Follows(blocks', recs[i - 1], recs[i])
  {
    var p, q := recs[i - 1], recs[i];
    assert Follows(blocks, p, q);
    if q.idx == p.idx + 1 {
      if i < |recs| - 1 { RecordsInOrder(blocks, recs, i, |recs| - 1); }
      assert blocks'[p.idx] == blocks'[..|blocks| - 1][p.idx] == blocks[..|blocks| - 1][p.idx] by {
        if |blocks'| != |blocks| { assert blocks'[..|blocks| - 1] == blocks'[..|blocks|][..|blocks| - 1]; }
      }
    }
  }

  lemma AppendKeepsStored(blocks: seq<Block>, blocks': seq<Block>, r: LogRec, s: LogRec)
    requires Stored(blocks, s) && Appends(blocks, blocks', r)
    ensures Stored(blocks', s)
  {
    if |blocks'| == |blocks| && s.idx == r.idx {
      var b, b' := blocks[r.idx].buf, blocks'[r.idx].buf;
      SameSlice(b, b', r.Start(), s.Start(), s.end - HDR_SIZE);
      SameSlice(b, b', r.Start(), s.end - HDR_SIZE, s.end);
    } else if |blocks'| == |blocks| {
      assert blocks'[s.idx] == blocks'[..r.idx][s.idx] == blocks[..r.idx][s.idx];
    } else {
      assert blocks'[s.idx] == blocks'[..|blocks|][s.idx];
    }
  }

  lemma SameSlice<T>(b: seq<T>, b': seq<T>, n: nat, lo: nat, hi: nat)
    requires n <= |b| && n <= |b'| && b[..n] == b'[..n] && lo <= hi <= n
    ensures b[lo..hi] == b'[lo..hi]
  {
    forall i | lo <= i < hi ensures b[i] == b'[i] {
      assert b[..n][i] == b'[..n][i];
    }
  }

  lemma TruncatePartitioned(blocks: seq<Block>, recs: seq<LogRec>, blocks': seq<Block>, k: nat, cp: Checkpoint)
    requires Partitioned(blocks, recs) && Marks(recs, k, cp) && |blocks'| == cp.blocks <= |blocks|
    requires forall i | 0 <= i < |blocks'| :: blocks'[i].buf == blocks[i].buf
    requires forall i | 0 <= i < |blocks'| - 1 :: blocks'[i] == blocks[i]
    requires |blocks'| > 0 ==> blocks'[|blocks'| - 1].length == cp.offsetInBlock
    ensures Partitioned(blocks', recs[..k])
  {
    hide Stored;
    forall i | 0 <= i < k ensures Stored(blocks', recs[i]) {
      TruncateStored(blocks, recs, blocks', k, cp, i);
    }
    forall i | 0 < i < k ensures Follows(blocks', recs[i - 1], recs[i]) {
      assert Follows(blocks, recs[i - 1], recs[i]);
      if i < k - 1 { RecordsInOrder(blocks, recs, i, k - 1); }
    }
  }

  lemma TruncateStored(blocks: seq<Block>, recs: seq<LogRec>, blocks': seq<Block>, k: nat, cp: Checkpoint, i: nat)
    requires Partitioned(blocks, recs) && Marks(recs, k, cp) && |blocks'| == cp.blocks <= |blocks| && i < k
    requires forall b | 0 <= b < |blocks'| :: blocks'[b].buf == blocks[b].buf
    requires forall b | 0 <= b < |blocks'| - 1 :: blocks'[b] == blocks[b]
    requires |blocks'| > 0 ==> blocks'[|blocks'| - 1].length == cp.offsetInBlock
    ensures Stored(blocks', recs[i])
  {
    assert Stored(blocks, recs[i]) && Stored(blocks, recs[k - 1]);
    if i < k - 1 { RecordsInOrder(blocks, recs, i, k - 1); }
  }

  /** Overwriting a value in place by one of the same length. */
  lemma OverwritePartitioned(blocks: seq<Block>, recs: seq<LogRec>, j: nat, v: Value)
    requires Partitioned(blocks, recs) && j < |recs| && |v| == |recs[j].value|
    ensures recs[j].Start() >= 0 && recs[j].idx < |blocks| && recs[j].end <= |blocks[recs[j].idx].buf|
    ensures Partitioned(Written(blocks, Addr(recs[j].idx, recs[j].Start()), v), recs[j := recs[j].(value := v)])
  {
    var r := recs[j];
    assert Stored(blocks, r);
    hide Stored, Splice;
    var blocks' := Written(blocks, Addr(r.idx, r.Start()), v);
    var recs' := recs[j := r.(value := v)];
    forall i | 0 <= i < |recs| ensures Stored(blocks', recs'[i]) {
      OverwriteStored(blocks, recs, j, v, i);
    }
    SameGeometry(blocks, recs, blocks', recs');
  }

  lemma SameGeometry(blocks: seq<Block>, recs: seq<LogRec>, blocks': seq<Block>, recs': seq<LogRec>)
    requires Partitioned(blocks, recs) && |blocks| == |blocks'| && |recs| == |recs'|
    requires forall i | 0 <= i < |blocks| :: blocks'[i].length == blocks[i].length
    requires forall i | 0 <= i < |recs| :: recs'[i].At() == recs[i].At() && recs'[i].Size() == recs[i].Size()
    requires forall i | 0 <= i < |recs| :: Stored(blocks', recs'[i])
    ensures Partitioned(blocks', recs')
  {
    hide Stored;
    forall i | 0 < i < |recs| ensures Follows(blocks', recs'[i - 1], recs'[i]) {
      assert Follows(blocks, recs[i - 1], recs[i]);
      assert recs'[i - 1].At() == recs[i - 1].At() && recs'[i].At() == recs[i].At();
      assert recs'[i].Size() == recs[i].Size();
    }
  }

  lemma StoredElsewhere(blocks: seq<Block>, r: LogRec, v: Value, s: LogRec)
    requires Stored(blocks, r) && Stored(blocks, s) && |v| == |r.value|
    requires r.idx == s.idx ==> s.end <= r.Start() || r.end <= s.Start()
    ensures Stored(Written(blocks, Addr(r.idx, r.Start()), v), s)
  {
    hide Splice;
    if s.idx == r.idx {
      var b := blocks[r.idx].buf;
      SpliceElsewhere(b, r.Start(), v, s.end - HDR_SIZE, s.end);
      SpliceElsewhere(b, r.Start(), v, s.Start(), s.end - HDR_SIZE);
    }
  }

  lemma StoredHere(blocks: seq<Block>, r: LogRec, v: Value)
    requires Stored(blocks, r) && |v| == |r.value|
    ensures Stored(Written(blocks, Addr(r.idx, r.Start()), v), r.(value := v))
  {
    hide Splice;
    SpliceElsewhere(blocks[r.idx].buf, r.Start(), v, r.end - HDR_SIZE, r.end);
  }

  lemma OverwriteStored(blocks: seq<Block>, recs: seq<LogRec>, j: nat, v: Value, i: nat)
    requires Partitioned(blocks, recs) && j < |recs| && i < |recs| && |v| == |recs[j].value|
    requires Stored(blocks, recs[j])
    ensures Stored(Written(blocks, Addr(recs[j].idx, recs[j].Start()), v), recs[j := recs[j].(value := v)][i])
  {
    if i == j {
      StoredHere(blocks, recs[j], v);
    } else {
      assert Stored(blocks, recs[i]);
      hide Stored;
      if i < j { RecordsInOrder(blocks, recs, i, j); } else { RecordsInOrder(blocks, recs, j, i); }
      StoredElsewhere(blocks, recs[j], v, recs[i]);
    }
  }

  // ---------- the log ----------

  class Vlog {
    const mem: Arena
    ghost var recs: seq<LogRec>

    ghost predicate Valid()
      reads this, mem
    {
      mem.Valid() && Partitioned(mem.blocks, recs) && Chained(recs)
    }

    constructor ()
      ensures Valid() && recs == [] && mem.blocks == [] && fresh(mem)
    {
      mem := new Arena();
      recs := [];
    }

    method TakeCheckpoint() returns (cp: Checkpoint)
      requires Valid()
      ensures cp == mem.Current() && Marks(recs, |recs|, cp) && mem.Reachable(cp)
    {
      cp := mem.TakeCheckpoint();
    }

    /** The two writes of a new record. */
    method StoreRecord(at: Addr, value: Value, hdr: Hdr)
      requires mem.Valid() && at.idx < |mem.blocks|
      requires IsAddr(hdr.nodeAddr) && IsAddr(hdr.oldValue) && IsWord(hdr.valueLen)
      requires at.off + |value| + HDR_SIZE <= mem.blocks[at.idx].length
      modifies mem`blocks
      ensures mem.Valid() && at.off + |value| + HDR_SIZE <= |old(mem.blocks)[at.idx].buf|
      ensures mem.blocks ==
                Written(Written(old(mem.blocks), at, value), Addr(at.idx, at.off + |value|), StoreHdr(hdr))
    {
      mem.Write(at, value);
      mem.Write(Addr(at.idx, at.off + |value|), StoreHdr(hdr));
    }

    /** Writes the value and then the header; the record's address is the end of the header. */
    method AppendValue(nodeAddr: Addr, prev: Addr, value: Value) returns (addr: Addr)
      requires Valid() && mem.HasRoom() && HDR_SIZE + |value| <= MAX_BLOCK_SIZE
      requires IsAddr(nodeAddr) && prev == LastAddr(recs, nodeAddr)
      modifies this, mem
      ensures Valid() && addr != NULL
      ensures recs == old(recs) + [LogRec(addr.idx, addr.off, nodeAddr, prev, value)]
      ensures |mem.blocks| <= |old(mem.blocks)| + 1
    {
      hide Partitioned, Chained, Stored, AlignUp;
      PrevIsAddr(nodeAddr);
      var size := HDR_SIZE + |value|;
      var at := mem.Alloc(size, false);
      ghost var blocks := mem.blocks;
      var hdr := Hdr(nodeAddr, prev, |value|);
      StoreRecord(at, value, hdr);
      addr := Addr(at.idx, at.off + size);
      ghost var r := LogRec(addr.idx, addr.off, nodeAddr, prev, value);
      RecordWritten(blocks, r);
      AppendPartitioned(old(mem.blocks), recs, mem.blocks, r);
      ChainedAppend(recs, r);
      recs := recs + [r];
    }

    lemma PrevIsAddr(a: Addr)
      requires Valid() && |mem.blocks| <= MAX_UINT32
      ensures IsAddr(LastAddr(recs, a))
    {
      var i := LastIdx(recs, a);
      if i >= 0 { assert Stored(mem.blocks, recs[i]); }
    }

    /** Two checkpoints have the same position exactly if they were taken after the same number of records. */
    lemma SamePosition(j: nat, k: nat, cp: Checkpoint, cp': Checkpoint)
      requires Valid() && Marks(recs, j, cp) && Marks(recs, k, cp')
      ensures cp.IsSamePosition(cp') <==> j == k
    {
      MarksUnique(mem.blocks, recs, j, k, cp, cp');
    }

    lemma ReachableMark(k: nat, cp: Checkpoint)
      requires Valid() && Marks(recs, k, cp)
      requires cp.blockSize <= MAX_BLOCK_SIZE && (cp.blocks > 0 ==> cp.blockSize > 0)
      ensures mem.Reachable(cp)
    {
      if k > 0 { Placed(k - 1); }
    }

    lemma LogChained()
      requires Valid()
      ensures Chained(recs)
    {
    }

    lemma Placed(j: nat)
      requires Valid() && j < |recs|
      ensures Stored(mem.blocks, recs[j])
      ensures recs[j].idx < |mem.blocks| && 0 <= recs[j].Start() && recs[j].At() != NULL
      ensures recs[j].end <= mem.blocks[recs[j].idx].length <= |mem.blocks[recs[j].idx].buf|
    {
    }

    /** Reads the header of the record that ends at `addr`. */
    method ReadHdr(addr: Addr, ghost j: nat) returns (hdr: Hdr)
      requires Valid() && j < |recs| && recs[j].At() == addr
      ensures hdr == Hdr(recs[j].node, recs[j].prev, |recs[j].value|)
    {
      hide Partitioned, Chained, Stored, LoadHdr, GetWord, StoreHdr;
      Placed(j);
      StoredHeader(mem.blocks, recs[j]);
      hdr := LoadHdr(mem.blocks[addr.idx].buf[addr.off - HDR_SIZE..]);
    }

    method GetValue(addr: Addr, ghost j: nat) returns (value: Value)
      requires Valid() && j < |recs| && recs[j].At() == addr
      ensures value == recs[j].value
    {
      hide Partitioned, Chained, Stored, LoadHdr, GetWord, StoreHdr;
      Placed(j);
      StoredHeader(mem.blocks, recs[j]);
      StoredValue(mem.blocks, recs[j]);
      var lenOff := addr.off - HDR_SIZE;
      var block := mem.blocks[addr.idx].buf;
      var valueLen := GetWord(block[lenOff..]);
      if valueLen == 0 {
        return [];
      }
      var valueOff := lenOff - valueLen;
      value := block[valueOff..lenOff];
    }

    /** Whether the record at `addr` was appended after the checkpoint was taken. */
    method CanModify(cp: Checkpoint, addr: Addr, ghost k: nat, ghost j: nat) returns (ok: bool)
      requires Valid() && Marks(recs, k, cp) && j < |recs| && recs[j].At() == addr
      ensures ok <==> k <= j
    {
      hide Partitioned, Chained, Stored;
      if j < k - 1 { RecordsInOrder(mem.blocks, recs, j, k - 1); }
      if 0 < k <= j { RecordsInOrder(mem.blocks, recs, k - 1, j); }
      Placed(j);
      if addr.idx > cp.blocks - 1 {
        return true;
      }
      if addr.idx == cp.blocks - 1 && addr.off > cp.offsetInBlock {
        return true;
      }
      return false;
    }

    /** Follows the previous-value chain of a node down to its newest record below the checkpoint. */
    method GetSnapshotValue(addr0: Addr, snap: Checkpoint, ghost node: Addr, ghost k: nat)
      returns (value: Value, ok: bool)
      requires Valid() && Marks(recs, k, snap) && addr0 == LastAddr(recs, node)
      ensures ok <==> node in Fold(recs[..k])
      ensures ok ==> value == Fold(recs[..k])[node]
    {
      hide Partitioned, Chained, Fold, LastAddr;
      FoldIsLast(recs[..k], node);
      value, ok := [], false;
      var addr := addr0;
      ghost var n := |recs|;
      assert recs[..n] == recs;
      while addr != NULL
        invariant k <= n <= |recs| && addr == LastAddr(recs[..n], node)
        decreases n
      {
        NullIsNone(n, node);
        LastAddrIs(recs[..n], node);
        ghost var j := LastIdx(recs[..n], node);
        var modifiable := CanModify(snap, addr, k, j);
        if !modifiable {
          LastIdxUnique(recs[..k], node, j);
          value := GetValue(addr, j);
          return value, true;
        }
        var hdr := ReadHdr(addr, j);
        ChainedAt(recs, j);
        addr := hdr.oldValue;
        n := j;
      }
      NullIsNone(n, node);
      LastIdxPrefix(recs[..n], node, k);
      assert recs[..n][..k] == recs[..k];
    }

    /** No record has the null address, so a null value pointer means no record. */
    lemma NullIsNone(n: nat, a: Addr)
      requires Valid() && n <= |recs|
      ensures LastAddr(recs[..n], a) == NULL <==> LastIdx(recs[..n], a) < 0
    {
      var i := LastIdx(recs[..n], a);
      if i >= 0 { assert Stored(mem.blocks, recs[i]); }
    }

    lemma StepBack(k: nat)
      requires Valid() && 0 < k <= |recs|
      ensures var s := recs[k - 1];
              && s.Start() >= 0
              && if k == 1 then s.idx == 0 && s.Start() == 0
                 else
                   var r := recs[k - 2];
                   || (s.idx == r.idx && s.Start() == r.end > 0)
                   || (s.idx == r.idx + 1 && s.Start() == 0 && r.idx < |mem.blocks|
                     && mem.blocks[r.idx].length == r.end)
    {
      Placed(k - 1);
      if k > 1 {
        Placed(k - 2);
        assert Follows(mem.blocks, recs[k - 2], recs[k - 1]);
      }
    }

    /** From the end of a record to the end of the one before, crossing into the previous block where needed. */
    method MoveBackCursor(cursor0: Checkpoint, hdr: Hdr, ghost k: nat) returns (cursor: Checkpoint)
      requires Valid() && 0 < k && Marks(recs, k, cursor0) && hdr.valueLen == |recs[k - 1].value|
      ensures Marks(recs, k - 1, cursor)
    {
      hide Partitioned, Chained, Stored;
      StepBack(k);
      cursor := cursor0.(offsetInBlock := cursor0.offsetInBlock - (HDR_SIZE + hdr.valueLen));
      if cursor.offsetInBlock == 0 {
        cursor := cursor.(blocks := cursor.blocks - 1);
        if cursor.blocks > 0 {
          cursor := cursor.(offsetInBlock := mem.blocks[cursor.blocks - 1].length);
        }
      }
    }

    /** Stores a value of the same length over the value of an existing record. */
    method Overwrite(addr: Addr, value: Value, ghost j: nat)
      requires Valid() && j < |recs| && recs[j].At() == addr && |value| == |recs[j].value|
      modifies `recs, mem`blocks
      ensures Valid() && recs == old(recs)[j := old(recs)[j].(value := value)]
      ensures |mem.blocks| == |old(mem.blocks)|
      ensures forall i | 0 <= i < |mem.blocks| :: mem.blocks[i].length == old(mem.blocks)[i].length
    {
      hide Partitioned, Chained, Stored, Splice;
      Placed(j);
      OverwritePartitioned(mem.blocks, recs, j, value);
      ChainedOverwrite(recs, j, value);
      mem.Write(Addr(addr.idx, addr.off - HDR_SIZE - |value|), value);
      recs := recs[j := recs[j].(value := value)];
    }

    /** Forgets every record after the first `k`. */
    method Truncate(cp: Checkpoint, ghost k: nat)
      requires Valid() && Marks(recs, k, cp) && mem.Reachable(cp)
      modifies this, mem
      ensures Valid() && recs == old(recs)[..k]
      ensures mem.blockSize == cp.blockSize && |mem.blocks| <= |old(mem.blocks)|
    {
      hide Partitioned, Chained;
      mem.Truncate(cp);
      TruncatePartitioned(old(mem.blocks), recs, mem.blocks, k, cp);
      ChainedPrefix(recs, k);
      recs := recs[..k];
    }

    method Reset()
      modifies this, mem
      ensures Valid() && recs == [] && mem.blocks == []
    {
      mem.Reset();
      recs := [];
    }
  }

  lemma RecordWritten(blocks: seq<Block>, r: LogRec)
    requires r.idx < |blocks| && 0 <= r.Start() && r.end <= blocks[r.idx].length <= |blocks[r.idx].buf|
    requires IsAddr(r.node) && IsAddr(r.prev) && IsWord(|r.value|)
    ensures var valueAt, hdrAt := Addr(r.idx, r.Start()), Addr(r.idx, r.end - HDR_SIZE);
            var blocks' := Written(Written(blocks, valueAt, r.value), hdrAt, StoreHdr(Hdr(r.node, r.prev, |r.value|)));
            && Stored(blocks', r) && blocks'[r.idx].length == blocks[r.idx].length
            && |blocks'[r.idx].buf| == |blocks[r.idx].buf|
            && blocks'[r.idx].buf[..r.Start()] == blocks[r.idx].buf[..r.Start()]
  {
    hide Splice;
    var b, start := blocks[r.idx].buf, r.Start();
    var h := StoreHdr(Hdr(r.node, r.prev, |r.value|));
    var b1 := Splice(b, start, r.value);
    SpliceElsewhere(b, start, r.value, 0, start);
    SpliceElsewhere(b1, r.end - HDR_SIZE, h, 0, start);
    SpliceElsewhere(b1, r.end - HDR_SIZE, h, start, r.end - HDR_SIZE);
    var b2 := Splice(b1, r.end - HDR_SIZE, h);
    assert b2[..start] == b2[0..start] && b[..start] == b[0..start];
  }
}
