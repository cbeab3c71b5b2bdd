/** The bump allocator shared by the node table and the value log. */
module Arenas {
  import opened Addresses
  import opened Keys

  const MAX_BLOCK_SIZE: nat := 0x800_0000
  const INIT_BLOCK_SIZE: nat := 4 * 1024

  datatype Block = Block(buf: seq<Byte>, length: nat)

  datatype Checkpoint = Checkpoint(blockSize: nat, blocks: nat, offsetInBlock: nat) {
    predicate IsSamePosition(other: Checkpoint) {
      blocks == other.blocks && offsetInBlock == other.offsetInBlock
    }
  }

  /** A stretch of memory handed out and not taken back: `len` bytes at `addr`. */
  datatype Extent = Extent(addr: Addr, len: nat)

  predicate Overlap(e: Extent, f: Extent) {
    e.addr.idx == f.addr.idx && e.addr.off < f.addr.off + f.len && f.addr.off < e.addr.off + e.len
  }

  predicate Below(blocks: seq<Block>, e: Extent) {
    e.addr.idx < |blocks| && e.addr.off + e.len <= blocks[e.addr.idx].length
  }

  /** Rounds up to a multiple of eight by clearing the three low bits of n + 7. */
  function AlignUp(n: nat): (r: nat)
    ensures r % 8 == 0 && n <= r < n + 8
  {
    (n + 7) / 8 * 8
  }

  /** The buffer after `data` has been stored at `off`. */
  function Splice(b: seq<Byte>, off: nat, data: seq<Byte>): (b': seq<Byte>)
    requires off + |data| <= |b|
    ensures |b'| == |b| && b'[off..off + |data|] == data
  {
    b[..off] + data + b[off + |data|..]
  }

  lemma SpliceElsewhere(b: seq<Byte>, off: nat, data: seq<Byte>, lo: nat, hi: nat)
    requires off + |data| <= |b| && lo <= hi <= |b| && (hi <= off || off + |data| <= lo)
    ensures Splice(b, off, data)[lo..hi] == b[lo..hi]
  {
    var b' := Splice(b, off, data);
    assert forall i | 0 <= i < off :: b'[i] == b[i];
    assert forall i | off + |data| <= i < |b| :: b'[i] == b[off + |data|..][i - off - |data|] == b[i];
  }

  /** The blocks after `data` has been stored at `addr`. */
  function Written(blocks: seq<Block>, addr: Addr, data: seq<Byte>): seq<Block>
    requires addr.idx < |blocks| && addr.off + |data| <= |blocks[addr.idx].buf|
  {
    blocks[addr.idx := blocks[addr.idx].(buf := Splice(blocks[addr.idx].buf, addr.off, data))]
  }

  class Arena {
    var blockSize: nat
    var blocks: seq<Block>
    ghost var live: set<Extent>

    ghost predicate Valid()
      reads this
    {
      && (forall i | 0 <= i < |blocks| :: blocks[i].length <= |blocks[i].buf| <= MAX_BLOCK_SIZE)
      && (blocks != [] ==> blockSize > 0)
      && blockSize <= MAX_BLOCK_SIZE
      && (forall e | e in live :: Below(blocks, e))
      && (forall e, f | e in live && f in live && e != f :: !Overlap(e, f))
    }

    /** Fewer than 2^32 - 1 blocks, so that a block index still fits in an address. */
    ghost predicate HasRoom()
      reads this
    {
      |blocks| < MAX_UINT32
    }

    constructor ()
      ensures Valid() && blocks == [] && blockSize == 0 && live == {}
    {
      blockSize, blocks, live := 0, [], {};
    }

    /** Hands out `size` fresh bytes.  One new block at most is needed, and nothing handed out before moves. */
    method Alloc(size: nat, align: bool) returns (addr: Addr)
      requires Valid() && HasRoom() && size <= MAX_BLOCK_SIZE
      modifies this
      ensures Valid()
      ensures addr != NULL && addr.idx + 1 == |blocks| && blocks[addr.idx].length == addr.off + size
      ensures addr.off <= MAX_BLOCK_SIZE && addr.idx < MAX_UINT32
      ensures align ==> addr.off % 8 == 0
      ensures live == old(live) + {Extent(addr, size)}
      ensures forall e | e in old(live) :: !Overlap(e, Extent(addr, size))
      ensures var fits := old(blocks) != [] &&
                          var last := old(blocks)[|old(blocks)| - 1];
                          (if align then AlignUp(last.length) else last.length) + size <= |last.buf|;
              |blocks| == |old(blocks)| + if fits then 0 else 1
      ensures |blocks| == |old(blocks)| ==> blockSize == old(blockSize)
      ensures |blocks| == |old(blocks)| + 1 ==>
                && |blocks[addr.idx].buf| == blockSize
                && (blockSize == MAX_BLOCK_SIZE
                    || (size < blockSize && blockSize >= if old(blocks) == [] then 4096 else 2 * old(blockSize)))
      ensures |blocks| == |old(blocks)| ==>
                && blocks[..addr.idx] == old(blocks)[..addr.idx]
                && blocks[addr.idx].buf == old(blocks)[addr.idx].buf
                && addr.off == if align then AlignUp(old(blocks)[addr.idx].length) else old(blocks)[addr.idx].length
      ensures |blocks| == |old(blocks)| + 1 ==> blocks[..|old(blocks)|] == old(blocks) && addr.off == 0
    {
      if |blocks| == 0 {
        Enlarge(size, INIT_BLOCK_SIZE);
      }
      addr := AllocInLastBlock(size, align);
      if addr != NULL {
        return;
      }
      Enlarge(size, 2 * blockSize);
      addr := AllocInLastBlock(size, align);
    }

    /** Doubles the block size until it is large enough. */
    method ChooseBlockSize(allocSize: nat, size: nat)
      requires 0 < size
      modifies `blockSize
      ensures allocSize < blockSize && size <= blockSize && (blockSize == size || blockSize <= 2 * allocSize)
    {
      blockSize := size;
      while blockSize <= allocSize
        invariant 0 < size <= blockSize && (blockSize == size || blockSize <= 2 * allocSize)
        decreases allocSize - blockSize
      {
        blockSize := 2 * blockSize;
      }
    }

    /** Appends a block of at least `allocSize` bytes, but of no more than the greatest size. */
    method Enlarge(allocSize: nat, size: nat)
      requires Valid() && allocSize <= MAX_BLOCK_SIZE && 0 < size
      modifies `blockSize, `blocks
      ensures Valid()
      ensures |blocks| == |old(blocks)| + 1 && blocks[..|old(blocks)|] == old(blocks)
      ensures blocks[|old(blocks)|].length == 0 && allocSize <= |blocks[|old(blocks)|].buf| == blockSize
      ensures blockSize == MAX_BLOCK_SIZE || (allocSize < blockSize && size <= blockSize)
      ensures blockSize <= size || blockSize <= 2 * allocSize
    {
      ChooseBlockSize(allocSize, size);
      if blockSize > MAX_BLOCK_SIZE {
        blockSize := MAX_BLOCK_SIZE;
      }
      blocks := blocks + [Block(seq(blockSize, _ => 0), 0)];
    }

    method AllocInLastBlock(size: nat, align: bool) returns (addr: Addr)
      requires Valid() && 0 < |blocks| <= MAX_UINT32
      modifies `blocks, `live
      ensures Valid()
      ensures |blocks| == |old(blocks)| && blocks[..|blocks| - 1] == old(blocks[..|blocks| - 1])
      ensures blocks[|blocks| - 1].buf == old(blocks[|blocks| - 1].buf)
      ensures var last := old(blocks[|blocks| - 1]);
              var off := if align then AlignUp(last.length) else last.length;
              if off + size <= |last.buf|
              then addr == Addr(|blocks| - 1, off) && blocks[|blocks| - 1].length == off + size
                   && live == old(live) + {Extent(addr, size)}
                   && forall e | e in old(live) :: !Overlap(e, Extent(addr, size))
              else addr == NULL && blocks == old(blocks) && live == old(live)
    {
      var idx := |blocks| - 1;
      var offset := blocks[idx].length;
      if align {
        offset := AlignUp(offset);
      }
      var newLen := offset + size;
      if newLen > |blocks[idx].buf| {
        return NULL;
      }
      blocks := blocks[idx := blocks[idx].(length := newLen)];
      addr := Addr(idx, offset);
      live := live + {Extent(addr, size)};
    }

    method TakeCheckpoint() returns (snap: Checkpoint)
      ensures snap == Current()
    {
      snap := Checkpoint(blockSize, |blocks|, 0);
      if |blocks| > 0 {
        snap := snap.(offsetInBlock := blocks[|blocks| - 1].length);
      }
    }

    function Current(): Checkpoint
      reads this
    {
      Checkpoint(blockSize, |blocks|, if |blocks| == 0 then 0 else blocks[|blocks| - 1].length)
    }

    /** A checkpoint that an earlier state of this arena can have taken. */
    ghost predicate Reachable(snap: Checkpoint)
      reads this
    {
      && snap.blocks <= |blocks| && snap.blockSize <= MAX_BLOCK_SIZE
      && (snap.blocks > 0 ==> 0 < snap.blockSize && snap.offsetInBlock <= blocks[snap.blocks - 1].length)
    }

    /** Takes back everything handed out after the checkpoint. */
    method Truncate(snap: Checkpoint)
      requires Valid() && Reachable(snap)
      modifies this
      ensures Valid() && blockSize == snap.blockSize && |blocks| == snap.blocks
      ensures forall i | 0 <= i < |blocks| :: blocks[i].buf == old(blocks)[i].buf
      ensures forall i | 0 <= i < |blocks| - 1 :: blocks[i] == old(blocks)[i]
      ensures |blocks| > 0 ==> blocks[|blocks| - 1].length == snap.offsetInBlock
      ensures live == set e | e in old(live) && Below(blocks, e)
    {
      blocks := blocks[..snap.blocks];
      if |blocks| > 0 {
        var last := |blocks| - 1;
        blocks := blocks[last := blocks[last].(length := snap.offsetInBlock)];
      }
      blockSize := snap.blockSize;
      live := set e | e in live && Below(blocks, e);
    }

    method Reset()
      modifies this
      ensures Valid() && blocks == [] && blockSize == 0 && live == {}
    {
      blocks, blockSize, live := [], 0, {};
    }

    /** Stores bytes into memory that was handed out before. */
    method Write(addr: Addr, data: seq<Byte>)
      requires Valid() && addr.idx < |blocks| && addr.off + |data| <= blocks[addr.idx].length
      modifies `blocks
      ensures Valid() && blocks == Written(old(blocks), addr, data)
    {
      blocks := blocks[addr.idx := blocks[addr.idx].(buf := Splice(blocks[addr.idx].buf, addr.off, data))];
    }
  }
}
