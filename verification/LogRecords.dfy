/** What the value log means: a sequence of records, each naming a node and the node's previous record. */
module LogRecords {
  import opened Addresses
  import opened Keys

  type Value = seq<Byte>

  /** A record ends at offset `end` of block `idx`; its address is that end. */
  datatype LogRec = LogRec(idx: nat, end: nat, node: Addr, prev: Addr, value: Value) {
    function At(): Addr {
      Addr(idx, end)
    }

    function Size(): nat {
      HDR_SIZE + |value|
    }

    function Start(): int {
      end - Size()
    }
  }

  const HDR_SIZE: nat := 8 + 8 + 4

  /** The index of the newest record of a node, or -1. */
  function LastIdx(recs: seq<LogRec>, a: Addr): (i: int)
    ensures -1 <= i < |recs|
    ensures i >= 0 ==> recs[i].node == a
    ensures forall j | i < j < |recs| :: recs[j].node != a
  {
    if recs == [] then -1
    else if recs[|recs| - 1].node == a then |recs| - 1
    else LastIdx(recs[..|recs| - 1], a)
  }

  /** What a node's value pointer has to be. */
  function LastAddr(recs: seq<LogRec>, a: Addr): Addr {
    var i := LastIdx(recs, a);
    if i < 0 then NULL else recs[i].At()
  }

  /** Every record points at the previous record of its node. */
  ghost predicate Chained(recs: seq<LogRec>) {
    forall i | 0 <= i < |recs| :: recs[i].prev == LastAddr(recs[..i], recs[i].node)
  }

  /** The values that a stretch of the log assigns, later records winning. */
  function Fold(recs: seq<LogRec>): map<Addr, Value> {
    if recs == [] then map[]
    else
      var r := recs[|recs| - 1];
      Fold(recs[..|recs| - 1])[r.node := r.value]
  }

  lemma {:induction false} FoldIsLast(recs: seq<LogRec>, a: Addr)
    ensures a in Fold(recs) <==> LastIdx(recs, a) >= 0
    ensures a in Fold(recs) ==> Fold(recs)[a] == recs[LastIdx(recs, a)].value
  {
    if recs != [] { FoldIsLast(recs[..|recs| - 1], a); }
  }

  lemma {:induction false} FoldConcat(s: seq<LogRec>, t: seq<LogRec>)
    ensures Fold(s + t) == Fold(s) + Fold(t)
    decreases t
  {
    if t == [] {
      assert s + t == s;
    } else {
      var t' := t[..|t| - 1];
      FoldConcat(s, t');
      assert (s + t)[..|s + t| - 1] == s + t';
    }
  }

  lemma LastIdxUnique(recs: seq<LogRec>, a: Addr, i: int)
    requires 0 <= i < |recs| && recs[i].node == a
    requires forall j | i < j < |recs| :: recs[j].node != a
    ensures LastIdx(recs, a) == i
  {
  }

  /** Overwriting the newest record of a node in place changes that node's value and nothing else. */
  lemma FoldOverwrite(recs: seq<LogRec>, a: Addr, j: nat, v: Value)
    requires j < |recs| && j == LastIdx(recs, a)
    ensures Fold(recs[j := recs[j].(value := v)]) == Fold(recs)[a := v]
  {
    var recs' := recs[j := recs[j].(value := v)];
    forall b
      ensures b in Fold(recs') <==> b in Fold(recs)[a := v]
      ensures b in Fold(recs') ==> Fold(recs')[b] == Fold(recs)[a := v][b]
    {
      SameNodes(recs, recs', b);
      FoldIsLast(recs, b);
      FoldIsLast(recs', b);
    }
  }

  lemma SameNodes(recs: seq<LogRec>, recs': seq<LogRec>, a: Addr)
    requires |recs| == |recs'|
    requires forall i | 0 <= i < |recs| :: recs[i].node == recs'[i].node && recs[i].At() == recs'[i].At()
    ensures LastIdx(recs, a) == LastIdx(recs', a) && LastAddr(recs, a) == LastAddr(recs', a)
  {
    var i, i' := LastIdx(recs, a), LastIdx(recs', a);
    if i >= 0 { assert recs'[i].node == a; }
    if i' >= 0 { assert recs[i'].node == a; }
  }

  lemma ChainedOverwrite(recs: seq<LogRec>, j: nat, v: Value)
    requires j < |recs| && Chained(recs) && |v| == |recs[j].value|
    ensures Chained(recs[j := recs[j].(value := v)])
  {
    var recs' := recs[j := recs[j].(value := v)];
    forall i | 0 <= i < |recs'| ensures recs'[i].prev == LastAddr(recs'[..i], recs'[i].node) {
      SameNodes(recs[..i], recs'[..i], recs[i].node);
    }
  }

  lemma ChainedPrefix(recs: seq<LogRec>, k: nat)
    requires k <= |recs| && Chained(recs)
    ensures Chained(recs[..k])
  {
    forall i | 0 <= i < k ensures recs[..k][i].prev == LastAddr(recs[..k][..i], recs[..k][i].node) {
      assert recs[..k][..i] == recs[..i];
    }
  }

  lemma ChainedAppend(recs: seq<LogRec>, r: LogRec)
    requires Chained(recs) && r.prev == LastAddr(recs, r.node)
    ensures Chained(recs + [r])
  {
    var s := recs + [r];
    forall i | 0 <= i < |s| ensures s[i].prev == LastAddr(s[..i], s[i].node) {
      assert s[..i] == if i == |recs| then recs else recs[..i];
    }
  }

  /** The newest record of a node in a prefix is found by stepping to the previous record, or is the newest of all. */
  lemma LastIdxPrefix(recs: seq<LogRec>, a: Addr, k: nat)
    requires k <= |recs|
    ensures LastIdx(recs, a) < k ==> LastIdx(recs[..k], a) == LastIdx(recs, a)
    ensures LastIdx(recs, a) >= k ==> LastIdx(recs[..k], a) == LastIdx(recs[..LastIdx(recs, a)][..k], a)
  {
    var i := LastIdx(recs, a);
    if i >= k {
      assert recs[..i][..k] == recs[..k];
    } else if i >= 0 {
      LastIdxUnique(recs[..k], a, i);
    }
  }

  lemma LastAddrIs(recs: seq<LogRec>, a: Addr)
    ensures LastAddr(recs, a) == if LastIdx(recs, a) < 0 then NULL else recs[LastIdx(recs, a)].At()
  {
  }

  lemma ChainedAt(recs: seq<LogRec>, i: nat)
    requires Chained(recs) && i < |recs|
    ensures recs[i].prev == LastAddr(recs[..i], recs[i].node)
  {
  }

  lemma FoldOne(r: LogRec)
    ensures Fold([r]) == map[r.node := r.value]
  {
    assert [r][..0] == [];
  }
}
