/** The buffer as its callers see it: a stack of layers of values, and one map of flags.

    The log is cut at the positions where the open stages began; each piece is one layer. */
module Layering {
  import opened Addresses
  import opened Keys
  import opened LogRecords

  type Layer = map<Key, Value>

  /** Values by key instead of by node. */
  function ByKey(m: map<Addr, Value>, index: map<Key, Addr>): Layer {
    map k | k in index && index[k] in m :: m[index[k]]
  }

  ghost predicate MarksOk(n: nat, marks: seq<nat>) {
    && (forall i | 0 <= i < |marks| :: marks[i] <= n)
    && (forall i, j | 0 <= i < j < |marks| :: marks[i] <= marks[j])
  }

  ghost function Layers(recs: seq<LogRec>, marks: seq<nat>, index: map<Key, Addr>): (layers: seq<Layer>)
    requires MarksOk(|recs|, marks)
    ensures |layers| == |marks| + 1
    decreases marks
  {
    if marks == [] then [ByKey(Fold(recs), index)]
    else
      var below, m := marks[..|marks| - 1], marks[|marks| - 1];
      Layers(recs[..m], below, index) + [ByKey(Fold(recs[m..]), index)]
  }

  datatype Option<+T> = None | Some(value: T) {
    function GetOr(d: T): T {
      if None? then d else value
    }
  }

  /** The value on top: the newest layer that has the key decides. */
  function Lookup(layers: seq<Layer>, k: Key): Option<Value> {
    if layers == [] then None
    else if k in layers[|layers| - 1] then Some(layers[|layers| - 1][k])
    else Lookup(layers[..|layers| - 1], k)
  }

  /** All layers folded into one. */
  function Flatten(layers: seq<Layer>): Layer {
    if layers == [] then map[] else Flatten(layers[..|layers| - 1]) + layers[|layers| - 1]
  }

  lemma FlattenSnoc(layers: seq<Layer>, top: Layer)
    ensures Flatten(layers + [top]) == Flatten(layers) + top
  {
    assert (layers + [top])[..|layers|] == layers;
  }

  lemma {:induction false} LookupInFlat(layers: seq<Layer>, k: Key)
    ensures Lookup(layers, k) == if k in Flatten(layers) then Some(Flatten(layers)[k]) else None
  {
    if layers != [] { LookupInFlat(layers[..|layers| - 1], k); }
  }

  lemma FlattenPut(layers: seq<Layer>, k: Key, v: Value)
    requires layers != []
    ensures Flatten(PutTop(layers, k, v)) == Flatten(layers)[k := v]
  {
    assert PutTop(layers, k, v)[..|layers| - 1] == layers[..|layers| - 1];
  }

  ghost predicate Injective(index: map<Key, Addr>) {
    forall k, k' | k in index && k' in index && index[k] == index[k'] :: k == k'
  }

  /** Every key keeps its node. */
  ghost predicate Grown(index: map<Key, Addr>, index': map<Key, Addr>) {
    forall k | k in index :: k in index' && index'[k] == index[k]
  }

  // ---------- what each operation does to the layers ----------

  /** Reading through the layers is reading the newest record. */
  lemma {:induction false} LookupIsNewest(recs: seq<LogRec>, marks: seq<nat>, index: map<Key, Addr>, k: Key)
    requires MarksOk(|recs|, marks)
    ensures Lookup(Layers(recs, marks, index), k)
         == if k in index && index[k] in Fold(recs) then Some(Fold(recs)[index[k]]) else None
    decreases marks
  {
    var layers := Layers(recs, marks, index);
    if marks == [] {
      assert layers[..0] == [];
    } else {
      var below, m := marks[..|marks| - 1], marks[|marks| - 1];
      LookupIsNewest(recs[..m], below, index, k);
      assert layers[..|marks|] == Layers(recs[..m], below, index);
      assert recs[..m] + recs[m..] == recs;
      FoldConcat(recs[..m], recs[m..]);
    }
  }

  lemma StagePushes(recs: seq<LogRec>, marks: seq<nat>, index: map<Key, Addr>)
    requires MarksOk(|recs|, marks)
    ensures MarksOk(|recs|, marks + [|recs|])
    ensures Layers(recs, marks + [|recs|], index) == Layers(recs, marks, index) + [map[]]
  {
    var marks' := marks + [|recs|];
    assert marks'[..|marks|] == marks && recs[..|recs|] == recs && recs[|recs|..] == [];
    assert ByKey(Fold([]), index) == map[];
  }

  function MergeTop(layers: seq<Layer>): seq<Layer>
    requires |layers| >= 2
  {
    layers[..|layers| - 2] + [layers[|layers| - 2] + layers[|layers| - 1]]
  }

  lemma ReleaseMerges(recs: seq<LogRec>, marks: seq<nat>, index: map<Key, Addr>)
    requires MarksOk(|recs|, marks) && marks != []
    ensures MarksOk(|recs|, marks[..|marks| - 1])
    ensures Layers(recs, marks[..|marks| - 1], index) == MergeTop(Layers(recs, marks, index))
  {
    hide Fold, ByKey;
    var below, m := marks[..|marks| - 1], marks[|marks| - 1];
    var top := ByKey(Fold(recs[m..]), index);
    if below == [] {
      assert recs[..m] + recs[m..] == recs;
      ByKeyConcat(recs[..m], recs[m..], index);
      MergeTopOf([], ByKey(Fold(recs[..m]), index), top);
    } else {
      var m' := below[|below| - 1];
      assert recs[..m][..m'] == recs[..m'];
      assert recs[..m][m'..] + recs[m..] == recs[m'..];
      ByKeyConcat(recs[..m][m'..], recs[m..], index);
      MergeTopOf(Layers(recs[..m'], below[..|below| - 1], index), ByKey(Fold(recs[..m][m'..]), index), top);
    }
  }

  lemma MergeTopOf(rest: seq<Layer>, a: Layer, b: Layer)
    ensures MergeTop((rest + [a]) + [b]) == rest + [a + b]
  {
    assert ((rest + [a]) + [b])[..|rest|] == rest;
  }

  lemma ByKeyConcat(s: seq<LogRec>, t: seq<LogRec>, index: map<Key, Addr>)
    ensures ByKey(Fold(s + t), index) == ByKey(Fold(s), index) + ByKey(Fold(t), index)
  {
    hide Fold;
    FoldConcat(s, t);
  }

  lemma LastLayer(recs: seq<LogRec>, marks: seq<nat>, index: map<Key, Addr>)
    requires MarksOk(|recs|, marks) && marks != []
    ensures var below, m, layers := marks[..|marks| - 1], marks[|marks| - 1], Layers(recs, marks, index);
            && MarksOk(m, below) && |layers| == |marks| + 1
            && layers[..|marks|] == Layers(recs[..m], below, index) && layers[|marks|] == ByKey(Fold(recs[m..]), index)
  {
    hide Fold, ByKey;
  }

  lemma CleanupPops(recs: seq<LogRec>, marks: seq<nat>, index: map<Key, Addr>)
    requires MarksOk(|recs|, marks) && marks != []
    ensures MarksOk(marks[|marks| - 1], marks[..|marks| - 1])
    ensures Layers(recs[..marks[|marks| - 1]], marks[..|marks| - 1], index) == Layers(recs, marks, index)[..|marks|]
  {
  }

  function PutTop(layers: seq<Layer>, k: Key, v: Value): seq<Layer>
    requires layers != []
  {
    layers[|layers| - 1 := layers[|layers| - 1][k := v]]
  }

  ghost function TopStart(marks: seq<nat>): nat {
    if marks == [] then 0 else marks[|marks| - 1]
  }

  /** The top layer is the piece of the log after the last mark. */
  lemma TopLayer(recs: seq<LogRec>, marks: seq<nat>, index: map<Key, Addr>, recs': seq<LogRec>)
    requires MarksOk(|recs|, marks) && TopStart(marks) <= |recs'| && |recs| <= |recs'|
    requires recs[..TopStart(marks)] == recs'[..TopStart(marks)]
    ensures MarksOk(|recs'|, marks)
    ensures Layers(recs', marks, index)
         == Layers(recs, marks, index)[|marks| := ByKey(Fold(recs'[TopStart(marks)..]), index)]
  {
    if marks == [] { assert recs'[0..] == recs'; }
  }

  lemma ByKeyPut(m: map<Addr, Value>, index: map<Key, Addr>, k: Key, v: Value)
    requires k in index && Injective(index)
    ensures ByKey(m[index[k] := v], index) == ByKey(m, index)[k := v]
  {
  }

  lemma AppendPuts(recs: seq<LogRec>, marks: seq<nat>, index: map<Key, Addr>, k: Key, r: LogRec)
    requires MarksOk(|recs|, marks) && Injective(index) && k in index && r.node == index[k]
    ensures MarksOk(|recs + [r]|, marks)
    ensures Layers(recs + [r], marks, index) == PutTop(Layers(recs, marks, index), k, r.value)
  {
    var m, recs' := TopStart(marks), recs + [r];
    assert recs'[..m] == recs[..m] && recs'[m..] == recs[m..] + [r];
    TopLayer(recs, marks, index, recs);
    TopLayer(recs, marks, index, recs');
    FoldConcat(recs[m..], [r]);
    assert Fold([r]) == map[r.node := r.value] by { assert [r][..0] == []; }
    assert Fold(recs'[m..]) == Fold(recs[m..])[index[k] := r.value];
    ByKeyPut(Fold(recs[m..]), index, k, r.value);
  }

  lemma OverwritePuts(recs: seq<LogRec>, marks: seq<nat>, index: map<Key, Addr>, k: Key, j: nat, v: Value)
    requires MarksOk(|recs|, marks) && Injective(index) && k in index
    requires j < |recs| && j == LastIdx(recs, index[k]) && TopStart(marks) <= j
    ensures Layers(recs[j := recs[j].(value := v)], marks, index) == PutTop(Layers(recs, marks, index), k, v)
  {
    var m, recs' := TopStart(marks), recs[j := recs[j].(value := v)];
    assert recs'[..m] == recs[..m] && recs'[m..] == recs[m..][j - m := recs[j].(value := v)];
    TopLayer(recs, marks, index, recs);
    TopLayer(recs, marks, index, recs');
    LastIdxUnique(recs[m..], index[k], j - m);
    FoldOverwrite(recs[m..], index[k], j - m, v);
    ByKeyPut(Fold(recs[m..]), index, k, v);
  }

  /** Every key of `index` whose node has a record is under the same node in `index'`. */
  ghost predicate Keeps(recs: seq<LogRec>, index: map<Key, Addr>, index': map<Key, Addr>) {
    forall k, i | k in index && 0 <= i < |recs| && recs[i].node == index[k] :: k in index' && index'[k] == index[k]
  }

  /** The layers only depend on the index at nodes that have records. */
  lemma {:induction false} LayersIndex(recs: seq<LogRec>, marks: seq<nat>, index: map<Key, Addr>,
                                       index': map<Key, Addr>)
    requires MarksOk(|recs|, marks) && Keeps(recs, index, index') && Keeps(recs, index', index)
    ensures Layers(recs, marks, index) == Layers(recs, marks, index')
    decreases marks
  {
    if marks == [] {
      ByKeyKeeps(recs, index, index');
      ByKeyKeeps(recs, index', index);
      assert ByKey(Fold(recs), index) == ByKey(Fold(recs), index');
    } else {
      var below, m := marks[..|marks| - 1], marks[|marks| - 1];
      KeepsPart(recs, index, index', 0, m);
      KeepsPart(recs, index', index, 0, m);
      KeepsPart(recs, index, index', m, |recs|);
      KeepsPart(recs, index', index, m, |recs|);
      assert recs[0..m] == recs[..m] && recs[m..|recs|] == recs[m..];
      LayersIndex(recs[..m], below, index, index');
      ByKeyKeeps(recs[m..], index, index');
      ByKeyKeeps(recs[m..], index', index);
      assert ByKey(Fold(recs[m..]), index) == ByKey(Fold(recs[m..]), index');
    }
  }

  lemma KeepsPart(recs: seq<LogRec>, index: map<Key, Addr>, index': map<Key, Addr>, lo: nat, hi: nat)
    requires lo <= hi <= |recs| && Keeps(recs, index, index')
    ensures Keeps(recs[lo..hi], index, index')
  {
    forall k, i | k in index && 0 <= i < hi - lo && recs[lo..hi][i].node == index[k]
      ensures k in index' && index'[k] == index[k]
    {
      assert recs[lo + i].node == index[k];
    }
  }

  lemma ByKeyKeeps(recs: seq<LogRec>, index: map<Key, Addr>, index': map<Key, Addr>)
    requires Keeps(recs, index, index')
    ensures forall k | k in ByKey(Fold(recs), index) ::
              k in ByKey(Fold(recs), index') && ByKey(Fold(recs), index')[k] == ByKey(Fold(recs), index)[k]
  {
    hide Fold;
    forall k | k in index && index[k] in Fold(recs) ensures k in index' && index'[k] == index[k] {
      FoldIsLast(recs, index[k]);
    }
  }

  /** The bottom layer is what the log held when the first stage was opened. */
  lemma {:induction false} BottomLayer(recs: seq<LogRec>, marks: seq<nat>, index: map<Key, Addr>)
    requires MarksOk(|recs|, marks)
    ensures Layers(recs, marks, index)[0] == ByKey(Fold(recs[..if marks == [] then |recs| else marks[0]]), index)
    decreases marks
  {
    if marks == [] {
      assert recs[..|recs|] == recs;
    } else {
      var below, m := marks[..|marks| - 1], marks[|marks| - 1];
      BottomLayer(recs[..m], below, index);
      if below != [] { assert recs[..m][..marks[0]] == recs[..marks[0]]; }
      else { assert recs[..m][..m] == recs[..m]; }
    }
  }
}
