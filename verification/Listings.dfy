/** Listings of maps in key order, and merging a buffer's listing over a snapshot's. */
module Listings {
  import opened Keys
  import opened LogRecords

  datatype Entry = Entry(key: Key, value: Value)

  /** The order of an iteration, forward or reverse. */
  predicate Precedes(a: Key, b: Key, reverse: bool) {
    if reverse then Less(b, a) else Less(a, b)
  }

  ghost predicate Sorted(es: seq<Entry>, reverse: bool) {
    forall i, j | 0 <= i < j < |es| :: Precedes(es[i].key, es[j].key, reverse)
  }

  /** The entries of a map whose keys are in a set, each once and in order. */
  ghost predicate Lists(es: seq<Entry>, m: map<Key, Value>, range: iset<Key>, reverse: bool) {
    && Sorted(es, reverse)
    && (forall e | e in es :: e.key in range && e.key in m && m[e.key] == e.value)
    && (forall k | k in m && k in range :: Entry(k, m[k]) in es)
  }

  lemma PrecedesTransitive(a: Key, b: Key, c: Key, reverse: bool)
    requires Precedes(a, b, reverse) && Precedes(b, c, reverse)
    ensures Precedes(a, c, reverse)
  {
    if reverse { LessTransitive(c, b, a); } else { LessTransitive(a, b, c); }
  }

  lemma PrecedesAsymmetric(a: Key, b: Key, reverse: bool)
    requires Precedes(a, b, reverse)
    ensures !Precedes(b, a, reverse) && a != b
  {
    if reverse { LessAsymmetric(b, a); } else { LessAsymmetric(a, b); }
  }

  lemma PrecedesTotal(a: Key, b: Key, reverse: bool)
    ensures a == b || Precedes(a, b, reverse) || Precedes(b, a, reverse)
  {
    LessTotal(a, b);
  }

  /** A listing is determined by what it lists. */
  lemma {:induction false} ListsUnique(es: seq<Entry>, es': seq<Entry>, reverse: bool)
    requires Sorted(es, reverse) && Sorted(es', reverse) && forall e :: e in es <==> e in es'
    ensures es == es'
  {
    if es == [] || es' == [] {
      NoMembers(es, es');
    } else {
      assert es[0] in es' && es'[0] in es;
      var i :| 0 <= i < |es'| && es'[i] == es[0];
      var j :| 0 <= j < |es| && es[j] == es'[0];
      if i > 0 && j > 0 { PrecedesAsymmetric(es[0].key, es[j].key, reverse); }
      TailMembers(es, reverse);
      TailMembers(es', reverse);
      ListsUnique(es[1..], es'[1..], reverse);
      assert es == [es[0]] + es[1..] && es' == [es'[0]] + es'[1..];
    }
  }

  lemma NoMembers(es: seq<Entry>, es': seq<Entry>)
    requires forall e :: e in es <==> e in es'
    ensures es == [] <==> es' == []
  {
    assert es == [] || es[0] in es;
    assert es' == [] || es'[0] in es';
  }

  lemma TailMembers(es: seq<Entry>, reverse: bool)
    requires es != [] && Sorted(es, reverse)
    ensures Sorted(es[1..], reverse)
    ensures forall e :: e in es[1..] <==> e in es && e != es[0]
    ensures forall e | e in es[1..] :: Precedes(es[0].key, e.key, reverse)
  {
    forall e | e in es[1..] ensures e != es[0] && e in es && Precedes(es[0].key, e.key, reverse) {
      var i :| 0 <= i < |es[1..]| && es[1..][i] == e;
      assert es[i + 1] == e;
      PrecedesAsymmetric(es[0].key, e.key, reverse);
    }
    forall e | e in es && e != es[0] ensures e in es[1..] {
      var i :| 0 <= i < |es| && es[i] == e;
      assert es[1..][i - 1] == e;
    }
  }

  lemma ConsSorted(e: Entry, es: seq<Entry>, reverse: bool)
    requires Sorted(es, reverse) && forall f | f in es :: Precedes(e.key, f.key, reverse)
    ensures Sorted([e] + es, reverse)
  {
    var s := [e] + es;
    forall i, j | 0 <= i < j < |s| ensures Precedes(s[i].key, s[j].key, reverse) {
      assert s[j] == es[j - 1];
      if i == 0 { assert es[j - 1] in es; } else { assert s[i] == es[i - 1]; }
    }
  }

  // ---------- merging ----------

  /** The buffer's listing `d` laid over the snapshot's listing `s`: an entry of the buffer hides the snapshot's entry
      with the same key, and a tombstone in the buffer is not shown. */
  function Merge(d: seq<Entry>, s: seq<Entry>, reverse: bool): seq<Entry>
    decreases |d| + |s|
  {
    if d == [] then s
    else if s != [] && Precedes(s[0].key, d[0].key, reverse) then [s[0]] + Merge(d, s[1..], reverse)
    else
      var rest := Merge(d[1..], if s != [] && s[0].key == d[0].key then s[1..] else s, reverse);
      if d[0].value == [] then rest else [d[0]] + rest
  }

  predicate HasKey(es: seq<Entry>, k: Key) {
    exists i :: 0 <= i < |es| && es[i].key == k
  }

  /** Whether the merge shows an entry: it is the buffer's, and no tombstone, or the snapshot's and the buffer has
      nothing under its key. */
  predicate Overlaid(d: seq<Entry>, s: seq<Entry>, e: Entry) {
    (e in d && e.value != []) || (e in s && !HasKey(d, e.key))
  }

  /** The merge is the overlay, in order and without repeats. */
  lemma {:induction false} MergeIsOverlay(d: seq<Entry>, s: seq<Entry>, reverse: bool)
    requires Sorted(d, reverse) && Sorted(s, reverse)
    ensures Sorted(Merge(d, s, reverse), reverse)
    ensures forall e :: e in Merge(d, s, reverse) <==> Overlaid(d, s, e)
    decreases |d| + |s|
  {
    if d == [] {
    } else if s != [] && Precedes(s[0].key, d[0].key, reverse) {
      MergeSnapshotFirst(d, s, reverse);
    } else {
      MergeBufferFirst(d, s, reverse);
    }
  }

  lemma {:induction false} MergeSnapshotFirst(d: seq<Entry>, s: seq<Entry>, reverse: bool)
    requires Sorted(d, reverse) && Sorted(s, reverse)
    requires d != [] && s != [] && Precedes(s[0].key, d[0].key, reverse)
    ensures Sorted(Merge(d, s, reverse), reverse)
    ensures forall e :: e in Merge(d, s, reverse) <==> Overlaid(d, s, e)
    decreases |d| + |s|, 0
  {
    var rest := Merge(d, s[1..], reverse);
    TailMembers(s, reverse);
    MergeIsOverlay(d, s[1..], reverse);
    forall e | e in d ensures Precedes(s[0].key, e.key, reverse) && e.key != s[0].key {
      FirstPrecedes(d, e, reverse);
      if e.key != d[0].key { PrecedesTransitive(s[0].key, d[0].key, e.key, reverse); }
      PrecedesAsymmetric(s[0].key, e.key, reverse);
    }
    forall e | e in rest ensures Precedes(s[0].key, e.key, reverse) {
    }
    ConsSorted(s[0], rest, reverse);
    assert forall i | 0 <= i < |d| :: d[i] in d;
    assert !HasKey(d, s[0].key);
  }

  lemma FirstPrecedes(d: seq<Entry>, e: Entry, reverse: bool)
    requires Sorted(d, reverse) && e in d
    ensures e.key == d[0].key || Precedes(d[0].key, e.key, reverse)
  {
    var i :| 0 <= i < |d| && d[i] == e;
  }

  lemma {:induction false} MergeBufferFirst(d: seq<Entry>, s: seq<Entry>, reverse: bool)
    requires Sorted(d, reverse) && Sorted(s, reverse)
    requires d != [] && !(s != [] && Precedes(s[0].key, d[0].key, reverse))
    ensures Sorted(Merge(d, s, reverse), reverse)
    ensures forall e :: e in Merge(d, s, reverse) <==> Overlaid(d, s, e)
    decreases |d| + |s|, 0
  {
    var d', s' := d[1..], if s != [] && s[0].key == d[0].key then s[1..] else s;
    var rest := Merge(d', s', reverse);
    TailMembers(d, reverse);
    if s != [] { TailMembers(s, reverse); }
    MergeIsOverlay(d', s', reverse);
    SnapshotBehind(d, s, s', reverse);
    forall e | e in rest ensures Precedes(d[0].key, e.key, reverse) {
    }
    ConsSorted(d[0], rest, reverse);
    forall e ensures e in Merge(d, s, reverse) <==> Overlaid(d, s, e) {
      KeyOfTail(d, e.key);
    }
  }

  /** What is left of the snapshot lies behind the buffer's first key. */
  lemma SnapshotBehind(d: seq<Entry>, s: seq<Entry>, s': seq<Entry>, reverse: bool)
    requires Sorted(s, reverse) && d != [] && !(s != [] && Precedes(s[0].key, d[0].key, reverse))
    requires s' == if s != [] && s[0].key == d[0].key then s[1..] else s
    ensures forall e | e in s' :: Precedes(d[0].key, e.key, reverse)
    ensures forall e | e in s :: e in s' <==> e.key != d[0].key
    ensures forall e | e in s' :: e in s
  {
    if s != [] {
      TailMembers(s, reverse);
      PrecedesTotal(s[0].key, d[0].key, reverse);
      forall e | e in s' ensures Precedes(d[0].key, e.key, reverse) && e.key != d[0].key {
        if s[0].key != d[0].key && e != s[0] {
          assert e in s[1..];
          PrecedesTransitive(d[0].key, s[0].key, e.key, reverse);
        }
        PrecedesAsymmetric(d[0].key, e.key, reverse);
      }
      forall e | e in s && e.key != d[0].key ensures e in s' {
      }
    }
  }

  lemma KeyOfTail(d: seq<Entry>, k: Key)
    requires d != []
    ensures HasKey(d, k) <==> k == d[0].key || HasKey(d[1..], k)
  {
    if HasKey(d[1..], k) {
      var i :| 0 <= i < |d[1..]| && d[1..][i].key == k;
      assert d[i + 1].key == k;
    }
    if HasKey(d, k) && k != d[0].key {
      var i :| 0 <= i < |d| && d[i].key == k;
      assert d[1..][i - 1].key == k;
    }
  }
}
