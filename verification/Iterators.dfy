/** Iterators over the buffer: they stand on a node of the live tree and move along parent and child links. */
module Iterators {
  import opened Addresses
  import opened Keys
  import opened RedBlack
  import opened NodeTable
  import opened Removal
  import opened Search
  import opened Arenas
  import opened LogRecords
  import opened ValueLog
  import opened Layering
  import opened Accounting
  import opened Invariants
  import opened Flags
  import opened MemDb

  // ---------- what remains to be visited ----------

  function Reversed<T>(s: seq<T>): seq<T> {
    seq(|s|, i requires 0 <= i < |s| => s[|s| - 1 - i])
  }

  /** The order in which an iterator walks. */
  function Path(order: seq<Addr>, reverse: bool): seq<Addr> {
    if reverse then Reversed(order) else order
  }

  /** The path from a node on. */
  function From(path: seq<Addr>, a: Addr): seq<Addr> {
    if path == [] || path[0] == a then path else From(path[1..], a)
  }

  lemma {:induction false} FromAt(path: seq<Addr>, i: nat)
    requires NoRepeats(path) && i < |path|
    ensures From(path, path[i]) == path[i..]
  {
    if i > 0 {
      assert path[1..][i - 1] == path[i];
      FromAt(path[1..], i - 1);
    }
  }

  lemma {:induction false} FromAbsent(path: seq<Addr>, a: Addr)
    requires a !in path
    ensures From(path, a) == []
  {
    if path != [] { FromAbsent(path[1..], a); }
  }

  function Tail<T>(s: seq<T>): seq<T> {
    if s == [] then [] else s[1..]
  }

  /** Which nodes an iterator shows: those with a value record, or all, within the bounds. */
  predicate Shown(n: MemNode, includeFlags: bool, lo: Key, hi: Option<Key>) {
    && (includeFlags || n.vptr != NULL)
    && AtMost(lo, n.key) && (hi.Some? ==> Less(n.key, hi.value))
  }

  function Select(n: Table, path: seq<Addr>, includeFlags: bool, lo: Key, hi: Option<Key>): (r: seq<Addr>) {
    if path == [] then []
    else
      var rest := Select(n, path[1..], includeFlags, lo, hi);
      if path[0] in n && Shown(n[path[0]], includeFlags, lo, hi) then [path[0]] + rest else rest
  }

  lemma {:induction false} SelectSuffix(n: Table, path: seq<Addr>, i: nat, includeFlags: bool, lo: Key, hi: Option<Key>)
    requires i <= |path| && forall a | a in path :: a in n
    requires forall j | 0 <= j < i :: !Shown(n[path[j]], includeFlags, lo, hi)
    ensures Select(n, path[i..], includeFlags, lo, hi) == Select(n, path, includeFlags, lo, hi)
  {
    if i > 0 {
      assert path[1..][i - 1..] == path[i..];
      assert forall j | 0 <= j < i - 1 :: path[1..][j] == path[j + 1];
      SelectSuffix(n, path[1..], i - 1, includeFlags, lo, hi);
    }
  }

  lemma {:induction false} SelectNone(n: Table, path: seq<Addr>, includeFlags: bool, lo: Key, hi: Option<Key>)
    requires forall a | a in path :: a in n && !Shown(n[a], includeFlags, lo, hi)
    ensures Select(n, path, includeFlags, lo, hi) == []
  {
    if path != [] { SelectNone(n, path[1..], includeFlags, lo, hi); }
  }

  /** The selection is a subsequence: it holds exactly the shown nodes, in the order of the path. */
  lemma {:induction false} SelectIs(n: Table, path: seq<Addr>, includeFlags: bool, lo: Key, hi: Option<Key>)
    requires (forall a | a in path :: a in n) && NoRepeats(path)
    ensures forall a :: a in Select(n, path, includeFlags, lo, hi) <==> a in path && Shown(n[a], includeFlags, lo, hi)
    ensures NoRepeats(Select(n, path, includeFlags, lo, hi))
  {
    if path != [] {
      SelectIs(n, path[1..], includeFlags, lo, hi);
      assert forall a :: a in path <==> a == path[0] || a in path[1..];
      assert path[0] !in path[1..];
    }
  }

  ghost predicate Descending(n: Table, s: seq<Addr>) {
    && (forall a | a in s :: a in n)
    && (forall i, j | 0 <= i < j < |s| :: Less(n[s[j]].key, n[s[i]].key))
  }

  /** A selection from an ordered path is ordered. */
  lemma {:induction false} SelectAscending(n: Table, path: seq<Addr>, includeFlags: bool, lo: Key, hi: Option<Key>)
    requires NoRepeats(path) && Ascending(n, path)
    ensures Ascending(n, Select(n, path, includeFlags, lo, hi))
  {
    if path != [] {
      var rest := Select(n, path[1..], includeFlags, lo, hi);
      assert [] + [path[0]] + path[1..] == path;
      AscendingParts(n, [], path[0], path[1..]);
      SelectIs(n, path[1..], includeFlags, lo, hi);
      SelectAscending(n, path[1..], includeFlags, lo, hi);
    }
  }

  lemma {:induction false} SelectDescending(n: Table, path: seq<Addr>, includeFlags: bool, lo: Key, hi: Option<Key>)
    requires NoRepeats(path) && Descending(n, path)
    ensures Descending(n, Select(n, path, includeFlags, lo, hi))
  {
    if path != [] {
      var rest := Select(n, path[1..], includeFlags, lo, hi);
      SelectIs(n, path[1..], includeFlags, lo, hi);
      SelectDescending(n, path[1..], includeFlags, lo, hi);
      forall a | a in rest ensures Less(n[a].key, n[path[0]].key) {
        var i :| 0 <= i < |path[1..]| && path[1..][i] == a;
        assert path[i + 1] == a;
      }
    }
  }

  lemma PathFacts(n: Table, order: seq<Addr>, reverse: bool)
    requires Ascending(n, order) && NoRepeats(order)
    ensures (forall a :: a in Path(order, reverse) <==> a in order) && NoRepeats(Path(order, reverse))
    ensures if reverse then Descending(n, Path(order, reverse)) else Ascending(n, Path(order, reverse))
  {
    if reverse {
      var path := Reversed(order);
      assert forall i | 0 <= i < |order| :: order[i] == path[|order| - 1 - i];
      assert forall i | 0 <= i < |order| :: path[i] == order[|order| - 1 - i];
      forall i, j | 0 <= i < j < |path| ensures path[i] != path[j] {
        assert order[|order| - 1 - j] != order[|order| - 1 - i];
      }
    }
  }

  // ---------- the iterator ----------

  class MemdbIterator {
    const db: MemDb
    const start: Key
    const end: Option<Key>
    const reverse: bool
    const includeFlags: bool
    var curr: Addr

    /** The iterator stands on a shown node of the tree, past none that it still has to show, or on nothing. */
    ghost predicate Valid()
      reads this, db, db.nodeMem, db.vlog, db.vlog.mem
    {
      && db.Valid()
      && (reverse ==> start == [])
      && (curr != NULL ==> Standing(curr) && (includeFlags || db.nodes[curr].vptr != NULL))
    }

    /** A node of the tree on the right side of the bound where the iteration began. */
    ghost predicate Standing(a: Addr)
      reads this, db
    {
      && a in InOrder(db.tree) && a in db.nodes
      && AtMost(start, db.nodes[a].key)
      && (reverse && UpperBound().Some? ==> Less(db.nodes[a].key, UpperBound().value))
    }

    /** A reverse iterator treats an empty bound like none; a forward one only a missing bound. */
    function UpperBound(): Option<Key> {
      if reverse && end == Some([]) then None else end
    }

    ghost function Order(): seq<Addr>
      reads db
    {
      Path(InOrder(db.tree), reverse)
    }

    /** The nodes still to be shown, in the order in which they will be. */
    ghost function Pending(): seq<Addr>
      reads this, db
    {
      Select(db.nodes, From(Order(), curr), includeFlags, start, UpperBound())
    }

    /** Everything between the bounds. */
    ghost function All(): seq<Addr>
      reads this, db
    {
      Select(db.nodes, Order(), includeFlags, start, UpperBound())
    }

    lemma OrderInTable()
      requires db.Valid()
      ensures forall a | a in Order() :: a in db.nodes && a in InOrder(db.tree)
      ensures forall a | a in From(Order(), curr) :: a in db.nodes
      ensures NoRepeats(Order()) && NULL !in Order()
      ensures if reverse then Descending(db.nodes, Order()) else Ascending(db.nodes, Order())
      ensures forall a | a in InOrder(db.tree) :: a in Order()
    {
      hide At, IsRedBlack, Indexed, Linked, Allocated, Total, Fold, Layers, FlagsOf, InOrder, Vlog.Valid, Arena.Valid,
           Path, Staged;
      OrderNoRepeats(db.nodes, db.root, db.tree);
      PathFacts(db.nodes, InOrder(db.tree), reverse);
      FromSubset(Order(), curr);
      if NULL in Order() { InTree(db.nodes, db.root, db.tree, NULL); }
    }

    // ---------- creation ----------

    /** Iter, IterReverse and their forms with flags: a forward iterator has a start and an optional end,
        a reverse one only an optional end. */
    constructor (db: MemDb, start: Key, end: Option<Key>, reverse: bool, includeFlags: bool)
      requires db.Valid() && (reverse ==> start == [])
      ensures Valid() && Pending() == All()
      ensures this.db == db && this.start == start && this.end == end
      ensures this.reverse == reverse && this.includeFlags == includeFlags
    {
      this.db, this.start, this.end, this.reverse, this.includeFlags := db, start, end, reverse, includeFlags;
      curr := NULL;
      new;
      hide Valid, Pending, All, MemDb.Valid;
      Init();
    }

    /** An iterator that has not been positioned yet. */
    constructor Unpositioned(db: MemDb, start: Key, end: Option<Key>)
      requires db.Valid()
      ensures this.db == db && this.start == start && this.end == end && !reverse && !includeFlags && curr == NULL
    {
      this.db, this.start, this.end, this.reverse, this.includeFlags := db, start, end, false, false;
      curr := NULL;
    }

    method Init()
      requires db.Valid() && (reverse ==> start == [])
      modifies this
      ensures Valid() && Pending() == All()
    {
      hide At, IsRedBlack, Indexed, Linked, Allocated, Total, Fold, Layers, FlagsOf, InOrder, Vlog.Valid, Arena.Valid,
           Staged, MemDb.Valid, Path, Less, Select;
      ghost var i: nat;
      if reverse {
        if end == None || end == Some([]) {
          SeekToLast();
          i := 0;
        } else {
          ghost var p := Seek(end.value);
          i := |Order()| - p;
          BoundedFrom(p);
        }
      } else {
        if |start| == 0 {
          SeekToFirst();
          i := 0;
        } else {
          ghost var p := Seek(start);
          i := p;
          BoundedFrom(p);
        }
      }
      if i == 0 && start == [] && (reverse ==> UpperBound().None?) { Unbounded(); }
      StartsAt(i);
      if curr != NULL && IsFlagsOnly() && !includeFlags {
        Next();
      }
    }

    /** The order of the path seen from a place `p` in the ascending sequence. */
    ghost predicate Split(key: Key, p: nat)
      reads db
    {
      && p <= |InOrder(db.tree)| && (forall a | a in InOrder(db.tree) :: a in db.nodes)
      && (forall j | 0 <= j < p :: Less(db.nodes[InOrder(db.tree)[j]].key, key))
      && (forall j | p <= j < |InOrder(db.tree)| :: AtMost(key, db.nodes[InOrder(db.tree)[j]].key))
    }

    lemma BoundedFrom(p: nat)
      requires db.Valid() && |Order()| == |InOrder(db.tree)|
      requires if reverse then end.Some? && end.value != [] && Split(end.value, p) else Split(start, p)
      ensures p <= |Order()|
      ensures var i := if reverse then |Order()| - p else p;
              && (forall j | 0 <= j < i ::
                Order()[j] in db.nodes && !Shown(db.nodes[Order()[j]], includeFlags, start, UpperBound()))
              && (i < |Order()| && (reverse ==> start == []) ==> Standing(Order()[i]))
    {
      hide At, IsRedBlack, Indexed, Linked, Allocated, Total, Fold, Layers, FlagsOf, InOrder, Vlog.Valid, Arena.Valid,
           Staged, MemDb.Valid;
      OrderInTable();
      var s := InOrder(db.tree);
      forall j | 0 <= j < |s| && (if reverse then j >= p else j < p)
        ensures !Shown(db.nodes[s[j]], includeFlags, start, UpperBound())
      {
        if reverse {
          if end.value != db.nodes[s[j]].key && Less(db.nodes[s[j]].key, end.value) {
            LessAsymmetric(end.value, db.nodes[s[j]].key);
          }
          if end.value == db.nodes[s[j]].key && Less(db.nodes[s[j]].key, end.value) {
            LessAsymmetric(end.value, end.value);
          }
        } else {
          LessAsymmetric(db.nodes[s[j]].key, start);
        }
      }
    }

    lemma Unbounded()
      requires db.Valid() && start == [] && (reverse ==> UpperBound().None?)
      ensures Order() != [] ==> Standing(Order()[0])
    {
      hide MemDb.Valid, Path, InOrder;
      OrderInTable();
    }

    lemma StartsAt(i: nat)
      requires db.Valid() && StandsAt(i)
      requires forall j | 0 <= j < i ::
          Order()[j] in db.nodes && !Shown(db.nodes[Order()[j]], includeFlags, start, UpperBound())
      ensures Pending() == All()
    {
      hide At, IsRedBlack, Indexed, Linked, Allocated, Total, Fold, Layers, FlagsOf, InOrder, Vlog.Valid, Arena.Valid,
           Staged, MemDb.Valid, Path, Less;
      OrderInTable();
      PendingAt(i);
      SelectSuffix(db.nodes, Order(), i, includeFlags, start, UpperBound());
    }

    /** Stands on the first node with a key of at least `key`, or in reverse on the last one with a smaller key. */
    method Seek(key: Key) returns (ghost p: nat)
      requires db.Valid()
      modifies this
      ensures Split(key, p) && |Order()| == |InOrder(db.tree)|
      ensures StandsAt(if reverse then |Order()| - p else p)
    {
      hide At, IsRedBlack, Indexed, Linked, Allocated, Total, Fold, Layers, FlagsOf, InOrder, Vlog.Valid, Arena.Valid,
           Staged, Less;
      var x, y; ghost var c;
      x, y, c := db.Locate(key);
      p := SeekPlace(key, x, y, c);
      var cmp := 0;
      if x != NULL {
        y := x;
      } else if y != NULL {
        cmp := Compare(key, db.nodes[y].key);
      }
      if !reverse {
        if cmp > 0 {
          curr := db.Successor(y, p - 1);
          return;
        }
        curr := y;
        return;
      }
      if cmp <= 0 && y != NULL {
        curr := db.Predecessor(y, p);
        return;
      }
      curr := y;
    }

    /** Where the search for a key ended, as a place in the ascending sequence. */
    lemma SeekPlace(key: Key, x: Addr, y: Addr, c: Ctx) returns (p: nat)
      requires db.Valid() && (x != NULL <==> key in db.index) && (x != NULL ==> x == db.index[key])
      requires x == NULL ==> db.HangsAt(key, y, c)
      ensures Split(key, p) && At(db.nodes, db.root, Top, db.tree)
      ensures |Order()| == |InOrder(db.tree)|
          && forall j | 0 <= j < |Order()| :: Order()[j] == InOrder(db.tree)[OrderIndex(j)]
      ensures x != NULL ==> x in db.nodes && p < |InOrder(db.tree)| && InOrder(db.tree)[p] == x
      ensures x == NULL && y == NULL ==> InOrder(db.tree) == []
      ensures x == NULL && y != NULL ==>
                && y in db.nodes
                && if Compare(key, db.nodes[y].key) > 0 then 0 < p && InOrder(db.tree)[p - 1] == y
                   else p < |InOrder(db.tree)| && InOrder(db.tree)[p] == y
    {
      hide At, IsRedBlack, Indexed, Linked, Allocated, Total, Fold, Layers, FlagsOf, InOrder, Vlog.Valid, Arena.Valid,
           Staged, Less, Split, Before, After, Plug, AllLess, AllGreater;
      OrderLength();
      if x != NULL {
        p := FoundPlace(key, x);
      } else {
        p := |Before(c)|;
        LeafInOrder();
        PlugInOrder(c, Leaf);
        HoleNeighbours(db.nodes, db.root, c, key);
        assert InOrder(db.tree) == Before(c) + After(c);
        HolePlace(key, Before(c), After(c));
      }
    }

    lemma OrderLength()
      ensures |Order()| == |InOrder(db.tree)|
          && forall j | 0 <= j < |Order()| :: Order()[j] == InOrder(db.tree)[OrderIndex(j)]
    {
    }

    lemma FoundPlace(key: Key, x: Addr) returns (p: nat)
      requires db.Valid() && key in db.index && x == db.index[key]
      ensures x in db.nodes && p < |InOrder(db.tree)| && InOrder(db.tree)[p] == x && Split(key, p)
    {
      hide At, IsRedBlack, Linked, Allocated, Total, Fold, Layers, FlagsOf, InOrder, Vlog.Valid, Arena.Valid, Staged,
           Less;
      var s := InOrder(db.tree);
      p :| 0 <= p < |s| && s[p] == x;
    }

    lemma HolePlace(key: Key, l: seq<Addr>, r: seq<Addr>)
      requires InOrder(db.tree) == l + r && AllLess(db.nodes, l, key) && AllGreater(db.nodes, r, key)
      ensures Split(key, |l|)
    {
      hide InOrder;
      var s := InOrder(db.tree);
      assert forall j | 0 <= j < |l| :: s[j] == l[j] && s[j] in l;
      assert forall j | |l| <= j < |s| :: s[j] == r[j - |l|] && s[j] in r;
    }

    method SeekToFirst()
      requires db.Valid() && !reverse
      modifies this
      ensures StandsAt(0)
    {
      hide At, IsRedBlack, Indexed, Linked, Allocated, Total, Fold, Layers, FlagsOf, InOrder, Vlog.Valid, Arena.Valid,
           Staged;
      var y, x := NULL, db.root;
      ghost var c, t := Top, db.tree;
      AtRoot(db.nodes, db.root, db.tree);
      while x != NULL
        invariant At(db.nodes, db.root, c, t) && x == AddrOf(t) && (x == NULL <==> t.Leaf?)
        invariant db.tree.Branch? && t.Leaf? ==> y == First(db.tree)
        invariant t.Branch? ==> db.tree.Branch? && First(t) == First(db.tree)
        invariant db.tree.Leaf? ==> y == NULL
        decreases t
      {
        y := x;
        SpliceFootprint(db.nodes, db.root, c, t);
        x := db.nodes[y].left;
        Zoom(db.nodes, db.root, L, c, t.addr, t.red, t.right, t.left);
        c, t := Under(L, c, t.addr, t.red, t.right), t.left;
      }
      curr := y;
      LeafInOrder();
      if db.tree.Branch? { EndsInOrder(db.tree); }
    }

    method SeekToLast()
      requires db.Valid() && reverse
      modifies this
      ensures StandsAt(0)
    {
      hide At, IsRedBlack, Indexed, Linked, Allocated, Total, Fold, Layers, FlagsOf, InOrder, Vlog.Valid, Arena.Valid,
           Staged;
      var y, x := NULL, db.root;
      ghost var c, t := Top, db.tree;
      AtRoot(db.nodes, db.root, db.tree);
      while x != NULL
        invariant At(db.nodes, db.root, c, t) && x == AddrOf(t) && (x == NULL <==> t.Leaf?)
        invariant db.tree.Branch? && t.Leaf? ==> y == Last(db.tree)
        invariant t.Branch? ==> db.tree.Branch? && Last(t) == Last(db.tree)
        invariant db.tree.Leaf? ==> y == NULL
        decreases t
      {
        y := x;
        SpliceFootprint(db.nodes, db.root, c, t);
        x := db.nodes[y].right;
        Zoom(db.nodes, db.root, R, c, t.addr, t.red, t.left, t.right);
        c, t := Under(R, c, t.addr, t.red, t.left), t.right;
      }
      curr := y;
      LeafInOrder();
      if db.tree.Branch? { EndsInOrder(db.tree); }
    }

    // ---------- positions ----------

    /** Where the iterator stands on its path: at index `i`, or behind the end. */
    ghost predicate StandsAt(i: nat)
      reads this, db
    {
      i <= |Order()| && curr == if i < |Order()| then Order()[i] else NULL
    }

    lemma PendingAt(i: nat)
      requires db.Valid() && StandsAt(i)
      ensures From(Order(), curr) == Order()[i..]
      ensures Pending() == Select(db.nodes, Order()[i..], includeFlags, start, UpperBound())
    {
      hide At, IsRedBlack, Indexed, Linked, Allocated, Total, Fold, Layers, FlagsOf, InOrder, Vlog.Valid, Arena.Valid,
           Staged, MemDb.Valid;
      OrderInTable();
      if i < |Order()| { FromAt(Order(), i); } else { FromAbsent(Order(), NULL); }
    }

    lemma Position() returns (i: nat)
      requires db.Valid() && (curr != NULL ==> curr in InOrder(db.tree))
      ensures StandsAt(i) && (curr != NULL ==> i < |Order()|)
    {
      hide At, IsRedBlack, Indexed, Linked, Allocated, Total, Fold, Layers, FlagsOf, InOrder, Vlog.Valid, Arena.Valid,
           Staged, MemDb.Valid, Path;
      OrderInTable();
      if curr == NULL {
        i := |Order()|;
      } else {
        i :| 0 <= i < |Order()| && Order()[i] == curr;
      }
    }

    predicate IsFlagsOnly()
      requires curr != NULL ==> curr in db.nodes
      reads this, db
    {
      curr != NULL && db.nodes[curr].vptr == NULL
    }

    // ---------- the interface ----------

    /** A forward iterator ends at its upper bound, a reverse one only at the end of the tree. */
    predicate IsValid()
      requires curr != NULL ==> curr in db.nodes
      reads this, db
    {
      if !reverse then curr != NULL && (end.None? || Compare(db.nodes[curr].key, end.value) < 0)
      else curr != NULL
    }

    /** The iterator is valid as long as something is left to show, and then stands on the first of it. */
    lemma ValidMeansPending()
      requires Valid()
      ensures curr != NULL ==> curr in db.nodes
      ensures IsValid() <==> Pending() != []
      ensures IsValid() ==> Pending()[0] == curr && Shown(db.nodes[curr], includeFlags, start, UpperBound())
    {
      hide At, IsRedBlack, Indexed, Linked, Allocated, Total, Fold, Layers, FlagsOf, InOrder, Vlog.Valid, Arena.Valid,
           Staged, MemDb.Valid, Path, Less;
      OrderInTable();
      var i := Position();
      PendingAt(i);
      if curr != NULL {
        LessTotalOf(db.nodes[curr].key);
        if !IsValid() {
          BeyondEnd(i);
        } else {
          assert Order()[i..][0] == curr;
        }
      }
    }

    /** Off the end there is nothing left. */
    lemma InvalidMeansDone()
      requires db.Valid() && !reverse && (curr != NULL ==> Standing(curr)) && !IsValid()
      ensures Pending() == []
    {
      hide At, IsRedBlack, Indexed, Linked, Allocated, Total, Fold, Layers, FlagsOf, InOrder, Vlog.Valid, Arena.Valid,
           Staged, MemDb.Valid, Path, Less;
      OrderInTable();
      var i := Position();
      PendingAt(i);
      if curr != NULL {
        LessTotalOf(db.nodes[curr].key);
        BeyondEnd(i);
      }
    }

    lemma LessTotalOf(k: Key)
      ensures end.Some? ==> (Compare(k, end.value) < 0 <==> Less(k, end.value))
    {
      if end.Some? && k == end.value && Less(k, end.value) { LessAsymmetric(k, end.value); }
    }

    /** Behind the upper bound a forward iterator has nothing left to show. */
    lemma BeyondEnd(i: nat)
      requires db.Valid() && !reverse && StandsAt(i) && i < |Order()| && curr in db.nodes
      requires end.Some? && !Less(db.nodes[curr].key, end.value)
      ensures Select(db.nodes, Order()[i..], includeFlags, start, UpperBound()) == []
    {
      hide At, IsRedBlack, Indexed, Linked, Allocated, Total, Fold, Layers, FlagsOf, InOrder, Vlog.Valid, Arena.Valid,
           Staged, MemDb.Valid, Path, Less;
      OrderInTable();
      var s := Order();
      forall a | a in s[i..] ensures a in db.nodes && !Less(db.nodes[a].key, end.value) {
        var j :| i <= j < |s| && s[j] == a;
        if i < j && Less(db.nodes[a].key, end.value) {
          LessTransitive(db.nodes[s[i]].key, db.nodes[a].key, end.value);
        }
      }
      SelectNone(db.nodes, s[i..], includeFlags, start, UpperBound());
    }

    method GetKey() returns (k: Key)
      requires Valid() && curr != NULL
      ensures k == db.nodes[curr].key
    {
      k := db.nodes[curr].key;
    }

    /** The current value.  A node with flags only has none, and reading it would leave the blocks of the log. */
    method GetValue() returns (v: Value)
      requires Valid() && curr != NULL && db.nodes[curr].vptr != NULL
      ensures curr in Fold(db.vlog.recs) && v == Fold(db.vlog.recs)[curr]
    {
      hide At, IsRedBlack, Linked, Allocated, Total, Fold, Layers, FlagsOf, InOrder, Vlog.Valid, Arena.Valid, Staged;
      AddrOfKey(db.nodes, InOrder(db.tree), db.index, curr);
      ghost var j := db.NewestOf(db.nodes[curr].key);
      v := db.vlog.GetValue(db.nodes[curr].vptr, j);
    }

    ghost predicate CurrShown()
      reads this, db
    {
      curr in db.nodes && Shown(db.nodes[curr], includeFlags, start, UpperBound())
    }

    /** Moves to the next node, shown or not. */
    method StepOn(ghost i0: nat, ghost i: nat)
      requires db.Valid() && (reverse ==> start == []) && i0 <= i < |Order()| && StandsAt(i) && Standing(Order()[i0])
      modifies `curr
      ensures StandsAt(i + 1) && (curr != NULL ==> i + 1 < |Order()| && Standing(curr))
    {
      hide At, IsRedBlack, Indexed, Linked, Allocated, Total, Fold, Layers, FlagsOf, InOrder, Vlog.Valid, Arena.Valid,
           Staged;
      hide MemDb.Valid, Path, Less;
      ghost var p := OrderIndex(i);
      Neighbour(i, p);
      if reverse {
        curr := db.Predecessor(curr, p);
      } else {
        curr := db.Successor(curr, p);
      }
      if curr != NULL { OnwardStanding(i0, i + 1); }
    }

    /** Moves to the next shown node; nodes that only carry flags are skipped unless they are asked for. */
    method Next()
      requires db.Valid() && (reverse ==> start == []) && curr != NULL && Standing(curr)
      modifies this
      ensures Valid()
      ensures |From(Order(), curr)| < old(|From(Order(), curr)|)
      ensures Pending() == if old(CurrShown()) then Tail(old(Pending())) else old(Pending())
    {
      hide At, IsRedBlack, Indexed, Linked, Allocated, Total, Fold, Layers, FlagsOf, InOrder, Vlog.Valid, Arena.Valid,
           Staged, MemDb.Valid, Path, Less;
      ghost var i0 := Position();
      PendingAt(i0);
      ghost var i := i0;
      while true
        invariant db.Valid() && i0 <= i < |Order()| && StandsAt(i) && curr != NULL && Standing(curr)
        invariant forall j | i0 < j <= i ::
            Order()[j] in db.nodes && !Shown(db.nodes[Order()[j]], includeFlags, start, UpperBound())
        decreases |Order()| - i
      {
        StepOn(i0, i);
        i := i + 1;
        if includeFlags || !IsFlagsOnly() {
          break;
        }
      }
      PendingAt(i);
      SkipTo(i0, i);
    }

    /** The tree neighbours of a node are its neighbours on the path. */
    lemma Neighbour(i: nat, p: nat)
      requires db.Valid() && StandsAt(i) && i < |Order()| && p == OrderIndex(i)
      ensures At(db.nodes, db.root, Top, db.tree) && p < |InOrder(db.tree)| && InOrder(db.tree)[p] == curr
      ensures (if i + 1 < |Order()| then Order()[i + 1] else NULL) ==
              if reverse then (if p > 0 then InOrder(db.tree)[p - 1] else NULL)
              else if p + 1 < |InOrder(db.tree)| then InOrder(db.tree)[p + 1] else NULL
    {
      hide At, IsRedBlack, Indexed, Linked, Allocated, Total, Fold, Layers, FlagsOf, InOrder, Vlog.Valid, Arena.Valid,
           Staged;
    }

    /** Further along the path the bound where the iteration began still holds. */
    lemma OnwardStanding(i: nat, j: nat)
      requires db.Valid() && (reverse ==> start == []) && i < j < |Order()| && Standing(Order()[i])
      ensures Standing(Order()[j])
    {
      hide At, IsRedBlack, Indexed, Linked, Allocated, Total, Fold, Layers, FlagsOf, InOrder, Vlog.Valid, Arena.Valid,
           Staged, MemDb.Valid, Path;
      OrderInTable();
      var a, b := Order()[i], Order()[j];
      if reverse {
        if UpperBound().Some? { LessTransitive(db.nodes[b].key, db.nodes[a].key, UpperBound().value); }
      } else if start != db.nodes[a].key {
        LessTransitive(start, db.nodes[a].key, db.nodes[b].key);
      }
    }

    lemma SkipTo(i: nat, j: nat)
      requires db.Valid() && i < j <= |Order()|
      requires forall k | i < k < j ::
          Order()[k] in db.nodes && !Shown(db.nodes[Order()[k]], includeFlags, start, UpperBound())
      ensures Order()[i] in db.nodes
      ensures var rest, all := Select(db.nodes, Order()[j..], includeFlags, start, UpperBound()),
                               Select(db.nodes, Order()[i..], includeFlags, start, UpperBound());
              rest == if Shown(db.nodes[Order()[i]], includeFlags, start, UpperBound()) then Tail(all) else all
    {
      hide At, IsRedBlack, Indexed, Linked, Allocated, Total, Fold, Layers, FlagsOf, InOrder, Vlog.Valid, Arena.Valid,
           Staged, MemDb.Valid, Path;
      OrderInTable();
      var s := Order()[i + 1..];
      assert s[j - i - 1..] == Order()[j..] && Order()[i..][1..] == s && Order()[i..][0] == Order()[i];
      assert forall k | 0 <= k < j - i - 1 :: s[k] == Order()[i + 1 + k];
      SelectSuffix(db.nodes, s, j - i - 1, includeFlags, start, UpperBound());
    }

    /** The index in the ascending sequence of the node at index `i` of the path. */
    ghost function OrderIndex(i: nat): nat
      requires i < |Order()|
      reads db
    {
      if reverse then |InOrder(db.tree)| - 1 - i else i
    }
  }

  lemma {:induction false} FromSubset(path: seq<Addr>, a: Addr)
    ensures forall b | b in From(path, a) :: b in path
  {
    if path != [] && path[0] != a { FromSubset(path[1..], a); }
  }
}
