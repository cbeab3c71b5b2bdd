/** Search order: the in-order sequence is strictly ascending in the keys of its nodes. */
module Search {
  import opened Addresses
  import opened Keys
  import opened RedBlack
  import opened NodeTable

  ghost predicate Ascending(n: Table, s: seq<Addr>) {
    && (forall a | a in s :: a in n)
    && (forall i, j | 0 <= i < j < |s| :: Less(n[s[i]].key, n[s[j]].key))
  }

  ghost predicate AllLess(n: Table, s: seq<Addr>, key: Key) {
    forall a | a in s :: a in n && Less(n[a].key, key)
  }

  ghost predicate AllGreater(n: Table, s: seq<Addr>, key: Key) {
    forall a | a in s :: a in n && Less(key, n[a].key)
  }

  lemma AscendingData(n: Table, n': Table, s: seq<Addr>)
    requires Ascending(n, s) && SameData(n, n')
    ensures Ascending(n', s)
  {
  }

  lemma AscendingParts(n: Table, l: seq<Addr>, x: Addr, r: seq<Addr>)
    requires Ascending(n, l + [x] + r)
    ensures Ascending(n, l) && Ascending(n, r) && x in n && AllLess(n, l, n[x].key) && AllGreater(n, r, n[x].key)
  {
    var s := l + [x] + r;
    assert s[|l|] == x;
    Stretch(n, s, 0, |l|);
    Stretch(n, s, |l| + 1, |s|);
    assert s[0..|l|] == l && s[|l| + 1..|s|] == r;
    forall a | a in l ensures a in n && Less(n[a].key, n[x].key) {
      var i :| 0 <= i < |l| && l[i] == a;
      assert s[i] == a;
    }
    forall a | a in r ensures a in n && Less(n[x].key, n[a].key) {
      var i :| 0 <= i < |r| && r[i] == a;
      assert s[|l| + 1 + i] == a;
    }
  }

  lemma Stretch(n: Table, s: seq<Addr>, lo: nat, hi: nat)
    requires Ascending(n, s) && lo <= hi <= |s|
    ensures Ascending(n, s[lo..hi])
  {
    var s' := s[lo..hi];
    forall i, j | 0 <= i < j < |s'| ensures s'[i] in n && s'[j] in n && Less(n[s'[i]].key, n[s'[j]].key) {
      assert s'[i] == s[lo + i] && s'[j] == s[lo + j];
    }
  }

  /** A key greater than a node's is greater than everything before the node, and the mirror image. */
  lemma Beyond(n: Table, l: seq<Addr>, x: Addr, r: seq<Addr>, key: Key)
    requires Ascending(n, l + [x] + r)
    ensures x in n
    ensures Less(n[x].key, key) ==> AllLess(n, l + [x], key)
    ensures Less(key, n[x].key) ==> AllGreater(n, [x] + r, key)
  {
    AscendingParts(n, l, x, r);
    if Less(n[x].key, key) {
      forall a | a in l + [x] ensures a in n && Less(n[a].key, key) {
        if a in l { LessTransitive(n[a].key, n[x].key, key); }
      }
    }
    if Less(key, n[x].key) {
      forall a | a in [x] + r ensures a in n && Less(key, n[a].key) {
        if a in r { LessTransitive(key, n[x].key, n[a].key); }
      }
    }
  }

  /** Going down to a child keeps the key between what comes before the hole and what comes after it. */
  lemma Descend(n: Table, c: Ctx, t: Tree, key: Key)
    requires t.Branch? && Ascending(n, Before(c) + InOrder(t) + After(c))
    requires AllLess(n, Before(c), key) && AllGreater(n, After(c), key)
    ensures t.addr in n
    ensures Less(key, n[t.addr].key) ==>
              var c' := Under(L, c, t.addr, t.red, t.right);
              AllLess(n, Before(c'), key) && AllGreater(n, After(c'), key)
              && Before(c') + InOrder(t.left) + After(c') == Before(c) + InOrder(t) + After(c)
    ensures Less(n[t.addr].key, key) ==>
              var c' := Under(R, c, t.addr, t.red, t.left);
              AllLess(n, Before(c'), key) && AllGreater(n, After(c'), key)
              && Before(c') + InOrder(t.right) + After(c') == Before(c) + InOrder(t) + After(c)
  {
    var a, l, x, r, b := Before(c), InOrder(t.left), t.addr, InOrder(t.right), After(c);
    Regroup(a, l, [x], r, b);
    assert a + (l + [x] + r) + b == (a + l) + [x] + (r + b);
    Beyond(n, a + l, x, r + b, key);
  }

  /** What a finished search knows when it has found nothing. */
  lemma NotFound(n: Table, s: seq<Addr>, l: seq<Addr>, r: seq<Addr>, key: Key)
    requires AllLess(n, l, key) && AllGreater(n, r, key) && s == l + r
    ensures forall a | a in s :: a in n && n[a].key != key
  {
    forall a | a in s ensures a in n && n[a].key != key {
      if a in l { LessAsymmetric(n[a].key, key); } else { LessAsymmetric(key, n[a].key); }
    }
  }

  /** A new key between its neighbours keeps the order. */
  lemma AscendingInsert(n: Table, l: seq<Addr>, x: Addr, r: seq<Addr>)
    requires Ascending(n, l + r) && x in n && AllLess(n, l, n[x].key) && AllGreater(n, r, n[x].key)
    ensures Ascending(n, l + [x] + r)
  {
    var s, s' := l + r, l + [x] + r;
    forall i, j | 0 <= i < j < |s'| ensures Less(n[s'[i]].key, n[s'[j]].key) {
      if i == |l| {
        assert s'[j] in r;
      } else if j == |l| {
        assert s'[i] in l;
      } else {
        assert s'[i] == s[if i < |l| then i else i - 1] && s'[j] == s[if j < |l| then j else j - 1];
      }
    }
  }

  lemma AscendingRemove(n: Table, s: seq<Addr>, i: nat)
    requires Ascending(n, s) && i < |s|
    ensures Ascending(n, s[..i] + s[i + 1..])
  {
    var s' := s[..i] + s[i + 1..];
    forall a | a in s' ensures a in n {
      assert a in s;
    }
    forall j, k | 0 <= j < k < |s'| ensures Less(n[s'[j]].key, n[s'[k]].key) {
      assert s'[j] == s[if j < i then j else j + 1] && s'[k] == s[if k < i then k else k + 1];
    }
  }

  // ---------- small facts for the search loop ----------

  lemma EmptyCtx(n: Table, t: Tree, key: Key)
    ensures AllLess(n, Before(Top), key) && AllGreater(n, After(Top), key)
    ensures Before(Top) + InOrder(t) + After(Top) == InOrder(t)
  {
  }

  lemma PlugStep(d: Side, c: Ctx, a: Addr, red: bool, sib: Tree, t: Tree)
    ensures Plug(Under(d, c, a, red, sib), t) == Plug(c, Mk(d, t, a, red, sib))
  {
  }

  lemma LeafInOrder()
    ensures InOrder(Leaf) == []
  {
  }

  /** The neighbours of a hole: its parent is the last before it or the first after it. */
  lemma HoleNeighbours(n: Table, root: Addr, c: Ctx, key: Key)
    requires At(n, root, c, Leaf) && AllLess(n, Before(c), key) && AllGreater(n, After(c), key)
    ensures UpOf(c) == NULL ==> Before(c) == [] && After(c) == []
    ensures c.Under? && c.side == R ==>
              && Before(c) != [] && Before(c)[|Before(c)| - 1] == c.addr
              && c.addr in n && Compare(key, n[c.addr].key) > 0
    ensures c.Under? && c.side == L ==>
              && After(c) != [] && After(c)[0] == c.addr
              && c.addr in n && Compare(key, n[c.addr].key) < 0
  {
    CtxNullFree(c);
    assert c.Under? ==> UpOf(c) in CtxAddrs(c);
    if c.Under? && c.side == R {
      assert c.addr in Before(c);
      LessAsymmetric(n[c.addr].key, key);
    }
    if c.Under? && c.side == L {
      assert c.addr in After(c);
      LessAsymmetric(key, n[c.addr].key);
    }
  }
}
