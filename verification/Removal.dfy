/** Taking one node out of the tree: splicing out a node with at most one child, and putting a node that was
    spliced out in the place of another. */
module Removal {
  import opened Addresses
  import opened RedBlack
  import opened NodeTable
  import opened Rebalancing

  // ---------- the leftmost node ----------

  function Min(t: Tree): (m: Tree)
    requires t.Branch?
    ensures m.Branch? && m.left.Leaf?
  {
    if t.left.Leaf? then t else Min(t.left)
  }

  function MinCtx(c: Ctx, t: Tree): Ctx
    requires t.Branch?
    decreases t
  {
    if t.left.Leaf? then c else MinCtx(Under(L, c, t.addr, t.red, t.right), t.left)
  }

  function RemoveMin(t: Tree): Tree
    requires t.Branch?
  {
    if t.left.Leaf? then t.right else Branch(RemoveMin(t.left), t.addr, t.red, t.right)
  }

  lemma {:induction false} PlugMin(c: Ctx, t: Tree)
    requires t.Branch?
    ensures Plug(MinCtx(c, t), Min(t)) == Plug(c, t)
    ensures Plug(MinCtx(c, t), Min(t).right) == Plug(c, RemoveMin(t))
    decreases t
  {
    if t.left.Branch? {
      PlugMin(Under(L, c, t.addr, t.red, t.right), t.left);
    }
  }

  lemma {:induction false} MinInOrder(t: Tree)
    requires t.Branch?
    ensures InOrder(t) == [Min(t).addr] + InOrder(RemoveMin(t))
  {
    if t.left.Branch? {
      MinInOrder(t.left);
      var m, rest := [Min(t).addr], InOrder(RemoveMin(t.left));
      assert (m + rest) + [t.addr] + InOrder(t.right) == m + (rest + [t.addr] + InOrder(t.right));
    } else {
      assert [] + [t.addr] + InOrder(t.right) == [t.addr] + InOrder(t.right);
    }
  }

  /** Only the node at the bottom of the left spine depends on what the spine hangs from. */
  lemma {:induction false} MinCtxParent(c: Ctx, c': Ctx, t: Tree)
    requires t.Branch?
    ensures UpOf(MinCtx(c, t)) == if t.left.Leaf? then UpOf(c) else UpOf(MinCtx(c', t))
    decreases t
  {
    if t.left.Branch? {
      MinCtxParent(Under(L, c, t.addr, t.red, t.right), Under(L, c', t.addr, t.red, t.right), t.left);
    }
  }

  // ---------- neighbours ----------

  lemma PlugTop(t: Tree)
    ensures Plug(Top, t) == t
  {
  }

  /** The first and last address of a tree. */
  function First(t: Tree): Addr
    requires t.Branch?
  {
    if t.left.Leaf? then t.addr else First(t.left)
  }

  function Last(t: Tree): Addr
    requires t.Branch?
  {
    if t.right.Leaf? then t.addr else Last(t.right)
  }

  lemma {:induction false} EndsInOrder(t: Tree)
    requires t.Branch?
    ensures InOrder(t) != [] && InOrder(t)[0] == First(t) && InOrder(t)[|InOrder(t)| - 1] == Last(t)
  {
    if t.left.Branch? { EndsInOrder(t.left); }
    if t.right.Branch? { EndsInOrder(t.right); }
  }

  /** Where the cursor's node stands in the in-order sequence, and who its neighbours are. */
  lemma Position(c: Ctx, t: Tree, tree: Tree, i: nat)
    requires t.Branch? && Plug(c, t) == tree && Distinct(tree)
    requires i < |InOrder(tree)| && InOrder(tree)[i] == t.addr
    ensures i == |Before(c)| + |InOrder(t.left)|
    ensures (if i + 1 < |InOrder(tree)| then InOrder(tree)[i + 1] else NULL) ==
            if t.right.Branch? then First(t.right) else if After(c) != [] then After(c)[0] else NULL
    ensures (if i > 0 then InOrder(tree)[i - 1] else NULL) ==
            if t.left.Branch? then Last(t.left) else if Before(c) != [] then Before(c)[|Before(c)| - 1] else NULL
  {
    hide Distinct;
    PlugInOrder(c, t);
    InOrderNoRepeats(tree);
    Neighbours(Before(c), InOrder(t.left), t.addr, InOrder(t.right), After(c), i);
    if t.right.Branch? { EndsInOrder(t.right); }
    if t.left.Branch? { EndsInOrder(t.left); }
  }

  lemma Neighbours(a: seq<Addr>, l: seq<Addr>, x: Addr, r: seq<Addr>, b: seq<Addr>, i: nat)
    requires var s := a + (l + [x] + r) + b; NoRepeats(s) && i < |s| && s[i] == x
    ensures var s := a + (l + [x] + r) + b;
            && i == |a| + |l|
            && (i + 1 < |s| <==> r != [] || b != [])
            && (i + 1 < |s| ==> s[i + 1] == if r != [] then r[0] else b[0])
            && (i > 0 <==> l != [] || a != [])
            && (i > 0 ==> s[i - 1] == if l != [] then l[|l| - 1] else a[|a| - 1])
  {
    var s := a + (l + [x] + r) + b;
    assert s[|a| + |l|] == x;
  }

  lemma TopDistinct(n: Table, root: Addr, tree: Tree)
    requires At(n, root, Top, tree)
    ensures Distinct(tree)
  {
  }

  // ---------- splicing out ----------

  /** The child that survives when a node with at most one child is taken out. */
  function OnlyChild(t: Tree): Tree
    requires t.Branch?
  {
    if t.left.Branch? then t.left else t.right
  }

  /** The writes: the child's parent link (even on the dummy node), and the link that led to the node. */
  ghost predicate Spliced(n: Table, n': Table, root: Addr, root': Addr, c: Ctx, x: Addr) {
    && x in n && UpOf(c) in n && n'.Keys == n.Keys && x != UpOf(c)
    && (forall a | a in n && a != x && a != UpOf(c) :: n'[a] == n[a])
    && n'[x] == n[x].(up := UpOf(c))
    && Relinked(n, n', root, root', c, x)
  }

  lemma SpliceAt(n: Table, n': Table, root: Addr, root': Addr, c: Ctx, t: Tree)
    requires At(n, root, c, t) && t.Branch? && (t.left.Leaf? || t.right.Leaf?)
    requires if c.Under? then Spliced(n, n', root, root', c, AddrOf(OnlyChild(t)))
             else var x := AddrOf(OnlyChild(t)); x in n && n' == n[x := n[x].(up := NULL)] && root' == x
    ensures At(n', root', c, OnlyChild(t))
  {
    var x := OnlyChild(t);
    NullFree(t);
    CtxNullFree(c);
    EmbeddedAddrs(n, t, UpOf(c));
    CtxEmbeddedAddrs(n, c, root, t.addr);
    if x.Branch? { assert x.addr in Addrs(x); }
    assert Addrs(x) <= Addrs(t);
    assert c.Under? ==> UpOf(c) in CtxAddrs(c);
    Rehang(n, n', x, t.addr, UpOf(c));
    if c.Under? { CtxRelink(n, n', root, root', c, t.addr, AddrOf(x)); }
  }

  /** What splicing out `y` relies on. */
  lemma SpliceFootprint(n: Table, root: Addr, c: Ctx, t: Tree)
    requires At(n, root, c, t) && t.Branch?
    ensures t.addr in n && t.addr != NULL && n[t.addr].up == UpOf(c) && n[t.addr].red == t.red
    ensures n[t.addr].left == AddrOf(t.left) && n[t.addr].right == AddrOf(t.right)
    ensures AddrOf(t.left) in n && AddrOf(t.right) in n && AddrOf(t.left) != t.addr && AddrOf(t.right) != t.addr
    ensures t.left.Branch? ==> AddrOf(t.left) != AddrOf(t.right)
    ensures (t.left.Leaf? <==> AddrOf(t.left) == NULL) && (t.right.Leaf? <==> AddrOf(t.right) == NULL)
    ensures UpOf(c) in n && (c.Top? <==> UpOf(c) == NULL) && UpOf(c) != t.addr
    ensures UpOf(c) != NULL ==> AddrOf(t.left) != UpOf(c) && AddrOf(t.right) != UpOf(c)
    ensures UpOf(c) != NULL ==> Link(n[UpOf(c)], c.side) == t.addr && Link(n[UpOf(c)], Opp(c.side)) != t.addr
    ensures c.Top? ==> root == t.addr
  {
    NullFree(t);
    CtxNullFree(c);
    EmbeddedAddrs(n, t, UpOf(c));
    if c.Under? { Around(n, root, c, t); assert UpOf(c) in CtxAddrs(c); }
    if t.left.Branch? { assert t.left.addr in Addrs(t.left); }
    if t.right.Branch? { assert t.right.addr in Addrs(t.right); }
  }

  // ---------- replacing a node ----------

  /** The writes that put `y` in the place of `z`. */
  ghost predicate Replaced(n: Table, n': Table, root: Addr, root': Addr, c: Ctx, z: Addr, y: Addr, l: Addr, r: Addr) {
    && z in n && y in n && l in n && r in n && UpOf(c) in n && n'.Keys == n.Keys
    && (forall a | a in n && a != y && a != l && a != r && a != UpOf(c) :: n'[a] == n[a])
    && n'[y] == n[y].(up := n[z].up, left := l, right := r, red := n[z].red)
    && n'[l] == n[l].(up := y)
    && n'[r] == n[r].(up := y)
    && NULL in n && n'[NULL] == (if r == NULL then n[NULL].(up := y) else n[NULL])
    && Relinked(n, n', root, root', c, y)
  }

  lemma ReplaceAt(n: Table, n': Table, root: Addr, root': Addr, c: Ctx, l: Tree, z: Addr, red: bool, r: Tree, y: Addr)
    requires At(n, root, c, Branch(l, z, red, r)) && l.Branch?
    requires y != NULL && y in n && y !in Addrs(Branch(l, z, red, r)) && y !in CtxAddrs(c)
    requires Replaced(n, n', root, root', c, z, y, AddrOf(l), AddrOf(r))
    ensures At(n', root', c, Branch(l, y, red, r))
  {
    var t := Branch(l, z, red, r);
    NullFree(t);
    CtxNullFree(c);
    EmbeddedAddrs(n, t, UpOf(c));
    CtxEmbeddedAddrs(n, c, root, z);
    assert Addrs(t) == Addrs(l) + {z} + Addrs(r);
    assert l.addr in Addrs(l) && (r.Branch? ==> r.addr in Addrs(r));
    assert c.Under? ==> UpOf(c) in CtxAddrs(c);
    ReplaceFrames(n, n', root, root', c, z, y, l.addr, AddrOf(r), Addrs(l), Addrs(r), CtxAddrs(c));
    Rehang(n, n', l, z, y);
    Rehang(n, n', r, z, y);
    CtxRelink(n, n', root, root', c, z, y);
  }

  lemma ReplaceFrames(n: Table, n': Table, root: Addr, root': Addr, c: Ctx, z: Addr, y: Addr, l: Addr, r: Addr,
                      sl: set<Addr>, sr: set<Addr>, sc: set<Addr>)
    requires Replaced(n, n', root, root', c, z, y, l, r)
    requires sl + sr + sc <= n.Keys && NULL !in sl && NULL !in sr && NULL !in sc
    requires y !in sl && y !in sr && y !in sc && sl !! sr && sl !! sc && sr !! sc
    requires l in sl && (r == NULL || r in sr)
    requires c.Under? ==> UpOf(c) in sc
    requires c.Top? ==> UpOf(c) == NULL
    ensures SameShape(n, n', sl - {l}) && SameShape(n, n', sr - {r}) && SameShape(n, n', sc - {UpOf(c)})
  {
  }

  // ---------- the rules ----------

  /** Renaming a node keeps the rules. */
  lemma RenameRedBlack(c: Ctx, l: Tree, z: Addr, red: bool, r: Tree, y: Addr)
    requires IsRedBlack(Plug(c, Branch(l, z, red, r)))
    ensures IsRedBlack(Plug(c, Branch(l, y, red, r)))
  {
    PlugRedBlack(c, Branch(l, z, red, r));
    RedBlackPlug(c, Branch(l, y, red, r));
  }

  /** A black node spliced out leaves its child short; a red one leaves the rules intact. */
  lemma SplicedRules(c: Ctx, t: Tree)
    requires IsRedBlack(Plug(c, t)) && t.Branch? && (t.left.Leaf? || t.right.Leaf?)
    ensures t.red ==> IsRedBlack(Plug(c, OnlyChild(t)))
    ensures !t.red ==> Short(c, OnlyChild(t))
  {
    PlugRedBlack(c, t);
    if t.red { RedBlackPlug(c, OnlyChild(t)); }
  }

  // ---------- deleting an inner node ----------

  /** What replacing `z` by `y` relies on: the nodes written exist and differ, and the parent's link is `z`. */
  ghost predicate CanReplace(n: Table, root: Addr, c: Ctx, z: Addr, y: Addr) {
    && z in n && y in n && NULL in n && z != NULL && y != NULL && y != z
    && n[z].up == UpOf(c) && UpOf(c) in n && UpOf(c) != y && UpOf(c) != z
    && (c.Top? <==> UpOf(c) == NULL)
    && (UpOf(c) != NULL ==> Link(n[UpOf(c)], c.side) == z && Link(n[UpOf(c)], Opp(c.side)) != z)
    && var l, r := n[z].left, n[z].right;
    && l in n && r in n && l != NULL && l != r && l != y && r != y && l != z && r != z
    && (UpOf(c) != NULL ==> l != UpOf(c) && r != UpOf(c))
  }

  lemma AtRoot(n: Table, root: Addr, t: Tree)
    requires At(n, root, Top, t)
    ensures root == AddrOf(t) && (root == NULL <==> t.Leaf?)
  {
  }

  lemma AtDummy(n: Table, root: Addr, c: Ctx, t: Tree)
    requires At(n, root, c, t)
    ensures DummyOk(n)
  {
  }

  lemma ReplaceFootprint(n: Table, root: Addr, c: Ctx, t: Tree, y: Addr)
    requires At(n, root, c, t) && t.Branch? && t.left.Branch?
    requires y != NULL && y in n && y !in Addrs(t) && y !in CtxAddrs(c)
    ensures CanReplace(n, root, c, t.addr, y)
    ensures n[t.addr].left == t.left.addr && n[t.addr].right == AddrOf(t.right)
        && (t.right.Leaf? <==> AddrOf(t.right) == NULL)
  {
    hide At, Distinct, CtxDistinct, Separate, Addrs, CtxAddrs, Embeds, CtxEmbeds;
    SpliceFootprint(n, root, c, t);
    AtDummy(n, root, c, t);
    TopAddrs(c, t);
  }

  lemma TopAddrs(c: Ctx, t: Tree)
    requires t.Branch?
    ensures t.addr in Addrs(t)
    ensures t.left.Branch? ==> t.left.addr in Addrs(t)
    ensures t.right.Branch? ==> t.right.addr in Addrs(t)
    ensures c.Under? ==> UpOf(c) in CtxAddrs(c)
  {
  }

  lemma ReplacedData(n: Table, n': Table, root: Addr, root': Addr, c: Ctx, z: Addr, y: Addr, l: Addr, r: Addr)
    requires Replaced(n, n', root, root', c, z, y, l, r)
    ensures SameData(n, n')
  {
  }

  lemma {:induction false} FirstIsMin(t: Tree)
    requires t.Branch?
    ensures First(t) == Min(t).addr
  {
    if t.left.Branch? { FirstIsMin(t.left); }
  }

  lemma AtMin(n: Table, root: Addr, c: Ctx, l: Tree, z: Addr, red: bool, r: Tree)
    requires At(n, root, c, Branch(l, z, red, r)) && r.Branch?
    ensures OnlyChild(Min(r)) == Min(r).right
    ensures At(n, root, MinCtx(Under(R, c, z, red, l), r), Min(r))
  {
    hide At;
    Zoom(n, root, R, c, z, red, l, r);
    PlugMin(Under(R, c, z, red, l), r);
    ZoomOut(n, root, Under(R, c, z, red, l), r);
    ZoomOut(n, root, MinCtx(Under(R, c, z, red, l), r), Min(r));
  }

  lemma AtRemovedMin(n: Table, root: Addr, c: Ctx, l: Tree, z: Addr, red: bool, r: Tree)
    requires r.Branch?
    ensures At(n, root, MinCtx(Under(R, c, z, red, l), r), Min(r).right)
        <==> At(n, root, c, Branch(l, z, red, RemoveMin(r)))
    ensures Plug(MinCtx(Under(R, c, z, red, l), r), Min(r).right) == Plug(c, Branch(l, z, red, RemoveMin(r)))
  {
    hide At;
    PlugMin(Under(R, c, z, red, l), r);
    ZoomOut(n, root, MinCtx(Under(R, c, z, red, l), r), Min(r).right);
    ZoomOut(n, root, Under(R, c, z, red, l), RemoveMin(r));
    Zoom(n, root, R, c, z, red, l, RemoveMin(r));
  }

  /** Once spliced out, the successor of the cursor's node is nowhere in the tree. */
  lemma MinIsGone(n: Table, root: Addr, c: Ctx, t: Tree)
    requires At(n, root, c, t) && t.Branch? && t.right.Branch?
    ensures Min(t.right).addr in n && Min(t.right).addr != NULL
    ensures var y := Min(t.right).addr;
            y !in Addrs(Branch(t.left, t.addr, t.red, RemoveMin(t.right))) && y !in CtxAddrs(c)
  {
    var r := t.right;
    EmbeddedAddrs(n, t, UpOf(c));
    NullFree(t);
    MinInOrder(r);
    InOrderNoRepeats(r);
    InOrderAddrs(r);
    InOrderAddrs(RemoveMin(r));
    var y := Min(r).addr;
    assert InOrder(r)[0] == y;
    var rest := InOrder(RemoveMin(r));
    forall j | 0 <= j < |rest| ensures rest[j] != y {
      assert InOrder(r)[j + 1] == rest[j];
    }
  }

  /** The rules below the renamed node are those of the original tree. */
  lemma InnerRules(c: Ctx, l: Tree, z: Addr, red: bool, r: Tree, y: Addr)
    requires IsRedBlack(Plug(c, Branch(l, z, red, r))) && r.Branch?
    ensures Min(r).red ==> IsRedBlack(Plug(MinCtx(Under(R, c, y, red, l), r), Min(r).right))
    ensures !Min(r).red ==> Short(MinCtx(Under(R, c, y, red, l), r), Min(r).right)
  {
    RenameRedBlack(c, l, z, red, r, y);
    PlugMin(Under(R, c, y, red, l), r);
    SplicedRules(MinCtx(Under(R, c, y, red, l), r), Min(r));
  }

  /** Removing the cursor's node from the in-order sequence, whichever way the tree is relinked. */
  lemma WithoutNode(c: Ctx, t: Tree, tree: Tree, i: nat, t': Tree)
    requires t.Branch? && Plug(c, t) == tree && Distinct(tree)
    requires i < |InOrder(tree)| && InOrder(tree)[i] == t.addr
    requires InOrder(t') == InOrder(t.left) + InOrder(t.right)
    ensures InOrder(Plug(c, t')) == InOrder(tree)[..i] + InOrder(tree)[i + 1..]
  {
    hide Distinct, Plug, Before, After, InOrder;
    Position(c, t, tree, i);
    PlugInOrder(c, t);
    PlugInOrder(c, t');
    BranchInOrder(t);
    DropAt(Before(c), InOrder(t.left), t.addr, InOrder(t.right), After(c));
  }

  lemma BranchInOrder(t: Tree)
    requires t.Branch?
    ensures InOrder(t) == InOrder(t.left) + [t.addr] + InOrder(t.right)
  {
  }

  lemma OnlyChildInOrder(t: Tree)
    requires t.Branch? && (t.left.Leaf? || t.right.Leaf?)
    ensures InOrder(OnlyChild(t)) == InOrder(t.left) + InOrder(t.right)
  {
  }

  lemma SuccessorInOrder(t: Tree)
    requires t.Branch? && t.right.Branch?
    ensures InOrder(Branch(t.left, Min(t.right).addr, t.red, RemoveMin(t.right))) == InOrder(t.left) + InOrder(t.right)
  {
    MinInOrder(t.right);
  }

  lemma DropAt<T>(a: seq<T>, l: seq<T>, x: T, r: seq<T>, b: seq<T>)
    ensures var s := a + (l + [x] + r) + b; var i := |a| + |l|;
            s[..i] + s[i + 1..] == a + (l + r) + b
  {
  }

  /** After the replacement the spliced-in child still points at its parent, even if it is the dummy node. */
  lemma ReplacedUp(n: Table, n': Table, root: Addr, c: Ctx, l: Tree, z: Addr, red: bool, r: Tree, y: Addr, x: Addr)
    requires r.Branch? && x == AddrOf(Min(r).right)
    requires NULL in n && NULL in n' && (x == NULL ==> n[NULL].up == UpOf(MinCtx(Under(R, c, z, red, l), r)))
    requires n'[NULL].up == if RemoveMin(r).Leaf? then y else n[NULL].up
    requires At(n', root, MinCtx(Under(R, c, y, red, l), r), Min(r).right)
    ensures x in n' && n'[x].up == UpOf(MinCtx(Under(R, c, y, red, l), r))
  {
    MinCtxParent(Under(R, c, z, red, l), Under(R, c, y, red, l), r);
    MinCtxParent(Under(R, c, y, red, l), Under(R, c, y, red, l), r);
    Focus(n', root, MinCtx(Under(R, c, y, red, l), r), Min(r).right);
  }
}
