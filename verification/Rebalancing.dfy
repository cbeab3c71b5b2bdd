/** The cases of the two fix-up loops, each on the cursor's tree and on the table at once. */
module Rebalancing {
  import opened Addresses
  import opened RedBlack
  import opened NodeTable

  lemma SameDataPaints(n: Table, a: Addr, ra: bool, b: Addr, rb: bool, c: Addr, rc: bool)
    requires a in n && b in n && c in n
    ensures SameData(n, PaintNode(PaintNode(PaintNode(n, a, ra), b, rb), c, rc))
  {
  }

  // ---------- insertion ----------

  /** The cursor's tree is red and everything else obeys the rules: the loop invariant of insertion. */
  ghost predicate RedFocus(c: Ctx, t: Tree) {
    Red(t) && Balanced(t) && NoRedRed(t) && Fits(c, BlackHeight(t)) && CtxNoRedRed(c)
  }

  lemma MkFlip(d: Side, a: Tree, x: Addr, red: bool, b: Tree)
    ensures Mk(d, a, x, red, b) == Mk(Opp(d), b, x, red, a)
  {
  }

  /** Painting the node above the cursor. */
  lemma PaintParent(n: Table, root: Addr, d: Side, up: Ctx, a: Addr, red: bool, sib: Tree, t: Tree, red': bool)
    requires At(n, root, Under(d, up, a, red, sib), t)
    ensures a in n && At(PaintNode(n, a, red'), root, Under(d, up, a, red', sib), t)
  {
    Zoom(n, root, d, up, a, red, sib, t);
    Paint(n, root, up, Mk(d, t, a, red, sib), red');
    Zoom(PaintNode(n, a, red'), root, d, up, a, red', sib, t);
  }

  /** Painting the sibling of the cursor's tree. */
  lemma PaintSibling(n: Table, root: Addr, d: Side, up: Ctx, a: Addr, red: bool, sib: Tree, t: Tree, red': bool)
    requires At(n, root, Under(d, up, a, red, sib), t) && sib.Branch?
    ensures sib.addr in n && At(PaintNode(n, sib.addr, red'), root, Under(d, up, a, red, sib.(red := red')), t)
  {
    var n' := PaintNode(n, sib.addr, red');
    Zoom(n, root, d, up, a, red, sib, t);
    Zoom(n, root, Opp(d), up, a, red, t, sib);
    Paint(n, root, Under(Opp(d), up, a, red, t), sib, red');
    Zoom(n', root, Opp(d), up, a, red, t, sib.(red := red'));
    Zoom(n', root, d, up, a, red, sib.(red := red'), t);
  }

  /** The grandparent exists, is black, and its links tell the cursor's side and the uncle. */
  lemma Grandparent(n: Table, root: Addr, c: Ctx, t: Tree)
    requires At(n, root, c, t) && RedFocus(c, t) && RedCtx(c)
    ensures c.up.Under? && !c.up.red && c.addr in n && n[c.addr].up == c.up.addr && c.up.addr in n
    ensures Link(n[c.up.addr], c.up.side) == c.addr && Link(n[c.up.addr], Opp(c.up.side)) == AddrOf(c.up.sib)
    ensures AddrOf(c.up.sib) in n && n[AddrOf(c.up.sib)].red == Red(c.up.sib) && c.addr != AddrOf(c.up.sib)
  {
    Zoom(n, root, c.side, c.up, c.addr, c.red, c.sib, t);
    Around(n, root, c.up, Mk(c.side, t, c.addr, c.red, c.sib));
  }

  /** Red uncle: parent and uncle turn black, the grandparent red, and the problem moves up two levels. */
  lemma RedUncle(n: Table, root: Addr, d1: Side, g: Ctx, ga: Addr, u: Tree, d2: Side, p: Addr, s: Tree, t: Tree)
    returns (t': Tree)
    requires RedFocus(Under(d2, Under(d1, g, ga, false, u), p, true, s), t) && Red(u)
    requires At(n, root, Under(d2, Under(d1, g, ga, false, u), p, true, s), t)
    ensures p in n && u.addr in n && ga in n
    ensures At(PaintNode(PaintNode(PaintNode(n, p, false), u.addr, false), ga, true), root, g, t')
    ensures t'.Branch? && t'.addr == ga && RedFocus(g, t')
    ensures InOrder(Plug(g, t')) == InOrder(Plug(Under(d2, Under(d1, g, ga, false, u), p, true, s), t))
  {
    var u' := u.(red := false);
    var n1 := PaintNode(n, p, false);
    PaintParent(n, root, d2, Under(d1, g, ga, false, u), p, true, s, t, false);
    var pt := Mk(d2, t, p, false, s);
    Zoom(n1, root, d2, Under(d1, g, ga, false, u), p, false, s, t);
    PaintSibling(n1, root, d1, g, ga, false, u, pt, false);
    var n2 := PaintNode(n1, u.addr, false);
    PaintParent(n2, root, d1, g, ga, false, u', pt, true);
    var n3 := PaintNode(n2, ga, true);
    t' := Mk(d1, pt, ga, true, u');
    Zoom(n3, root, d1, g, ga, true, u', pt);
    RedUncleRules(d1, g, ga, u, d2, p, s, t);
  }

  lemma RedUncleRules(d1: Side, g: Ctx, ga: Addr, u: Tree, d2: Side, p: Addr, s: Tree, t: Tree)
    requires RedFocus(Under(d2, Under(d1, g, ga, false, u), p, true, s), t) && Red(u)
    ensures var t' := Mk(d1, Mk(d2, t, p, false, s), ga, true, u.(red := false));
            RedFocus(g, t') && InOrder(Plug(g, t'))
              == InOrder(Plug(Under(d2, Under(d1, g, ga, false, u), p, true, s), t))
  {
    var pt, u' := Mk(d2, t, p, false, s), u.(red := false);
    assert Fits(Under(d1, g, ga, false, u), BlackHeight(t)) && CtxNoRedRed(Under(d1, g, ga, false, u));
    MkRules(d2, t, p, false, s);
    MkRules(d2, t, p, true, s);
    MkRules(d1, pt, ga, true, u');
    MkRules(d1, Mk(d2, t, p, true, s), ga, false, u);
    SameInOrder(g, Mk(d1, pt, ga, true, u'), Mk(d1, Mk(d2, t, p, true, s), ga, false, u));
  }

  lemma SameInOrder(c: Ctx, t: Tree, t': Tree)
    requires InOrder(t) == InOrder(t')
    ensures InOrder(Plug(c, t)) == InOrder(Plug(c, t'))
  {
    PlugInOrder(c, t);
    PlugInOrder(c, t');
  }

  /** Black uncle, inner grandchild: a rotation at the parent makes it an outer grandchild. */
  lemma InnerGrandchild(d: Side, gc: Ctx, p: Addr, s: Tree, b: Tree, x: Addr, e: Tree)
    requires RedFocus(Under(Opp(d), gc, p, true, s), Mk(d, b, x, true, e))
    ensures RedFocus(Under(d, gc, x, true, e), Mk(d, s, p, true, b))
    ensures InOrder(Plug(Under(d, gc, x, true, e), Mk(d, s, p, true, b)))
         == InOrder(Plug(Under(Opp(d), gc, p, true, s), Mk(d, b, x, true, e)))
  {
    MkRules(d, b, x, true, e);
    MkRules(d, s, p, true, b);
    MkFlip(d, s, p, true, Mk(d, b, x, true, e));
    RotateInOrder(d, s, p, true, b, x, true, e);
    SameInOrder(gc, Mk(d, Mk(d, s, p, true, b), x, true, e), Mk(d, s, p, true, Mk(d, b, x, true, e)));
  }

  /** Black uncle, outer grandchild: repainting and a rotation at the grandparent end the loop. */
  lemma OuterGrandchild(d: Side, g: Ctx, ga: Addr, u: Tree, p: Addr, s: Tree, t: Tree)
    requires RedFocus(Under(d, Under(d, g, ga, false, u), p, true, s), t) && !Red(u)
    ensures RedFocus(Under(d, g, p, false, Mk(d, s, ga, true, u)), t)
    ensures InOrder(Plug(Under(d, g, p, false, Mk(d, s, ga, true, u)), t))
         == InOrder(Plug(Under(d, Under(d, g, ga, false, u), p, true, s), t))
  {
    assert Fits(Under(d, g, ga, false, u), BlackHeight(t)) && CtxNoRedRed(Under(d, g, ga, false, u));
    MkRules(d, s, ga, true, u);
    MkRules(d, Mk(d, t, p, true, s), ga, false, u);
    MkRules(d, t, p, false, Mk(d, s, ga, true, u));
    MkRules(d, t, p, true, s);
    if d.L? {
      Reassociate(InOrder(t), [p], InOrder(s), [ga], InOrder(u));
    } else {
      Reassociate(InOrder(u), [ga], InOrder(s), [p], InOrder(t));
    }
    SameInOrder(g, Mk(d, t, p, false, Mk(d, s, ga, true, u)), Mk(d, Mk(d, t, p, true, s), ga, false, u));
  }

  lemma PaintGrandparent(n: Table, root: Addr, d: Side, g: Ctx, ga: Addr, u: Tree, p: Addr, s: Tree, t: Tree)
    requires At(n, root, Under(d, Under(d, g, ga, false, u), p, true, s), t)
    ensures p in n && ga in n
    ensures At(PaintNode(PaintNode(n, p, false), ga, true), root, g,
               Mk(Opp(d), u, ga, true, Mk(Opp(d), s, p, false, t)))
  {
    var gc, n1 := Under(d, g, ga, false, u), PaintNode(n, p, false);
    PaintParent(n, root, d, gc, p, true, s, t, false);
    Zoom(n1, root, d, gc, p, false, s, t);
    PaintParent(n1, root, d, g, ga, false, u, Mk(d, t, p, false, s), true);
    Zoom(PaintNode(n1, ga, true), root, d, g, ga, true, u, Mk(d, t, p, false, s));
    MkFlip(d, t, p, false, s);
    MkFlip(d, Mk(d, t, p, false, s), ga, true, u);
  }

  lemma RotatedGrandparent(n: Table, root: Addr, d: Side, g: Ctx, ga: Addr, u: Tree, p: Addr, s: Tree, t: Tree)
    requires At(n, root, g, Mk(Opp(d), Mk(Opp(d), u, ga, true, s), p, false, t))
    ensures At(n, root, Under(d, g, p, false, Mk(d, s, ga, true, u)), t)
  {
    MkFlip(d, t, p, false, Mk(d, s, ga, true, u));
    MkFlip(d, s, ga, true, u);
    Zoom(n, root, d, g, p, false, Mk(d, s, ga, true, u), t);
  }

  /** When the loop stops, the cursor's tree is the root or hangs below a black node; the root is painted black. */
  lemma RedFocusDone(n: Table, root: Addr, c: Ctx, t: Tree) returns (tree': Tree)
    requires At(n, root, c, t) && RedFocus(c, t) && !RedCtx(c)
    ensures root in n && At(PaintNode(n, root, false), root, Top, tree') && IsRedBlack(tree')
    ensures InOrder(tree') == InOrder(Plug(c, t))
  {
    var whole := Plug(c, t);
    ZoomOut(n, root, c, t);
    PlugAddrs(c, t);
    Paint(n, root, Top, whole, false);
    tree' := whole.(red := false);
    if c.Top? {
      RedBlackPlug(Top, tree');
    } else {
      RedBlackPlug(c, t);
    }
  }

  // ---------- deletion ----------

  function Blacken(t: Tree): Tree {
    if t.Leaf? then t else t.(red := false)
  }

  /** The cursor's tree is one black node short: the loop invariant of deletion. */
  ghost predicate Short(c: Ctx, t: Tree) {
    Balanced(t) && NoRedRed(Blacken(t)) && Fits(c, BlackHeight(t) + 1) && CtxNoRedRed(c)
  }

  /** At the end of the loop the cursor's tree is red, or the whole tree: painting it black restores the rules. */
  lemma ShortDone(c: Ctx, t: Tree)
    requires Short(c, t) && (c.Top? || Red(t))
    ensures IsRedBlack(Plug(c, Blacken(t)))
    ensures InOrder(Plug(c, Blacken(t))) == InOrder(Plug(c, t))
  {
    SameInOrder(c, t, Blacken(t));
    RedBlackPlug(c, Blacken(t));
  }

  /** The sibling of a short tree is a real node. */
  lemma SiblingExists(c: Ctx, t: Tree)
    requires Short(c, t) && c.Under?
    ensures c.sib.Branch? && (c.sib.red ==> c.sib.left.Branch? && c.sib.right.Branch?)
  {
  }

  /** Case 1, red sibling: a rotation at the parent gives the short tree a black sibling. */
  lemma RedSibling(d: Side, up: Ctx, a: Addr, ra: bool, wn: Tree, w: Addr, wf: Tree, t: Tree)
    requires Short(Under(d, up, a, ra, Mk(d, wn, w, true, wf)), t)
    ensures Short(Under(d, Under(d, up, w, false, wf), a, true, wn), t) && wn.Branch? && !wn.red && !ra
    ensures InOrder(Plug(Under(d, Under(d, up, w, false, wf), a, true, wn), t))
         == InOrder(Plug(Under(d, up, a, ra, Mk(d, wn, w, true, wf)), t))
  {
    MkRules(d, wn, w, true, wf);
    RotateInOrder(d, t, a, ra, wn, w, true, wf);
    RotatedColours(d, t, a, ra, wn, w, true, wf, true, false);
    SameInOrder(up, Mk(d, Mk(d, t, a, true, wn), w, false, wf), Mk(d, t, a, ra, Mk(d, wn, w, true, wf)));
    assert Fits(Under(d, up, w, false, wf), BlackHeight(t) + 1);
    assert CtxNoRedRed(Under(d, up, w, false, wf));
  }

  lemma RotatedColours(d: Side, a: Tree, x: Addr, rx: bool, b: Tree, y: Addr, ry: bool, e: Tree, rx': bool, ry': bool)
    ensures InOrder(Mk(d, Mk(d, a, x, rx', b), y, ry', e)) == InOrder(Mk(d, a, x, rx, Mk(d, b, y, ry, e)))
  {
    RotateInOrder(d, a, x, rx, b, y, ry, e);
    MkRules(d, a, x, rx, b);
    MkRules(d, a, x, rx', b);
    MkRules(d, Mk(d, a, x, rx, b), y, ry, e);
    MkRules(d, Mk(d, a, x, rx', b), y, ry', e);
  }

  /** Case 2, black sibling with black children: the sibling turns red and the shortage moves up. */
  lemma BlackNephews(d: Side, up: Ctx, a: Addr, ra: bool, wn: Tree, w: Addr, wf: Tree, t: Tree)
    requires Short(Under(d, up, a, ra, Mk(d, wn, w, false, wf)), t) && !Red(t) && !Red(wn) && !Red(wf)
    ensures Short(up, Mk(d, t, a, ra, Mk(d, wn, w, true, wf)))
    ensures InOrder(Plug(up, Mk(d, t, a, ra, Mk(d, wn, w, true, wf))))
         == InOrder(Plug(Under(d, up, a, ra, Mk(d, wn, w, false, wf)), t))
  {
    MkRules(d, wn, w, true, wf);
    MkRules(d, wn, w, false, wf);
    MkRules(d, t, a, ra, Mk(d, wn, w, true, wf));
    MkRules(d, t, a, false, Mk(d, wn, w, true, wf));
    MkRules(d, t, a, ra, Mk(d, wn, w, false, wf));
    SameInOrder(up, Mk(d, t, a, ra, Mk(d, wn, w, true, wf)), Mk(d, t, a, ra, Mk(d, wn, w, false, wf)));
  }

  /** Case 3, red near nephew only: a rotation at the sibling makes the far nephew red. */
  lemma RedNearNephew(d: Side, up: Ctx, a: Addr, ra: bool, p: Tree, v: Addr, q: Tree, w: Addr, wf: Tree, t: Tree)
    requires Short(Under(d, up, a, ra, Mk(d, Mk(d, p, v, true, q), w, false, wf)), t) && !Red(wf)
    ensures Short(Under(d, up, a, ra, Mk(d, p, v, false, Mk(d, q, w, true, wf))), t)
    ensures InOrder(Plug(Under(d, up, a, ra, Mk(d, p, v, false, Mk(d, q, w, true, wf))), t))
         == InOrder(Plug(Under(d, up, a, ra, Mk(d, Mk(d, p, v, true, q), w, false, wf)), t))
  {
    var s0, s1 := Mk(d, Mk(d, p, v, true, q), w, false, wf), Mk(d, p, v, false, Mk(d, q, w, true, wf));
    MkRules(d, p, v, true, q);
    MkRules(d, Mk(d, p, v, true, q), w, false, wf);
    MkRules(d, q, w, true, wf);
    MkRules(d, p, v, false, Mk(d, q, w, true, wf));
    if d.L? {
      Reassociate(InOrder(p), [v], InOrder(q), [w], InOrder(wf));
    } else {
      Reassociate(InOrder(wf), [w], InOrder(q), [v], InOrder(p));
    }
    MkRules(d, t, a, ra, s0);
    MkRules(d, t, a, ra, s1);
    SameInOrder(up, Mk(d, t, a, ra, s1), Mk(d, t, a, ra, s0));
  }

  /** Case 4, red far nephew: repainting and a rotation at the parent end the shortage. */
  lemma RedFarNephew(d: Side, up: Ctx, a: Addr, ra: bool, wn: Tree, w: Addr, wf: Tree, t: Tree)
    requires Short(Under(d, up, a, ra, Mk(d, wn, w, false, wf)), t) && !Red(t) && Red(wf)
    ensures IsRedBlack(Plug(up, Mk(d, Mk(d, t, a, false, wn), w, ra, wf.(red := false))))
    ensures InOrder(Plug(up, Mk(d, Mk(d, t, a, false, wn), w, ra, wf.(red := false))))
         == InOrder(Plug(Under(d, up, a, ra, Mk(d, wn, w, false, wf)), t))
  {
    var wf' := wf.(red := false);
    var t' := Mk(d, Mk(d, t, a, false, wn), w, ra, wf');
    MkRules(d, wn, w, false, wf);
    MkRules(d, t, a, false, wn);
    MkRules(d, Mk(d, t, a, false, wn), w, ra, wf');
    MkRules(d, Mk(d, t, a, false, wn), w, ra, wf);
    RotatedColours(d, t, a, ra, wn, w, false, wf, false, ra);
    SameInOrder(up, t', Mk(d, t, a, ra, Mk(d, wn, w, false, wf)));
    RedBlackPlug(up, t');
  }

  // ---------- the writes of the deletion cases ----------

  /** The loop invariant of deletion.  The cursor may stand on the dummy node, whose parent link then counts. */
  ghost predicate ShortAt(n: Table, root: Addr, c: Ctx, t: Tree, x: Addr) {
    && At(n, root, c, t) && Short(c, t)
    && x == AddrOf(t) && NULL in n && x in n && n[x].up == UpOf(c)
  }

  lemma {:induction false} PlugBranch(c: Ctx, t: Tree)
    requires t.Branch?
    ensures Plug(c, t).Branch?
    decreases c
  {
    if c.Under? { PlugBranch(c.up, Mk(c.side, t, c.addr, c.red, c.sib)); }
  }

  lemma WholeTree(n: Table, root: Addr, t: Tree)
    requires At(n, root, Top, t) && IsRedBlack(t) && t.Branch?
    ensures ShortAt(n, root, Top, t, root) && Plug(Top, t) == t
  {
  }

  lemma Focus(n: Table, root: Addr, c: Ctx, t: Tree)
    requires At(n, root, c, t)
    ensures NULL in n && AddrOf(t) in n && n[AddrOf(t)].red == Red(t)
  {
  }

  lemma UpOfFocus(n: Table, root: Addr, c: Ctx, t: Tree)
    requires At(n, root, c, t)
    ensures NULL in n && AddrOf(t) in n && (t.Branch? ==> n[t.addr].up == UpOf(c))
  {
  }

  lemma ShortFocusDone(n: Table, root: Addr, c: Ctx, t: Tree) returns (tree': Tree)
    requires At(n, root, c, t) && Short(c, t) && (c.Top? || Red(t))
    ensures AddrOf(t) in n && At(PaintNode(n, AddrOf(t), false), root, Top, tree') && IsRedBlack(tree')
    ensures InOrder(tree') == InOrder(Plug(c, t))
  {
    var n' := PaintNode(n, AddrOf(t), false);
    tree' := Plug(c, Blacken(t));
    if t.Branch? {
      Paint(n, root, c, t, false);
    } else {
      assert n' == n;
    }
    ZoomOut(n', root, c, Blacken(t));
    ShortDone(c, t);
  }

  lemma PaintRedSibling(n: Table, root: Addr, d: Side, up: Ctx, a: Addr, ra: bool, wn: Tree, w: Addr, wf: Tree, t: Tree)
    requires At(n, root, Under(d, up, a, ra, Mk(d, wn, w, true, wf)), t)
    ensures w in n && a in n
    ensures At(PaintNode(PaintNode(n, w, false), a, true), root, up, Mk(d, t, a, true, Mk(d, wn, w, false, wf)))
  {
    var n1 := PaintNode(n, w, false);
    PaintSibling(n, root, d, up, a, ra, Mk(d, wn, w, true, wf), t, false);
    PaintParent(n1, root, d, up, a, ra, Mk(d, wn, w, false, wf), t, true);
    Zoom(PaintNode(n1, a, true), root, d, up, a, true, Mk(d, wn, w, false, wf), t);
  }

  lemma PaintBlackSibling(n: Table, root: Addr, d: Side, up: Ctx, a: Addr, ra: bool, wn: Tree, w: Addr, wf: Tree,
                          t: Tree)
    requires At(n, root, Under(d, up, a, ra, Mk(d, wn, w, false, wf)), t)
    ensures w in n && At(PaintNode(n, w, true), root, up, Mk(d, t, a, ra, Mk(d, wn, w, true, wf)))
  {
    PaintSibling(n, root, d, up, a, ra, Mk(d, wn, w, false, wf), t, true);
    Zoom(PaintNode(n, w, true), root, d, up, a, ra, Mk(d, wn, w, true, wf), t);
  }

  lemma PaintNearNephew(n: Table, root: Addr, d: Side, up: Ctx, a: Addr, ra: bool, p: Tree, v: Addr, q: Tree, w: Addr,
                        wf: Tree, t: Tree)
    requires At(n, root, Under(d, up, a, ra, Mk(d, Mk(d, p, v, true, q), w, false, wf)), t)
    ensures w in n && v in n
    ensures At(PaintNode(PaintNode(n, v, false), w, true), root, Under(Opp(d), up, a, ra, t),
               Mk(Opp(d), wf, w, true, Mk(Opp(d), q, v, false, p)))
  {
    hide At, PaintNode;
    var c := Under(Opp(d), up, a, ra, t);
    Zoom(n, root, d, up, a, ra, Mk(d, Mk(d, p, v, true, q), w, false, wf), t);
    Zoom(n, root, Opp(d), up, a, ra, t, Mk(d, Mk(d, p, v, true, q), w, false, wf));
    Zoom(n, root, d, c, w, false, wf, Mk(d, p, v, true, q));
    Paint(n, root, Under(d, c, w, false, wf), Mk(d, p, v, true, q), false);
    var n1 := PaintNode(n, v, false);
    PaintParent(n1, root, d, c, w, false, wf, Mk(d, p, v, false, q), true);
    Zoom(PaintNode(n1, w, true), root, d, c, w, true, wf, Mk(d, p, v, false, q));
    MkFlip(d, p, v, false, q);
    MkFlip(d, Mk(d, p, v, false, q), w, true, wf);
  }

  lemma RotatedNearNephew(n: Table, root: Addr, d: Side, up: Ctx, a: Addr, ra: bool, p: Tree, v: Addr, q: Tree,
                          w: Addr, wf: Tree, t: Tree)
    requires At(n, root, Under(Opp(d), up, a, ra, t), Mk(Opp(d), Mk(Opp(d), wf, w, true, q), v, false, p))
    ensures At(n, root, Under(d, up, a, ra, Mk(d, p, v, false, Mk(d, q, w, true, wf))), t)
  {
    var s := Mk(d, p, v, false, Mk(d, q, w, true, wf));
    MkFlip(d, q, w, true, wf);
    MkFlip(d, p, v, false, Mk(d, q, w, true, wf));
    Zoom(n, root, Opp(d), up, a, ra, t, s);
    MkFlip(d, t, a, ra, s);
    Zoom(n, root, d, up, a, ra, s, t);
  }

  lemma PaintFarNephew(n: Table, root: Addr, d: Side, up: Ctx, a: Addr, ra: bool, wn: Tree, w: Addr, wf: Tree, t: Tree)
    requires At(n, root, Under(d, up, a, ra, Mk(d, wn, w, false, wf)), t) && wf.Branch?
    ensures w in n && a in n && wf.addr in n
    ensures At(PaintNode(PaintNode(PaintNode(n, w, ra), a, false), wf.addr, false), root, up,
               Mk(d, t, a, false, Mk(d, wn, w, ra, wf.(red := false))))
  {
    hide At, PaintNode;
    var c := Under(Opp(d), up, a, false, t);
    PaintSibling(n, root, d, up, a, ra, Mk(d, wn, w, false, wf), t, ra);
    var n1 := PaintNode(n, w, ra);
    PaintParent(n1, root, d, up, a, ra, Mk(d, wn, w, ra, wf), t, false);
    var n2 := PaintNode(n1, a, false);
    Zoom(n2, root, d, up, a, false, Mk(d, wn, w, ra, wf), t);
    MkFlip(d, t, a, false, Mk(d, wn, w, ra, wf));
    Zoom(n2, root, Opp(d), up, a, false, t, Mk(d, wn, w, ra, wf));
    MkFlip(d, wn, w, ra, wf);
    Zoom(n2, root, Opp(d), c, w, ra, wn, wf);
    Paint(n2, root, Under(Opp(d), c, w, ra, wn), wf, false);
    var n3 := PaintNode(n2, wf.addr, false);
    Zoom(n3, root, Opp(d), c, w, ra, wn, wf.(red := false));
    MkFlip(d, wn, w, ra, wf.(red := false));
    Zoom(n3, root, Opp(d), up, a, false, t, Mk(d, wn, w, ra, wf.(red := false)));
    MkFlip(d, t, a, false, Mk(d, wn, w, ra, wf.(red := false)));
  }

  /** The links and colours at the sibling of the cursor's tree. */
  lemma Nephews(n: Table, root: Addr, c: Ctx, t: Tree)
    requires At(n, root, c, t) && c.Under? && c.sib.Branch?
    ensures c.sib.addr in n && n[c.sib.addr].left == AddrOf(c.sib.left) && n[c.sib.addr].right == AddrOf(c.sib.right)
    ensures AddrOf(c.sib.left) in n && n[AddrOf(c.sib.left)].red == Red(c.sib.left)
    ensures AddrOf(c.sib.right) in n && n[AddrOf(c.sib.right)].red == Red(c.sib.right)
    ensures c.sib.addr != NULL && c.addr != NULL
  {
    assert Embeds(n, c.sib, c.addr);
    assert Embeds(n, c.sib.left, c.sib.addr) && Embeds(n, c.sib.right, c.sib.addr);
  }
}
