/** How a node table holds a tree: child links, parent links and colours agree with the shape.

    `At(n, root, c, t)` says that the table holds the tree `Plug(c, t)` below `root`, seen from the cursor
    that stands on `t`.  Moving the cursor is `Zoom`; the remaining lemmas say what a few field writes at
    known addresses do to the shape. */
module NodeTable {
  import opened Addresses
  import opened Keys
  import opened RedBlack

  type KeyFlags = bv8

  datatype MemNode = MemNode(
    up: Addr, left: Addr, right: Addr, vptr: Addr, key: Key, red: bool, flags: KeyFlags)

  /** The node table has an entry for `NULL` too: the dummy node that stands for a missing child. */
  type Table = map<Addr, MemNode>

  function Link(n: MemNode, d: Side): Addr {
    if d.L? then n.left else n.right
  }

  function SetLink(n: MemNode, d: Side, a: Addr): MemNode {
    if d.L? then n.(left := a) else n.(right := a)
  }

  ghost predicate Embeds(n: Table, t: Tree, up: Addr) {
    match t
    case Leaf => true
    case Branch(l, a, red, r) =>
      && a in n && n[a].up == up && n[a].red == red
      && n[a].left == AddrOf(l) && n[a].right == AddrOf(r)
      && Embeds(n, l, a)
      && Embeds(n, r, a)
  }

  ghost predicate CtxEmbeds(n: Table, c: Ctx, root: Addr, hole: Addr) {
    match c
    case Top => root == hole
    case Under(d, up, a, red, sib) =>
      && a in n && n[a].red == red && n[a].up == UpOf(up)
      && Link(n[a], d) == hole && Link(n[a], Opp(d)) == AddrOf(sib)
      && Embeds(n, sib, a)
      && CtxEmbeds(n, up, root, a)
  }

  /** The dummy node: black, childless and valueless.  Its parent link is scratch space. */
  ghost predicate DummyOk(n: Table) {
    NULL in n && n[NULL].left == NULL && n[NULL].right == NULL && n[NULL].vptr == NULL && !n[NULL].red
  }

  ghost predicate At(n: Table, root: Addr, c: Ctx, t: Tree) {
    && DummyOk(n)
    && Separate(c, t)
    && CtxEmbeds(n, c, root, AddrOf(t))
    && Embeds(n, t, UpOf(c))
  }

  // ---------- what the fix-up loops leave alone ----------

  /** Nothing but links and colours differs, and no node appears or disappears. */
  ghost predicate SameData(n: Table, n': Table) {
    && n.Keys == n'.Keys
    && forall a | a in n :: n'[a].key == n[a].key && n'[a].vptr == n[a].vptr && n'[a].flags == n[a].flags
  }

  lemma SameKeys(n: Table, n': Table)
    requires SameData(n, n')
    ensures n'.Keys == n.Keys && forall a | a in n :: n'[a].key == n[a].key && n'[a].flags == n[a].flags
  {
  }

  lemma SameDataReflexive(n: Table)
    ensures SameData(n, n)
  {
  }

  lemma SameDataTransitive(n: Table, n': Table, n'': Table)
    requires SameData(n, n') && SameData(n', n'')
    ensures SameData(n, n'')
  {
  }

  ghost predicate SameShape(n: Table, n': Table, s: set<Addr>) {
    forall a | a in s :: a in n && a in n' &&
      n'[a].up == n[a].up && n'[a].left == n[a].left && n'[a].right == n[a].right && n'[a].red == n[a].red
  }

  // ---------- moving the cursor ----------

  lemma Zoom(n: Table, root: Addr, d: Side, up: Ctx, a: Addr, red: bool, sib: Tree, t: Tree)
    ensures At(n, root, Under(d, up, a, red, sib), t) <==> At(n, root, up, Mk(d, t, a, red, sib))
  {
    MkDistinct(d, t, a, red, sib);
  }

  lemma {:induction false} ZoomOut(n: Table, root: Addr, c: Ctx, t: Tree)
    ensures At(n, root, c, t) <==> At(n, root, Top, Plug(c, t))
    decreases c
  {
    match c
    case Top =>
    case Under(d, up, a, red, sib) =>
      Zoom(n, root, d, up, a, red, sib, t);
      ZoomOut(n, root, up, Mk(d, t, a, red, sib));
  }

  /** Each address of the tree has a cursor that stands on it. */
  lemma {:induction false} Find(n: Table, root: Addr, c: Ctx, t: Tree, a: Addr) returns (c': Ctx, t': Tree)
    requires At(n, root, c, t) && a in Addrs(t)
    ensures At(n, root, c', t') && t'.Branch? && t'.addr == a
    ensures Plug(c', t') == Plug(c, t)
    decreases t
  {
    if t.addr == a {
      c', t' := c, t;
    } else if a in Addrs(t.left) {
      Zoom(n, root, L, c, t.addr, t.red, t.right, t.left);
      c', t' := Find(n, root, Under(L, c, t.addr, t.red, t.right), t.left, a);
    } else {
      Zoom(n, root, R, c, t.addr, t.red, t.left, t.right);
      c', t' := Find(n, root, Under(R, c, t.addr, t.red, t.left), t.right, a);
    }
  }

  lemma {:induction false} EmbeddedAddrs(n: Table, t: Tree, up: Addr)
    requires Embeds(n, t, up)
    ensures Addrs(t) <= n.Keys
  {
    match t
    case Leaf =>
    case Branch(l, a, _, r) =>
      EmbeddedAddrs(n, l, a);
      EmbeddedAddrs(n, r, a);
  }

  /** The root is null exactly when the tree is empty, and stands above the cursor unless the cursor is on it. */
  lemma {:induction false} RootIsAbove(n: Table, c: Ctx, root: Addr, hole: Addr)
    requires CtxEmbeds(n, c, root, hole)
    ensures if c.Top? then root == hole else root in CtxAddrs(c)
  {
    match c
    case Top =>
    case Under(_, up, a, _, _) => RootIsAbove(n, up, root, a);
  }

  lemma RootIsAboveCursor(n: Table, root: Addr, c: Ctx, t: Tree)
    requires At(n, root, c, t)
    ensures c.Top? <==> root == AddrOf(t)
  {
    RootIsAbove(n, c, root, AddrOf(t));
    if c.Under? { Around(n, root, c, t); }
  }

  /** What the links and colours around the cursor say about the shape. */
  lemma Around(n: Table, root: Addr, c: Ctx, t: Tree)
    requires At(n, root, c, t) && c.Under?
    ensures c.addr in n && c.addr != NULL && n[c.addr].red == c.red && n[c.addr].up == UpOf(c.up)
    ensures Link(n[c.addr], c.side) == AddrOf(t) && Link(n[c.addr], Opp(c.side)) == AddrOf(c.sib)
    ensures AddrOf(t) in n && n[AddrOf(t)].red == Red(t) && (t.Branch? ==> n[t.addr].up == c.addr)
    ensures AddrOf(c.sib) in n && n[AddrOf(c.sib)].red == Red(c.sib)
    ensures t.Branch? || c.sib.Branch? ==> AddrOf(t) != AddrOf(c.sib)
    ensures root != AddrOf(t)
  {
    RootIsAbove(n, c, root, AddrOf(t));
    CtxNullFree(c);
    NullFree(t);
    NullFree(c.sib);
    if t.Branch? { assert t.addr in Addrs(t); }
    if c.sib.Branch? { assert c.sib.addr in Addrs(c.sib); }
  }

  // ---------- framing ----------

  lemma {:induction false} Frame(n: Table, n': Table, t: Tree, up: Addr)
    requires Embeds(n, t, up) && SameShape(n, n', Addrs(t))
    ensures Embeds(n', t, up)
  {
    match t
    case Leaf =>
    case Branch(l, a, _, r) =>
      Frame(n, n', l, a);
      Frame(n, n', r, a);
  }

  lemma {:induction false} CtxFrame(n: Table, n': Table, c: Ctx, root: Addr, hole: Addr)
    requires CtxEmbeds(n, c, root, hole) && SameShape(n, n', CtxAddrs(c))
    ensures CtxEmbeds(n', c, root, hole)
  {
    match c
    case Top =>
    case Under(d, up, a, _, sib) =>
      Frame(n, n', sib, a);
      CtxFrame(n, n', up, root, a);
  }

  lemma AtFrame(n: Table, n': Table, root: Addr, c: Ctx, t: Tree)
    requires At(n, root, c, t) && SameShape(n, n', Addrs(t) + CtxAddrs(c)) && DummyOk(n')
    ensures At(n', root, c, t)
  {
    Frame(n, n', t, UpOf(c));
    CtxFrame(n, n', c, root, AddrOf(t));
  }

  /** Hanging a subtree below another parent writes only its topmost node. */
  lemma Rehang(n: Table, n': Table, t: Tree, up: Addr, up': Addr)
    requires Embeds(n, t, up) && Distinct(t)
    requires SameShape(n, n', Addrs(t) - {AddrOf(t)})
    requires t.Branch? ==> t.addr in n' && n'[t.addr] == n[t.addr].(up := up')
    ensures Embeds(n', t, up')
  {
    if t.Branch? {
      Frame(n, n', t.left, t.addr);
      Frame(n, n', t.right, t.addr);
    }
  }

  /** Hanging another node into the hole writes only the parent's link, or the root if there is no parent. */
  ghost predicate Relinked(n: Table, n': Table, root: Addr, root': Addr, c: Ctx, hole: Addr) {
    if c.Top? then root' == hole
    else root' == root && c.addr in n && c.addr in n' && n'[c.addr] == SetLink(n[c.addr], c.side, hole)
  }

  lemma CtxRelink(n: Table, n': Table, root: Addr, root': Addr, c: Ctx, hole: Addr, hole': Addr)
    requires CtxEmbeds(n, c, root, hole) && CtxDistinct(c)
    requires SameShape(n, n', CtxAddrs(c) - {UpOf(c)})
    requires Relinked(n, n', root, root', c, hole')
    ensures CtxEmbeds(n', c, root', hole')
  {
    if c.Under? {
      Frame(n, n', c.sib, c.addr);
      CtxFrame(n, n', c.up, root, c.addr);
    }
  }

  // ---------- rotation ----------

  // Rotation towards side `d`: `x` goes down on that side and its child `y` on the other side comes up.
  // Before it the cursor's tree is Mk(d, a, x, rx, Mk(d, b, y, ry, e)), afterwards Mk(d, Mk(d, a, x, rx, b), y, ry, e).

  lemma RotateInOrder(d: Side, a: Tree, x: Addr, rx: bool, b: Tree, y: Addr, ry: bool, e: Tree)
    ensures InOrder(Mk(d, Mk(d, a, x, rx, b), y, ry, e)) == InOrder(Mk(d, a, x, rx, Mk(d, b, y, ry, e)))
  {
    match d
    case L => Regroup([], InOrder(a), [x], InOrder(b), [y] + InOrder(e));
              Reassociate(InOrder(a), [x], InOrder(b), [y], InOrder(e));
    case R => Reassociate(InOrder(e), [y], InOrder(b), [x], InOrder(a));
  }

  lemma Reassociate<T>(a: seq<T>, x: seq<T>, b: seq<T>, y: seq<T>, e: seq<T>)
    ensures a + x + (b + y + e) == (a + x + b) + y + e
  {
  }

  lemma RotateDistinct(d: Side, a: Tree, x: Addr, rx: bool, b: Tree, y: Addr, ry: bool, e: Tree)
    requires Distinct(Mk(d, a, x, rx, Mk(d, b, y, ry, e)))
    ensures Distinct(Mk(d, Mk(d, a, x, rx, b), y, ry, e))
    ensures Addrs(Mk(d, Mk(d, a, x, rx, b), y, ry, e)) == Addrs(Mk(d, a, x, rx, Mk(d, b, y, ry, e)))
  {
    var f, g := Mk(d, b, y, ry, e), Mk(d, a, x, rx, b);
    MkDistinct(d, a, x, rx, f);
    MkDistinct(d, b, y, ry, e);
    MkDistinct(d, a, x, rx, b);
    MkDistinct(d, g, y, ry, e);
  }

  lemma MkDistinct(d: Side, a: Tree, x: Addr, rx: bool, f: Tree)
    ensures Distinct(Mk(d, a, x, rx, f)) <==>
            Distinct(a) && Distinct(f) && x != NULL && x !in Addrs(a) && x !in Addrs(f) && Addrs(a) !! Addrs(f)
    ensures Addrs(Mk(d, a, x, rx, f)) == Addrs(a) + {x} + Addrs(f)
  {
    match d case L => case R =>
  }

  lemma Open(n: Table, d: Side, a: Tree, x: Addr, rx: bool, f: Tree, up: Addr)
    requires Embeds(n, Mk(d, a, x, rx, f), up) && Distinct(Mk(d, a, x, rx, f))
    ensures x in n && n[x].up == up && n[x].red == rx && Link(n[x], d) == AddrOf(a) && Link(n[x], Opp(d)) == AddrOf(f)
    ensures Embeds(n, a, x) && Embeds(n, f, x) && Distinct(a) && Distinct(f)
    ensures x != NULL && x !in Addrs(a) && x !in Addrs(f) && Addrs(a) !! Addrs(f)
    ensures Addrs(Mk(d, a, x, rx, f)) == Addrs(a) + {x} + Addrs(f)
    ensures Addrs(Mk(d, a, x, rx, f)) <= n.Keys && NULL !in Addrs(Mk(d, a, x, rx, f))
    ensures a.Branch? ==> a.addr in Addrs(a)
  {
    MkDistinct(d, a, x, rx, f);
    EmbeddedAddrs(n, Mk(d, a, x, rx, f), up);
    NullFree(Mk(d, a, x, rx, f));
  }

  /** The writes of a rotation: two links at `x`, two at `y`, one at the inner subtree `b`, one at the parent. */
  ghost predicate Rotated(n: Table, n': Table, root: Addr, root': Addr, d: Side, c: Ctx, x: Addr, y: Addr, b: Addr) {
    && x in n && y in n && b in n && NULL in n && UpOf(c) in n && n'.Keys == n.Keys
    && (forall a | a in n && a != x && a != y && a != b && a != UpOf(c) :: n'[a] == n[a])
    && n'[x] == SetLink(n[x], Opp(d), b).(up := y)
    && n'[y] == SetLink(n[y], d, x).(up := UpOf(c))
    && n'[b] == (if b == NULL then n[b] else n[b].(up := x))
    && Relinked(n, n', root, root', c, y)
    && n'[NULL] == n[NULL]
  }

  lemma RotatePieces(n: Table, n': Table, d: Side, a: Tree, x: Addr, rx: bool, b: Tree, y: Addr, ry: bool, e: Tree,
                     up: Addr)
    requires Embeds(n, a, x) && Embeds(n, b, y) && Embeds(n, e, y) && Distinct(b)
    requires SameShape(n, n', Addrs(a) + Addrs(e) + (Addrs(b) - {AddrOf(b)}))
    requires x in n' && n'[x].up == y && n'[x].red == rx
    requires Link(n'[x], d) == AddrOf(a) && Link(n'[x], Opp(d)) == AddrOf(b)
    requires y in n' && n'[y].up == up && n'[y].red == ry
    requires Link(n'[y], d) == x && Link(n'[y], Opp(d)) == AddrOf(e)
    requires b.Branch? ==> b.addr in n' && n'[b.addr] == n[b.addr].(up := x)
    ensures Embeds(n', Mk(d, Mk(d, a, x, rx, b), y, ry, e), up)
  {
    Frame(n, n', a, x);
    Frame(n, n', e, y);
    Rehang(n, n', b, y, x);
    assert Embeds(n', Mk(d, a, x, rx, b), y);
  }

  /** What a rotation at `x` relies on: the nodes it writes exist and differ, and the parent's link is `x`. */
  ghost predicate CanRotate(n: Table, root: Addr, d: Side, c: Ctx, x: Addr) {
    && x in n && NULL in n && x != NULL && n[x].up == UpOf(c) && UpOf(c) in n && UpOf(c) != x
    && (if c.Top? then root == x
        else UpOf(c) != NULL && Link(n[UpOf(c)], c.side) == x && Link(n[UpOf(c)], Opp(c.side)) != x)
    && var y := Link(n[x], Opp(d));
    && y in n && y != NULL && y != x && y != UpOf(c)
    && var b := Link(n[y], d);
    && b in n && b != x && b != y && (b != NULL ==> b != UpOf(c))
  }

  lemma RotationFootprint(n: Table, root: Addr, d: Side, c: Ctx,
                          a: Tree, x: Addr, rx: bool, b: Tree, y: Addr, ry: bool, e: Tree)
    requires At(n, root, c, Mk(d, a, x, rx, Mk(d, b, y, ry, e)))
    ensures CanRotate(n, root, d, c, x) && Link(n[x], Opp(d)) == y && Link(n[y], d) == AddrOf(b)
  {
    Open(n, d, a, x, rx, Mk(d, b, y, ry, e), UpOf(c));
    Open(n, d, b, y, ry, e, x);
    CtxEmbeddedAddrs(n, c, root, x);
    if c.Under? && c.sib.Branch? { assert c.sib.addr in CtxAddrs(c); }
    assert c.Under? ==> UpOf(c) in CtxAddrs(c);
  }

  lemma RotateFrames(n: Table, n': Table, root: Addr, root': Addr, d: Side, c: Ctx, x: Addr, y: Addr, b: Addr,
                     sa: set<Addr>, sb: set<Addr>, se: set<Addr>, sc: set<Addr>)
    requires Rotated(n, n', root, root', d, c, x, y, b)
    requires sa + sb + se + sc <= n.Keys
    requires x !in sa && x !in sb && x !in se && x !in sc && y !in sa && y !in sb && y !in se && y !in sc
    requires sa !! sb && sa !! se && sb !! se && sc !! sa && sc !! sb && sc !! se
    requires NULL !in sa && NULL !in sb && NULL !in se && NULL !in sc
    requires b == NULL || b in sb
    requires c.Under? ==> UpOf(c) in sc
    ensures SameShape(n, n', sa + se + (sb - {b})) && SameShape(n, n', sc - {UpOf(c)})
  {
  }

  /** The source's writes, one by one. */
  lemma RotateWrites(n: Table, root: Addr, d: Side, c: Ctx, x: Addr, n': Table, root': Addr)
    requires CanRotate(n, root, d, c, x)
    requires var y := Link(n[x], Opp(d));
             var b := Link(n[y], d);
             var n1 := n[x := SetLink(n[x], Opp(d), b)];
             var n2 := if b == NULL then n1 else n1[b := n1[b].(up := x)];
             var n3 := n2[y := n2[y].(up := n2[x].up)];
             var n4 := if UpOf(c) == NULL then n3 else n3[UpOf(c) := SetLink(n3[UpOf(c)], c.side, y)];
             var n5 := n4[y := SetLink(n4[y], d, x)];
             n' == n5[x := n5[x].(up := y)]
    requires root' == if UpOf(c) == NULL then Link(n[x], Opp(d)) else root
    ensures Rotated(n, n', root, root', d, c, x, Link(n[x], Opp(d)), Link(n[Link(n[x], Opp(d))], d))
  {
  }

  lemma RotateLinks(n: Table, n': Table, root: Addr, root': Addr, d: Side, c: Ctx, x: Addr, y: Addr, b: Addr)
    requires Rotated(n, n', root, root', d, c, x, y, b)
    ensures n'[x].up == y && n'[x].red == n[x].red && Link(n'[x], d) == Link(n[x], d) && Link(n'[x], Opp(d)) == b
    ensures n'[y].up == UpOf(c) && n'[y].red == n[y].red && Link(n'[y], d) == x
        && Link(n'[y], Opp(d)) == Link(n[y], Opp(d))
  {
    match d case L => case R =>
  }

  lemma RotateAt(n: Table, n': Table, root: Addr, root': Addr, d: Side, c: Ctx,
                 a: Tree, x: Addr, rx: bool, b: Tree, y: Addr, ry: bool, e: Tree)
    requires At(n, root, c, Mk(d, a, x, rx, Mk(d, b, y, ry, e)))
    requires Rotated(n, n', root, root', d, c, x, y, AddrOf(b))
    ensures At(n', root', c, Mk(d, Mk(d, a, x, rx, b), y, ry, e))
  {
    hide Embeds, CtxEmbeds, Addrs, Distinct, CtxDistinct, SameShape;
    Open(n, d, a, x, rx, Mk(d, b, y, ry, e), UpOf(c));
    Open(n, d, b, y, ry, e, x);
    CtxNullFree(c);
    CtxEmbeddedAddrs(n, c, root, x);
    assert c.Under? ==> UpOf(c) in CtxAddrs(c);
    RotateDistinct(d, a, x, rx, b, y, ry, e);
    RotateFrames(n, n', root, root', d, c, x, y, AddrOf(b), Addrs(a), Addrs(b), Addrs(e), CtxAddrs(c));
    RotateLinks(n, n', root, root', d, c, x, y, AddrOf(b));
    RotatePieces(n, n', d, a, x, rx, b, y, ry, e, UpOf(c));
    CtxRelink(n, n', root, root', c, x, y);
  }

  lemma {:induction false} CtxEmbeddedAddrs(n: Table, c: Ctx, root: Addr, hole: Addr)
    requires CtxEmbeds(n, c, root, hole)
    ensures CtxAddrs(c) <= n.Keys
  {
    match c
    case Top =>
    case Under(d, up, a, _, sib) =>
      EmbeddedAddrs(n, sib, a);
      CtxEmbeddedAddrs(n, up, root, a);
  }

  /** The dummy node keeps its parent. */
  lemma RotatedDummy(n: Table, n': Table, root: Addr, root': Addr, d: Side, c: Ctx, x: Addr, y: Addr, b: Addr)
    requires Rotated(n, n', root, root', d, c, x, y, b)
    ensures NULL in n && NULL in n' && n'[NULL] == n[NULL]
  {
  }

  lemma RotatedData(n: Table, n': Table, root: Addr, root': Addr, d: Side, c: Ctx, x: Addr, y: Addr, b: Addr)
    requires Rotated(n, n', root, root', d, c, x, y, b)
    ensures SameData(n, n')
  {
  }

  // ---------- colours ----------

  function PaintNode(n: Table, a: Addr, red: bool): (n': Table)
    requires a in n
    ensures SameData(n, n') && n'.Keys == n.Keys
    ensures a != NULL && NULL in n ==> n'[NULL] == n[NULL]
    ensures forall b | b in n :: n'[b].up == n[b].up && n'[b].left == n[b].left && n'[b].right == n[b].right
    ensures forall b | b in n && b != a :: n'[b] == n[b]
  {
    n[a := n[a].(red := red)]
  }

  lemma Paint(n: Table, root: Addr, c: Ctx, t: Tree, red: bool)
    requires At(n, root, c, t) && t.Branch?
    ensures t.addr in n && At(PaintNode(n, t.addr, red), root, c, t.(red := red))
  {
    var n' := PaintNode(n, t.addr, red);
    NullFree(t);
    EmbeddedAddrs(n, t, UpOf(c));
    CtxEmbeddedAddrs(n, c, root, t.addr);
    Frame(n, n', t.left, t.addr);
    Frame(n, n', t.right, t.addr);
    CtxFrame(n, n', c, root, t.addr);
  }
}
