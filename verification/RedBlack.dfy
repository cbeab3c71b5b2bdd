/** The shape of the transaction buffer's search tree, without the node table it lives in.

    A `Tree` names nodes by arena address and records colours; keys are looked up elsewhere, by address.
    A `Ctx` is a tree with one hole, read from the hole towards the root: the two together are a cursor
    into the tree, which is what the parent-link walks of the source amount to.  Frames carry the side on
    which the hole lies, so that a lemma covers an operation and its mirror image at once. */
module RedBlack {
  import opened Addresses

  datatype Side = L | R

  function Opp(d: Side): Side {
    if d.L? then R else L
  }

  datatype Tree = Leaf | Branch(left: Tree, addr: Addr, red: bool, right: Tree)

  datatype Ctx = Top | Under(side: Side, up: Ctx, addr: Addr, red: bool, sib: Tree)

  /** The branch whose child on side `d` is `near`. */
  function Mk(d: Side, near: Tree, a: Addr, red: bool, far: Tree): Tree {
    if d.L? then Branch(near, a, red, far) else Branch(far, a, red, near)
  }

  predicate Red(t: Tree) {
    t.Branch? && t.red
  }

  predicate RedCtx(c: Ctx) {
    c.Under? && c.red
  }

  function AddrOf(t: Tree): Addr {
    if t.Leaf? then NULL else t.addr
  }

  function UpOf(c: Ctx): Addr {
    if c.Top? then NULL else c.addr
  }

  function Plug(c: Ctx, t: Tree): Tree
    decreases c
  {
    match c
    case Top => t
    case Under(d, up, a, red, sib) => Plug(up, Mk(d, t, a, red, sib))
  }

  // ---------- addresses and in-order sequence ----------

  function Addrs(t: Tree): set<Addr> {
    match t
    case Leaf => {}
    case Branch(l, a, _, r) => Addrs(l) + {a} + Addrs(r)
  }

  function CtxAddrs(c: Ctx): set<Addr> {
    match c
    case Top => {}
    case Under(_, up, a, _, sib) => CtxAddrs(up) + {a} + Addrs(sib)
  }

  function InOrder(t: Tree): seq<Addr> {
    match t
    case Leaf => []
    case Branch(l, a, _, r) => InOrder(l) + [a] + InOrder(r)
  }

  /** What comes before the hole, and what comes after it. */
  function Before(c: Ctx): seq<Addr> {
    match c
    case Top => []
    case Under(d, up, a, _, sib) => if d.L? then Before(up) else Before(up) + InOrder(sib) + [a]
  }

  function After(c: Ctx): seq<Addr> {
    match c
    case Top => []
    case Under(d, up, a, _, sib) => if d.L? then [a] + InOrder(sib) + After(up) else After(up)
  }

  lemma {:induction false} PlugInOrder(c: Ctx, t: Tree)
    ensures InOrder(Plug(c, t)) == Before(c) + InOrder(t) + After(c)
    decreases c
  {
    match c
    case Top =>
      assert [] + InOrder(t) + [] == InOrder(t);
    case Under(d, up, a, red, sib) =>
      PlugInOrder(up, Mk(d, t, a, red, sib));
      if d.L? {
        Regroup(Before(up), InOrder(t), [a], InOrder(sib), After(up));
      } else {
        Regroup(Before(up), InOrder(sib), [a], InOrder(t), After(up));
      }
  }

  lemma Regroup<T>(a: seq<T>, b: seq<T>, c: seq<T>, d: seq<T>, e: seq<T>)
    ensures a + (b + c + d) + e == a + b + (c + d + e)
    ensures a + (b + c + d) + e == (a + b + c) + d + e
  {
  }

  lemma {:induction false} InOrderAddrs(t: Tree)
    ensures forall a :: a in InOrder(t) <==> a in Addrs(t)
  {
    match t
    case Leaf =>
    case Branch(l, a, _, r) =>
      InOrderAddrs(l);
      InOrderAddrs(r);
  }

  lemma {:induction false} PlugAddrs(c: Ctx, t: Tree)
    ensures Addrs(Plug(c, t)) == CtxAddrs(c) + Addrs(t)
    decreases c
  {
    match c
    case Top =>
    case Under(d, up, a, red, sib) =>
      PlugAddrs(up, Mk(d, t, a, red, sib));
  }

  // ---------- no address occurs twice, none is null ----------

  predicate Distinct(t: Tree) {
    match t
    case Leaf => true
    case Branch(l, a, _, r) =>
      && Distinct(l) && Distinct(r)
      && a != NULL && a !in Addrs(l) && a !in Addrs(r)
      && Addrs(l) !! Addrs(r)
  }

  predicate CtxDistinct(c: Ctx) {
    match c
    case Top => true
    case Under(_, up, a, _, sib) =>
      && CtxDistinct(up) && Distinct(sib)
      && a != NULL && a !in CtxAddrs(up) && a !in Addrs(sib)
      && CtxAddrs(up) !! Addrs(sib)
  }

  predicate Separate(c: Ctx, t: Tree) {
    CtxDistinct(c) && Distinct(t) && CtxAddrs(c) !! Addrs(t)
  }

  lemma {:induction false} PlugDistinct(c: Ctx, t: Tree)
    ensures Distinct(Plug(c, t)) <==> Separate(c, t)
    decreases c
  {
    match c
    case Top =>
    case Under(d, up, a, red, sib) =>
      PlugDistinct(up, Mk(d, t, a, red, sib));
  }

  lemma {:induction false} NullFree(t: Tree)
    requires Distinct(t)
    ensures NULL !in Addrs(t)
  {
    match t
    case Leaf =>
    case Branch(l, a, _, r) => NullFree(l); NullFree(r);
  }

  lemma {:induction false} CtxNullFree(c: Ctx)
    requires CtxDistinct(c)
    ensures NULL !in CtxAddrs(c)
  {
    match c
    case Top =>
    case Under(_, up, a, _, sib) => CtxNullFree(up); NullFree(sib);
  }

  predicate NoRepeats<T(==)>(s: seq<T>) {
    forall i, j :: 0 <= i < j < |s| ==> s[i] != s[j]
  }

  lemma {:induction false} InOrderNoRepeats(t: Tree)
    requires Distinct(t)
    ensures NoRepeats(InOrder(t))
  {
    match t
    case Leaf =>
    case Branch(l, a, _, r) =>
      InOrderNoRepeats(l);
      InOrderNoRepeats(r);
      InOrderAddrs(l);
      InOrderAddrs(r);
      var s := InOrder(t);
      forall i, j | 0 <= i < j < |s| ensures s[i] != s[j] {
        if i < |InOrder(l)| { assert s[i] in InOrder(l); }
        if j > |InOrder(l)| { assert s[j] in InOrder(r); }
      }
  }

  // ---------- the red-black rules ----------

  function BlackHeight(t: Tree): nat {
    match t
    case Leaf => 0
    case Branch(l, _, red, _) => BlackHeight(l) + if red then 0 else 1
  }

  predicate Balanced(t: Tree) {
    match t
    case Leaf => true
    case Branch(l, _, _, r) => Balanced(l) && Balanced(r) && BlackHeight(l) == BlackHeight(r)
  }

  predicate NoRedRed(t: Tree) {
    match t
    case Leaf => true
    case Branch(l, _, red, r) => NoRedRed(l) && NoRedRed(r) && (red ==> !Red(l) && !Red(r))
  }

  ghost predicate IsRedBlack(t: Tree) {
    Balanced(t) && NoRedRed(t) && !Red(t)
  }

  /** A hole filled by a balanced tree of black height `h` gives a balanced tree. */
  predicate Fits(c: Ctx, h: nat) {
    match c
    case Top => true
    case Under(_, up, _, red, sib) =>
      Balanced(sib) && BlackHeight(sib) == h && Fits(up, if red then h else h + 1)
  }

  /** No red-red edge away from the hole, and a black root unless the hole is the root. */
  predicate CtxNoRedRed(c: Ctx) {
    match c
    case Top => true
    case Under(_, up, _, red, sib) =>
      && NoRedRed(sib)
      && (red ==> !Red(sib) && up.Under? && !RedCtx(up))
      && CtxNoRedRed(up)
  }

  lemma MkRules(d: Side, a: Tree, x: Addr, red: bool, b: Tree)
    ensures Balanced(Mk(d, a, x, red, b)) <==> Balanced(a) && Balanced(b) && BlackHeight(a) == BlackHeight(b)
    ensures NoRedRed(Mk(d, a, x, red, b)) <==> NoRedRed(a) && NoRedRed(b) && (red ==> !Red(a) && !Red(b))
    ensures BlackHeight(a) == BlackHeight(b) ==>
        BlackHeight(Mk(d, a, x, red, b)) == BlackHeight(a) + if red then 0 else 1
    ensures InOrder(Mk(d, a, x, red, b)) == if d.L? then InOrder(a) + [x] + InOrder(b)
        else InOrder(b) + [x] + InOrder(a)
  {
    match d case L => case R =>
  }

  lemma {:induction false} PlugRedBlack(c: Ctx, t: Tree)
    requires IsRedBlack(Plug(c, t))
    ensures Balanced(t) && NoRedRed(t) && Fits(c, BlackHeight(t)) && CtxNoRedRed(c)
    ensures Red(t) ==> c.Under? && !RedCtx(c)
    decreases c
  {
    match c
    case Top =>
    case Under(d, up, a, red, sib) => PlugRedBlack(up, Mk(d, t, a, red, sib));
  }

  lemma {:induction false} RedBlackPlug(c: Ctx, t: Tree)
    requires Balanced(t) && NoRedRed(t) && Fits(c, BlackHeight(t)) && CtxNoRedRed(c)
    requires Red(t) ==> c.Under? && !RedCtx(c)
    ensures IsRedBlack(Plug(c, t))
    decreases c
  {
    match c
    case Top =>
    case Under(d, up, a, red, sib) => RedBlackPlug(up, Mk(d, t, a, red, sib));
  }

  // ---------- what the red-black rules are for: short paths ----------

  function Height(t: Tree): nat {
    match t
    case Leaf => 0
    case Branch(l, _, _, r) => 1 + if Height(l) < Height(r) then Height(r) else Height(l)
  }

  function Pow2(n: nat): nat {
    if n == 0 then 1 else 2 * Pow2(n - 1)
  }

  lemma {:induction false} HeightBound(t: Tree)
    requires Balanced(t) && NoRedRed(t)
    ensures Height(t) <= 2 * BlackHeight(t) + if Red(t) then 1 else 0
    ensures Pow2(BlackHeight(t)) <= |InOrder(t)| + 1
  {
    match t
    case Leaf =>
    case Branch(l, _, _, r) => HeightBound(l); HeightBound(r);
  }

  lemma {:induction false} Pow2Double(n: nat)
    ensures Pow2(2 * n) == Pow2(n) * Pow2(n)
  {
    if n > 0 {
      Pow2Double(n - 1);
      assert Pow2(2 * n) == 4 * Pow2(2 * (n - 1));
    }
  }

  lemma {:induction false} Pow2Monotone(m: nat, n: nat)
    requires m <= n
    ensures Pow2(m) <= Pow2(n)
    decreases n
  {
    if m < n { Pow2Monotone(m, n - 1); }
  }

  /** No search path is longer than 2 * log2(n + 1): two to the height is at most (n + 1) squared. */
  lemma ShortPaths(t: Tree)
    requires IsRedBlack(t)
    ensures Pow2(Height(t)) <= (|InOrder(t)| + 1) * (|InOrder(t)| + 1)
  {
    var n, h := |InOrder(t)| + 1, BlackHeight(t);
    HeightBound(t);
    Pow2Monotone(Height(t), 2 * h);
    Pow2Double(h);
    assert Pow2(h) * Pow2(h) <= n * n by {
      Squares(Pow2(h), n);
    }
  }

  lemma Squares(a: nat, b: nat)
    requires a <= b
    ensures a * a <= b * b
  {
    assert a * a <= a * b <= b * b;
  }
}
