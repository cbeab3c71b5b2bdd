/** Keys are byte strings in lexicographic order; ranges of keys are half-open. */
module Keys {
  type Byte = b: int | 0 <= b < 256
  type Key = seq<Byte>

  // ---------- the order ----------

  predicate Less(a: Key, b: Key) {
    b != [] && (a == [] || a[0] < b[0] || (a[0] == b[0] && Less(a[1..], b[1..])))
  }

  predicate AtMost(a: Key, b: Key) {
    a == b || Less(a, b)
  }

  /** The sign that byte-wise comparison returns. */
  function Compare(a: Key, b: Key): int {
    if a == b then 0 else if Less(a, b) then -1 else 1
  }

  lemma {:induction false} LessTransitive(a: Key, b: Key, c: Key)
    requires Less(a, b) && Less(b, c)
    ensures Less(a, c)
  {
    if a != [] && a[0] == b[0] == c[0] {
      LessTransitive(a[1..], b[1..], c[1..]);
    }
  }

  lemma {:induction false} LessAsymmetric(a: Key, b: Key)
    requires Less(a, b)
    ensures !Less(b, a) && a != b
  {
    if a != [] && a[0] == b[0] {
      LessAsymmetric(a[1..], b[1..]);
    }
  }

  lemma {:induction false} LessTotal(a: Key, b: Key)
    ensures a == b || Less(a, b) || Less(b, a)
  {
    if a != [] && b != [] && a[0] == b[0] {
      LessTotal(a[1..], b[1..]);
      if a[1..] == b[1..] { assert a == [a[0]] + a[1..] == b; }
    }
  }

  /** Comparison only depends on what follows a common prefix. */
  lemma {:induction false} LessAfterPrefix(p: Key, a: Key, b: Key)
    ensures Less(p + a, p + b) <==> Less(a, b)
  {
    if p == [] {
      assert p + a == a && p + b == b;
    } else {
      assert (p + a)[1..] == p[1..] + a && (p + b)[1..] == p[1..] + b;
      LessAfterPrefix(p[1..], a, b);
    }
  }

  predicate HasPrefix(k: Key, prefix: Key) {
    prefix <= k
  }

  // ---------- the next key ----------

  function Next(k: Key): Key {
    k + [0]
  }

  /** No key lies strictly between a key and its Next. */
  lemma NextIsNext(k: Key, x: Key)
    ensures Less(k, Next(k))
    ensures Less(k, x) <==> AtMost(Next(k), x)
  {
    assert k + [] == k;
    LessAfterPrefix(k, [], [0]);
    if Less(k, x) {
      LongerThan(k, x);
    }
    if AtMost(Next(k), x) && x != Next(k) { LessTransitive(k, Next(k), x); }
  }

  lemma {:induction false} LongerThan(k: Key, x: Key)
    requires Less(k, x)
    ensures AtMost(Next(k), x)
  {
    if k == [] {
      if x[0] == 0 {
        if x[1..] == [] { assert x == [0]; }
      }
    } else if k[0] == x[0] {
      LongerThan(k[1..], x[1..]);
      assert Next(k)[1..] == Next(k[1..]);
      if Next(k[1..]) == x[1..] { assert x == [x[0]] + x[1..] == Next(k); }
    }
  }

  // ---------- the next prefix ----------

  predicate AllMax(k: Key) {
    forall i | 0 <= i < |k| :: k[i] == 255
  }

  /** The position that PrefixNext increments: the last byte that is not 255. */
  function BumpAt(k: Key): (i: nat)
    requires !AllMax(k)
    ensures i < |k| && k[i] != 255 && forall j | i < j < |k| :: k[j] == 255
  {
    if k[|k| - 1] != 255 then |k| - 1
    else
      assert k == k[..|k| - 1] + [255];
      BumpAt(k[..|k| - 1])
  }

  function Zeros(n: nat): Key {
    seq(n, _ => 0)
  }

  function PrefixNext(k: Key): Key {
    if AllMax(k) then k + [0]
    else
      var i := BumpAt(k);
      k[..i] + [k[i] + 1] + Zeros(|k| - i - 1)
  }

  /** The source's loop: increments bytes from the end until one does not wrap around. */
  method ComputePrefixNext(k: Key) returns (r: Key)
    ensures r == PrefixNext(k)
  {
    var buf := new Byte[|k|](i requires 0 <= i < |k| => k[i]);
    var i := |k| - 1;
    while i >= 0
      invariant -1 <= i < |k|
      invariant forall j | 0 <= j <= i :: buf[j] == k[j]
      invariant forall j | i < j < |k| :: buf[j] == 0 && k[j] == 255
    {
      buf[i] := ((buf[i] as int) + 1) % 256;
      if buf[i] != 0 {
        break;
      }
      i := i - 1;
    }
    if i == -1 {
      r := k + [0];
    } else {
      r := buf[..];
      assert BumpAt(k) == i;
      assert r == k[..i] + [k[i] + 1] + Zeros(|k| - i - 1);
    }
  }

  /** A key of the range [k, PrefixNext(k)) that does not have the prefix k: a proper prefix of PrefixNext(k)
      that reaches past the incremented byte.  There is none when the last byte of k is not 255. */
  predicate Stray(k: Key, x: Key)
    requires !AllMax(k)
  {
    BumpAt(k) < |x| < |k| && x <= PrefixNext(k)
  }

  /** The range [k, PrefixNext(k)) holds exactly the keys with prefix k and the strays. */
  lemma PrefixRange(k: Key, x: Key)
    requires !AllMax(k)
    ensures AtMost(k, x) && Less(x, PrefixNext(k)) <==> HasPrefix(x, k) || Stray(k, x)
  {
    hide Less, AllMax, BumpAt, PrefixNext, Maxes, Zeros;
    var i := BumpAt(k);
    var p, m := k[..i], |k| - i - 1;
    var lo, hi: Key := [k[i]] + Maxes(m), [k[i] + 1] + Zeros(m);
    CutAtBump(k, i);
    NextAtBump(k, i, [k[i] + 1], Zeros(m));
    if |x| >= i && x[..i] == p {
      PrefixedRange(p, lo, hi, x[i..]);
      RangeBelowBump(k[i], m, x[i..]);
      assert x == p + x[i..];
    } else {
      Squeezed(p, lo, hi, x);
    }
  }

  /** A key, cut at the byte that is incremented. */
  lemma CutAtBump(k: Key, i: nat)
    requires i < |k| && forall j | i < j < |k| :: k[j] == 255
    ensures k == k[..i] + ([k[i]] + Maxes(|k| - i - 1))
  {
    var lo: Key := [k[i]] + Maxes(|k| - i - 1);
    assert k[i..] == lo;
    assert k == k[..i] + k[i..];
  }

  /** And its PrefixNext. */
  lemma NextAtBump(k: Key, i: nat, one: Key, rest: Key)
    requires !AllMax(k) && i == BumpAt(k) && one == [k[i] + 1] && rest == Zeros(|k| - i - 1)
    ensures PrefixNext(k) == k[..i] + (one + rest)
  {
    hide AllMax, BumpAt, Zeros;
    JoinTail(k[..i], one, rest);
  }

  lemma JoinTail(a: Key, b: Key, c: Key)
    ensures a + b + c == a + (b + c)
  {
  }

  /** A common prefix can be dropped from all comparisons. */
  lemma PrefixedRange(p: Key, lo: Key, hi: Key, y: Key)
    ensures AtMost(p + lo, p + y) <==> AtMost(lo, y)
    ensures Less(p + y, p + hi) <==> Less(y, hi)
    ensures HasPrefix(p + y, p + lo) <==> lo <= y
    ensures p + y <= p + hi <==> y <= hi
  {
    LessAfterPrefix(p, lo, y);
    LessAfterPrefix(p, y, hi);
    PrefixAfter(p, lo, y);
    PrefixAfter(p, y, hi);
    if p + lo == p + y { assert lo == (p + lo)[|p|..] == (p + y)[|p|..] == y; }
  }

  lemma PrefixAfter(p: Key, a: Key, b: Key)
    ensures p + a <= p + b <==> a <= b
  {
    if p + a <= p + b {
      forall j | 0 <= j < |a| ensures a[j] == b[j] {
        var i := |p| + j;
        assert (p + a)[i] == a[j] && (p + b)[i] == b[j];
      }
    }
  }

  function Maxes(n: nat): Key {
    seq(n, _ => 255)
  }

  /** Keys between two keys with a common prefix have that prefix. */
  lemma {:induction false} Squeezed(p: Key, a: Key, b: Key, x: Key)
    requires !(p <= x)
    ensures !(AtMost(p + a, x) && Less(x, p + b)) && !(p + a <= x) && !(|x| > |p| && x <= p + b)
  {
    if p != [] && x != [] && x[0] == p[0] {
      assert (p + a)[1..] == p[1..] + a && (p + b)[1..] == p[1..] + b;
      TailPrefix(p, x);
      TailPrefix(p + a, x);
      TailPrefix(x, p + b);
      Squeezed(p[1..], a, b, x[1..]);
    }
  }

  lemma TailPrefix(p: Key, x: Key)
    requires p != [] && x != [] && p[0] == x[0]
    ensures p <= x <==> p[1..] <= x[1..]
    ensures p == x <==> p[1..] == x[1..]
  {
    assert p == [p[0]] + p[1..] && x == [x[0]] + x[1..];
    PrefixAfter([p[0]], p[1..], x[1..]);
  }

  /** The range from b 255 ... 255 to (b + 1) 0 ... 0. */
  lemma RangeBelowBump(b: Byte, n: nat, y: Key)
    requires b < 255
    ensures var lo, hi: Key := [b] + Maxes(n), [b + 1] + Zeros(n);
            AtMost(lo, y) && Less(y, hi) <==> lo <= y || (0 < |y| <= n && y <= hi)
  {
    var lo, hi: Key := [b] + Maxes(n), [b + 1] + Zeros(n);
    if y != [] {
      var z := y[1..];
      assert y == [y[0]] + z && lo[1..] == Maxes(n) && hi[1..] == Zeros(n);
      if y[0] == b {
        AboveMaxes(n, z);
        PrefixAfter([b], Maxes(n), z);
        assert AtMost(lo, y) <==> AtMost(Maxes(n), z);
      } else if y[0] == b + 1 {
        BelowZeros(n, z);
        PrefixAfter([b + 1], z, Zeros(n));
      }
    }
  }

  lemma {:induction false} AboveMaxes(n: nat, z: Key)
    ensures AtMost(Maxes(n), z) <==> Maxes(n) <= z
  {
    if n > 0 && z != [] && z[0] == 255 {
      assert Maxes(n) == [255] + Maxes(n - 1) && Maxes(n)[1..] == Maxes(n - 1);
      assert z == [255] + z[1..];
      AboveMaxes(n - 1, z[1..]);
      PrefixAfter([255], Maxes(n - 1), z[1..]);
    }
  }

  lemma {:induction false} BelowZeros(n: nat, z: Key)
    ensures Less(z, Zeros(n)) <==> |z| < n && z <= Zeros(n)
  {
    if n > 0 && z != [] && z[0] == 0 {
      assert Zeros(n) == [0] + Zeros(n - 1) && Zeros(n)[1..] == Zeros(n - 1);
      assert z == [0] + z[1..];
      BelowZeros(n - 1, z[1..]);
      PrefixAfter([0], z[1..], Zeros(n - 1));
    }
  }

  /** Why the prefix must not be all 255: the range then holds the prefix itself and nothing else. */
  lemma AllMaxRange(k: Key, x: Key)
    requires AllMax(k)
    ensures AtMost(k, x) && Less(x, PrefixNext(k)) <==> x == k
  {
    NextIsNext(k, x);
    if Less(k, x) && Less(x, Next(k)) { LessAsymmetric(x, Next(k)); }
  }

  // ---------- point ranges ----------

  /** Whether the range [start, end) is a point: the source compares bytes instead of building the next key. */
  method IsPoint(start: Key, end: Key) returns (point: bool)
    ensures point <==> end == Next(start) || end == PrefixNext(start)
  {
    if |start| != |end| {
      var startLen := |start|;
      point := startLen + 1 == |end| && end[startLen] == 0 && start == end[..startLen];
      if point { assert end == Next(start); }
      return;
    }
    var i := |start| - 1;
    while i >= 0
      invariant -1 <= i < |start|
      invariant forall j | i < j < |start| :: start[j] == 255 && end[j] == 0
    {
      if start[i] != 255 {
        break;
      }
      if end[i] != 0 {
        PrefixNextBytes(start);
        return false;
      }
      i := i - 1;
    }
    if i < 0 {
      return false;
    }
    assert BumpAt(start) == i;
    PrefixNextBytes(start);
    point := start[i] + 1 == end[i] && start[..i] == end[..i];
    if point {
      assert forall j | 0 <= j < i :: end[j] == end[..i][j];
      assert end == PrefixNext(start);
    }
  }

  lemma PrefixNextBytes(k: Key)
    ensures if AllMax(k) then |PrefixNext(k)| == |k| + 1
            else
              && |PrefixNext(k)| == |k| && PrefixNext(k)[..BumpAt(k)] == k[..BumpAt(k)]
              && PrefixNext(k)[BumpAt(k)] == k[BumpAt(k)] + 1
              && forall j | BumpAt(k) < j < |k| :: PrefixNext(k)[j] == 0
  {
  }
}
