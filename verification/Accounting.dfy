/** The size the buffer reports: key bytes plus bytes of current values. */
module Accounting {
  import opened Addresses
  import opened Keys
  import opened NodeTable
  import opened LogRecords

  function ValueBytes(vals: map<Addr, Value>, a: Addr): nat {
    if a in vals then |vals[a]| else 0
  }

  function Total(s: seq<Addr>, n: Table, vals: map<Addr, Value>): nat
    requires forall a | a in s :: a in n
  {
    if s == [] then 0 else |n[s[0]].key| + ValueBytes(vals, s[0]) + Total(s[1..], n, vals)
  }

  lemma {:induction false} TotalConcat(s: seq<Addr>, t: seq<Addr>, n: Table, vals: map<Addr, Value>)
    requires forall a | a in s + t :: a in n
    ensures (forall a | a in s :: a in n) && (forall a | a in t :: a in n)
    ensures Total(s + t, n, vals) == Total(s, n, vals) + Total(t, n, vals)
  {
    assert forall a | a in s :: a in s + t;
    assert forall a | a in t :: a in s + t;
    if s == [] {
      assert s + t == t;
    } else {
      assert (s + t)[1..] == s[1..] + t && (s + t)[0] == s[0];
      TotalConcat(s[1..], t, n, vals);
    }
  }

  lemma {:induction false} TotalFrame(s: seq<Addr>, n: Table, vals: map<Addr, Value>, n': Table,
                                      vals': map<Addr, Value>)
    requires forall a | a in s :: a in n && a in n' && n'[a].key == n[a].key
    requires forall a | a in s :: ValueBytes(vals, a) == ValueBytes(vals', a)
    ensures Total(s, n, vals) == Total(s, n', vals')
  {
    if s != [] {
      assert s[0] in s && forall a | a in s[1..] :: a in s;
      TotalFrame(s[1..], n, vals, n', vals');
    }
  }

  /** Taking one node out, or putting it in, changes the total by that node's share. */
  lemma TotalWithout(s: seq<Addr>, i: nat, n: Table, vals: map<Addr, Value>)
    requires i < |s| && forall a | a in s :: a in n
    ensures forall a | a in s[..i] + s[i + 1..] :: a in n
    ensures Total(s, n, vals) == Total(s[..i] + s[i + 1..], n, vals) + |n[s[i]].key| + ValueBytes(vals, s[i])
  {
    var l, x, r := s[..i], [s[i]], s[i + 1..];
    assert s == l + (x + r) && forall a | a in l + r :: a in s;
    TotalConcat(l, x + r, n, vals);
    TotalConcat(x, r, n, vals);
    TotalConcat(l, r, n, vals);
    assert Total(x, n, vals) == |n[s[i]].key| + ValueBytes(vals, s[i]) by { assert x[1..] == []; }
  }

  /** Changing the value of one node changes the total by the difference. */
  lemma TotalSet(s: seq<Addr>, i: nat, n: Table, vals: map<Addr, Value>, vals': map<Addr, Value>)
    requires i < |s| && forall a | a in s :: a in n
    requires forall j | 0 <= j < |s| && j != i :: s[j] != s[i]
    requires forall a | a in s && a != s[i] :: ValueBytes(vals, a) == ValueBytes(vals', a)
    ensures Total(s, n, vals') - ValueBytes(vals', s[i]) == Total(s, n, vals) - ValueBytes(vals, s[i])
  {
    TotalWithout(s, i, n, vals);
    TotalWithout(s, i, n, vals');
    var rest := s[..i] + s[i + 1..];
    forall a | a in rest ensures ValueBytes(vals, a) == ValueBytes(vals', a) {
      assert a in s && a != s[i];
    }
    TotalFrame(rest, n, vals, n, vals');
  }

  lemma BytesOfLast(recs: seq<LogRec>, a: Addr)
    ensures ValueBytes(Fold(recs), a) == if LastIdx(recs, a) < 0 then 0 else |recs[LastIdx(recs, a)].value|
  {
    FoldIsLast(recs, a);
  }

  lemma NotInFold(vals: map<Addr, Value>, a: Addr)
    requires a !in vals
    ensures ValueBytes(vals, a) == 0
  {
  }
}
