/** The schema validator: whether a transaction that read an older schema may still commit.

    It keeps a queue of schema changes, shortened by merging and trimming,
      and must answer as the whole history would. */
module SchemaValidators {
  import opened Bits
  import opened Layering
  import opened Sorting

  /** A table or partition that a schema change touched, and how, as a bit. */
  datatype Touch = Touch(id: int, action: bv64)

  datatype Delta = Delta(version: int, touches: seq<Touch>)

  datatype CheckResult = Succ | Fail | Unknown

  const MILLISECOND := 1_000_000

  // ---------- histories ----------

  ghost predicate Increasing(ds: seq<Delta>) {
    forall i, j | 0 <= i < j < |ds| :: ds[i].version < ds[j].version
  }

  /** What a list of changes touches after a version. */
  ghost function Touched(ds: seq<Delta>, v: int): set<Touch> {
    set d, t | d in ds && d.version > v && t in d.touches :: t
  }

  ghost function TouchesOf(d: Delta): set<Touch> {
    set t | t in d.touches
  }

  lemma TouchedAppend(ds: seq<Delta>, d: Delta, v: int)
    ensures Touched(ds + [d], v) == Touched(ds, v) + if d.version > v then TouchesOf(d) else {}
  {
    assert forall x :: x in ds + [d] <==> x in ds || x == d;
  }

  lemma TouchedTrim(ds: seq<Delta>, v: int)
    requires ds != [] && ds[0].version <= v
    ensures Touched(ds[1..], v) == Touched(ds, v)
  {
    assert ds == [ds[0]] + ds[1..];
    assert forall x :: x in ds <==> x in ds[1..] || x == ds[0];
  }

  /** The queue says the same as the history about every version from its oldest one on. */
  ghost predicate SaysSame(queue: seq<Delta>, history: seq<Delta>) {
    queue != [] ==> forall v | v >= queue[0].version :: Touched(queue, v) == Touched(history, v)
  }

  /** Merging a last change that the new one contains loses nothing. */
  lemma MergeSaysSame(queue: seq<Delta>, history: seq<Delta>, d: Delta)
    requires |queue| >= 2 && SaysSame(queue, history) && Increasing(queue) && d.version > queue[|queue| - 1].version
    requires TouchesOf(queue[|queue| - 1]) <= TouchesOf(d)
    ensures SaysSame(queue[|queue| - 1 := d], history + [d])
  {
    var front, last := queue[..|queue| - 1], queue[|queue| - 1];
    assert queue == front + [last] && queue[|queue| - 1 := d] == front + [d];
    forall v | v >= queue[0].version ensures Touched(front + [d], v) == Touched(history + [d], v) {
      TouchedAppend(front, last, v);
      TouchedAppend(front, d, v);
      TouchedAppend(history, d, v);
    }
  }

  lemma AppendSaysSame(queue: seq<Delta>, history: seq<Delta>, d: Delta)
    requires SaysSame(queue, history) && (queue == [] ==> history == [])
    requires forall x | x in queue :: x.version < d.version
    ensures SaysSame(queue + [d], history + [d])
  {
    if queue == [] {
      assert [] + [d] == [d];
    } else {
      forall v | v >= queue[0].version ensures Touched(queue + [d], v) == Touched(history + [d], v) {
        TouchedAppend(queue, d, v);
        TouchedAppend(history, d, v);
      }
    }
  }

  lemma TrimSaysSame(queue: seq<Delta>, history: seq<Delta>)
    requires queue != [] && SaysSame(queue, history) && Increasing(queue)
    ensures SaysSame(queue[1..], history)
  {
    if queue[1..] != [] {
      forall v | v >= queue[1].version ensures Touched(queue[1..], v) == Touched(history, v) {
        TouchedTrim(queue, v);
      }
    }
  }

  /** Which changes of the history are still in the queue: `at` are their places. */
  ghost predicate Places(queue: seq<Delta>, history: seq<Delta>, at: seq<nat>) {
    && |at| == |queue| && (forall i, j | 0 <= i < j < |at| :: at[i] < at[j])
    && (forall i | 0 <= i < |at| :: at[i] < |history| && history[at[i]] == queue[i])
    && (queue != [] ==> at[|at| - 1] == |history| - 1)
    && (queue == [] ==> history == [])
  }

  lemma PlacesLength(queue: seq<Delta>, history: seq<Delta>, at: seq<nat>)
    requires Places(queue, history, at)
    ensures |at| == |queue| && (queue == [] ==> history == []) && (history == [] ==> queue == [])
  {
  }

  lemma AppendPlaces(queue: seq<Delta>, history: seq<Delta>, at: seq<nat>, d: Delta)
    requires Places(queue, history, at)
    ensures Places(queue + [d], history + [d], at + [|history|])
  {
  }

  lemma MergePlaces(queue: seq<Delta>, history: seq<Delta>, at: seq<nat>, d: Delta)
    requires Places(queue, history, at) && queue != []
    ensures Places(queue[|queue| - 1 := d], history + [d], at[|queue| - 1 := |history|])
  {
  }

  lemma TrimPlaces(queue: seq<Delta>, history: seq<Delta>, at: seq<nat>)
    requires Places(queue, history, at) && |queue| > 1
    ensures Places(queue[1..], history, at[1..])
  {
  }

  /** As many changes as the queue holds, at least, lie at or behind the place of its first one. */
  lemma {:induction false} PlacesSpread(at: seq<nat>, n: nat)
    requires at != [] && (forall i, j | 0 <= i < j < |at| :: at[i] < at[j]) && at[|at| - 1] < n
    ensures at[0] + |at| <= n
  {
    if |at| > 1 { PlacesSpread(at[..|at| - 1], at[|at| - 1]); }
  }

  /** What a queue with a limited length keeps of the history. */
  ghost predicate QueueKeeps(queue: seq<Delta>, history: seq<Delta>, at: seq<nat>, maxCnt: int) {
    && Increasing(queue) && Increasing(history) && SaysSame(queue, history)
    && |queue| <= (if maxCnt > 0 then maxCnt else 0)
    && (maxCnt > 0 ==> Places(queue, history, at) && (queue != [] && at[0] > 0 ==> |queue| == maxCnt))
  }

  ghost predicate AllOlder(ds: seq<Delta>, v: int) {
    forall d | d in ds :: d.version < v
  }

  lemma IncreasingAppend(ds: seq<Delta>, d: Delta)
    requires Increasing(ds) && AllOlder(ds, d.version)
    ensures Increasing(ds + [d])
  {
  }

  lemma KeepsEmpty(maxCnt: int)
    ensures QueueKeeps([], [], [], maxCnt)
  {
  }

  lemma KeepsNothing(queue: seq<Delta>, history: seq<Delta>, at: seq<nat>, maxCnt: int, d: Delta)
    requires QueueKeeps(queue, history, at, maxCnt) && AllOlder(history, d.version) && maxCnt <= 0
    ensures QueueKeeps(queue, history + [d], at, maxCnt)
  {
    IncreasingAppend(history, d);
  }

  lemma KeepsMerged(queue: seq<Delta>, history: seq<Delta>, at: seq<nat>, maxCnt: int, d: Delta)
    requires QueueKeeps(queue, history, at, maxCnt) && AllOlder(history, d.version) && AllOlder(queue, d.version)
    requires maxCnt > 0 && |queue| > 1 && TouchesOf(queue[|queue| - 1]) <= TouchesOf(d)
    ensures QueueKeeps(queue[|queue| - 1 := d], history + [d], at[|queue| - 1 := |history|], maxCnt)
  {
    hide Places, SaysSame, TouchesOf;
    PlacesLength(queue, history, at);
    IncreasingAppend(history, d);
    MergeSaysSame(queue, history, d);
    MergePlaces(queue, history, at, d);
  }

  lemma KeepsAppended(queue: seq<Delta>, history: seq<Delta>, at: seq<nat>, maxCnt: int, d: Delta)
    requires QueueKeeps(queue, history, at, maxCnt) && AllOlder(history, d.version) && AllOlder(queue, d.version)
    requires maxCnt > 0
    ensures |queue| < maxCnt ==> QueueKeeps(queue + [d], history + [d], at + [|history|], maxCnt)
    ensures |queue| == maxCnt ==> QueueKeeps((queue + [d])[1..], history + [d], (at + [|history|])[1..], maxCnt)
  {
    hide Places, SaysSame, Increasing;
    PlacesLength(queue, history, at);
    IncreasingAppend(queue, d);
    IncreasingAppend(history, d);
    AppendSaysSame(queue, history, d);
    AppendPlaces(queue, history, at, d);
    if |queue| == maxCnt {
      TrimSaysSame(queue + [d], history + [d]);
      TrimPlaces(queue + [d], history + [d], at + [|history|]);
      IncreasingTail(queue + [d]);
    }
  }

  lemma IncreasingTail(ds: seq<Delta>)
    requires Increasing(ds) && ds != []
    ensures Increasing(ds[1..])
  {
  }

  // ---------- bits ----------

  /** The OR of the actions with which a table was touched: a bit is set if some touch has it. */
  ghost predicate IsOrOf(bits: bv64, ts: set<Touch>, id: int) {
    forall mask :: Clear(bits, mask) <==> forall t | t in ts && t.id == id :: Clear(t.action, mask)
  }

  lemma OrMore(bits: bv64, ts: set<Touch>, t: Touch)
    requires IsOrOf(bits, ts, t.id)
    ensures IsOrOf(Or(bits, t.action), ts + {t}, t.id)
  {
    hide Clear, Or;
    var bits' := Or(bits, t.action);
    forall mask ensures Clear(bits', mask) <==> forall u | u in ts + {t} && u.id == t.id :: Clear(u.action, mask) {
      OrClear(bits, t.action, mask);
    }
  }

  lemma OrOther(bits: bv64, ts: set<Touch>, t: Touch, id: int)
    requires IsOrOf(bits, ts, id) && t.id != id
    ensures IsOrOf(bits, ts + {t}, id)
  {
    hide Clear;
    forall mask ensures Clear(bits, mask) <==> forall u | u in ts + {t} && u.id == id :: Clear(u.action, mask) {
      assert forall u: Touch | u.id == id :: u in ts + {t} <==> u in ts;
    }
  }

  lemma OrNothing(ts: set<Touch>, id: int)
    requires forall t | t in ts :: t.id != id
    ensures IsOrOf(0, ts, id)
  {
    ZeroClear();
  }

  // ---------- the validator ----------

  class SchemaValidator {
    const lease: int
    const maxCnt: int
    var isStarted: bool
    var latestSchemaVer: int
    var latestSchemaExpire: int
    var deltaSchemaInfos: seq<Delta>

    /** All changes reported since the validator was last emptied, whether an update has been accepted since then,
        where the changes in the queue come from, and the version that was last reported, accepted or not. */
    ghost var history: seq<Delta>
    ghost var updated: bool
    ghost var at: seq<nat>
    ghost var loaded: int

    ghost predicate Kept()
      reads this
    {
      QueueKeeps(deltaSchemaInfos, history, at, maxCnt)
    }

    ghost predicate UpTo(v: int)
      reads this
    {
      (forall d | d in history :: d.version <= v) && (forall d | d in deltaSchemaInfos :: d.version <= v)
    }

    ghost predicate Valid()
      reads this
    {
      && Kept() && UpTo(latestSchemaVer)
      && (!isStarted ==> !updated)
      && (!updated ==> latestSchemaVer == 0 && history == [] && deltaSchemaInfos == [])
      && (updated ==> latestSchemaVer == loaded)
      && (history != [] ==> history[|history| - 1].version == latestSchemaVer)
    }

    lemma LastReport()
      requires Valid()
      ensures !isStarted ==> !updated
      ensures !updated ==> history == []
      ensures updated ==> latestSchemaVer == loaded
      ensures history != [] ==> updated && history[|history| - 1].version == loaded
    {
    }

    constructor (lease: int, maxCnt: int)
      ensures Valid() && isStarted && !updated && this.lease == lease && this.maxCnt == maxCnt
    {
      this.lease, this.maxCnt := lease, maxCnt;
      isStarted, latestSchemaVer, latestSchemaExpire, deltaSchemaInfos := true, 0, 0, [];
      history, updated, at, loaded := [], false, [], 0;
    }

    method Stop()
      requires Valid()
      modifies this
      ensures Valid() && !isStarted && !updated && history == [] && loaded == old(loaded)
      ensures latestSchemaExpire == old(latestSchemaExpire)
    {
      hide QueueKeeps;
      KeepsEmpty(maxCnt);
      isStarted := false;
      latestSchemaVer := 0;
      deltaSchemaInfos := [];
      history, updated, at := [], false, [];
    }

    method Restart()
      requires Valid()
      modifies `isStarted
      ensures Valid() && isStarted
    {
      isStarted := true;
    }

    method Reset()
      requires Valid()
      modifies this
      ensures Valid() && isStarted && !updated && history == [] && loaded == old(loaded)
      ensures latestSchemaExpire == old(latestSchemaExpire)
    {
      hide QueueKeeps;
      KeepsEmpty(maxCnt);
      isStarted := true;
      latestSchemaVer := 0;
      deltaSchemaInfos := [];
      history, updated, at := [], false, [];
    }

    /** Reports that the schema moved from one version to another, touching these tables.  A stopped validator does
        not listen.  After an accepted update the next one goes on from where that ended. */
    method Update(leaseGrantTime: int, oldVer: int, currVer: int, change: Option<seq<Touch>>)
      requires Valid() && 0 <= oldVer <= currVer && (isStarted && updated ==> oldVer == latestSchemaVer)
      modifies this
      ensures Valid() && isStarted == old(isStarted) && loaded == currVer
      ensures !isStarted ==>
                && history == old(history) && latestSchemaVer == old(latestSchemaVer) && updated == old(updated)
                && latestSchemaExpire == old(latestSchemaExpire)
      ensures isStarted ==>
                && updated && latestSchemaVer == currVer && latestSchemaExpire == leaseGrantTime + lease - 1_000_000
                && history == if currVer == oldVer then old(history)
                  else old(history) + [Delta(currVer, change.GetOr([]))]
      ensures isStarted && currVer == oldVer ==> deltaSchemaInfos == old(deltaSchemaInfos)
      ensures isStarted && currVer != oldVer && maxCnt > 0 ==>
                var q, ts := old(deltaSchemaInfos), change.GetOr([]);
                (|q| > 1 && |q[|q| - 1].touches| <= |ts| && forall t | t in q[|q| - 1].touches :: t in ts)
                || |q| < maxCnt ==>
                  forall v :: old(Covers(v)) ==> Covers(v)
    {
      hide QueueKeeps;
      loaded := currVer;
      if !isStarted {
        return;
      }
      latestSchemaVer := currVer;
      latestSchemaExpire := leaseGrantTime + (lease - MILLISECOND);
      updated := true;
      if currVer != oldVer {
        Enqueue(currVer, change);
      }
    }

    /** Puts a change at the end of the queue.  It replaces the last one if it contains it, but never the first one,
        and the first one goes if the queue becomes too long. */
    method Enqueue(schemaVersion: int, change: Option<seq<Touch>>)
      requires Kept() && AllOlder(history, schemaVersion) && AllOlder(deltaSchemaInfos, schemaVersion)
      modifies `deltaSchemaInfos, `history, `at
      ensures Kept() && UpTo(schemaVersion) && history == old(history) + [Delta(schemaVersion, change.GetOr([]))]
      ensures maxCnt <= 0 ==> deltaSchemaInfos == old(deltaSchemaInfos)
      ensures var q, ts := old(deltaSchemaInfos), change.GetOr([]);
              var contained := |q| > 1 && |q[|q| - 1].touches| <= |ts| && forall t | t in q[|q| - 1].touches :: t in ts;
              maxCnt > 0 ==>
                deltaSchemaInfos ==
                  if contained then q[..|q| - 1] + [Delta(schemaVersion, ts)]
                  else if |q| == maxCnt then q[1..] + [Delta(schemaVersion, ts)]
                  else q + [Delta(schemaVersion, ts)]
    {
      hide QueueKeeps, TouchesOf;
      var delta := Delta(schemaVersion, change.GetOr([]));
      ghost var n := |history|;
      history := history + [delta];
      if maxCnt <= 0 {
        KeepsNothing(deltaSchemaInfos, old(history), at, maxCnt, delta);
        return;
      }
      QueueLength(deltaSchemaInfos, old(history), at, maxCnt);
      KeepsAppended(deltaSchemaInfos, old(history), at, maxCnt, delta);
      if |deltaSchemaInfos| == 0 {
        deltaSchemaInfos := deltaSchemaInfos + [delta];
        at := at + [n];
        return;
      }
      var lastOffset := |deltaSchemaInfos| - 1;
      var contained := false;
      if lastOffset != 0 {
        contained := ContainIn(deltaSchemaInfos[lastOffset], delta);
        TouchesIn(deltaSchemaInfos[lastOffset], delta);
      }
      LastReplaced(deltaSchemaInfos, delta);
      if contained {
        KeepsMerged(deltaSchemaInfos, old(history), at, maxCnt, delta);
        deltaSchemaInfos := deltaSchemaInfos[lastOffset := delta];
        at := at[lastOffset := n];
      } else {
        deltaSchemaInfos := deltaSchemaInfos + [delta];
        at := at + [n];
      }
      if |deltaSchemaInfos| > maxCnt {
        deltaSchemaInfos := deltaSchemaInfos[1..];
        at := at[1..];
      }
    }

    lemma QueueLength(queue: seq<Delta>, history: seq<Delta>, at: seq<nat>, maxCnt: int)
      requires QueueKeeps(queue, history, at, maxCnt) && maxCnt > 0
      ensures |at| == |queue| <= maxCnt
    {
    }

    // ---------- checking ----------

    /** The changes after a version are the back of the queue. */
    method FindNewerDeltas(currVer: int) returns (newer: seq<Delta>, ghost pos: nat)
      requires Increasing(deltaSchemaInfos)
      ensures pos <= |deltaSchemaInfos| && newer == deltaSchemaInfos[pos..]
      ensures forall i | 0 <= i < |deltaSchemaInfos| :: deltaSchemaInfos[i].version > currVer <==> pos <= i
    {
      var q := deltaSchemaInfos;
      var p := |q|;
      var i := |q| - 1;
      while i >= 0 && q[i].version > currVer
        invariant -1 <= i < |q| && p == i + 1
        invariant forall k | i < k < |q| :: q[k].version > currVer
      {
        p := i;
        i := i - 1;
      }
      return q[p..], p;
    }

    /** Whether the queue reaches back to a version. */
    ghost predicate Covers(v: int)
      reads this
    {
      deltaSchemaInfos != [] && deltaSchemaInfos[0].version <= v
    }

    /** Whether the history after a version touches one of the tables. */
    ghost predicate Related(v: int, blockIDs: seq<int>)
      reads this
    {
      exists t :: t in Touched(history, v) && t.id in blockIDs
    }

    /** Whether the tables have changed after a version, and if so how.  If the queue does not reach back that far
        the answer is yes, without details. */
    method IsRelatedBlocksChanged(currVer: int, blockIDs: seq<int>)
      returns (res: seq<Touch>, amendable: bool, changed: bool)
      requires Valid()
      ensures changed <==> !Covers(currVer) || Related(currVer, blockIDs)
      ensures amendable <==> Covers(currVer) && changed
      ensures amendable ==> Summary(res, Touched(history, currVer), blockIDs)
      ensures !amendable ==> res == []
    {
      hide Touched, Marked, AllTouches, TouchesOf, Places, Summary, SaysSame;
      if |deltaSchemaInfos| == 0 {
        return [], false, true;
      }
      var newerDeltas; ghost var pos;
      newerDeltas, pos := FindNewerDeltas(currVer);
      if |newerDeltas| == |deltaSchemaInfos| {
        return [], false, true;
      }
      NewerTouches(deltaSchemaInfos, pos, currVer);
      SaysSameAbout(deltaSchemaInfos, history, currVer);
      NothingMarked(blockIDs);
      var changedTblMap: map<int, bv64> := map[];
      ghost var seen: set<Touch> := {};
      for i := 0 to |newerDeltas|
        invariant seen == AllTouches(newerDeltas[..i]) && Marked(changedTblMap, seen, blockIDs)
      {
        changedTblMap := MarkDelta(changedTblMap, newerDeltas[i], blockIDs, seen);
        AllTouchesMore(newerDeltas, i);
        seen := seen + TouchesOf(newerDeltas[i]);
      }
      assert newerDeltas[..|newerDeltas|] == newerDeltas;
      if |changedTblMap| > 0 {
        SomeMarked(changedTblMap, seen, blockIDs);
        res := Summarize(changedTblMap, blockIDs, seen);
        return res, true, true;
      }
      NoneMarked(changedTblMap, seen, blockIDs);
      return [], false, false;
    }

    lemma RelatedIs(v: int, blockIDs: seq<int>)
      ensures Related(v, blockIDs) <==>
                !forall d, t | d in history && d.version > v && t in d.touches :: t.id !in blockIDs
    {
      if !forall d, t | d in history && d.version > v && t in d.touches :: t.id !in blockIDs {
        var d, t :| d in history && d.version > v && t in d.touches && t.id in blockIDs;
        assert t in Touched(history, v);
      }
    }

    /** What a check answers, said with the whole history: an older schema is accepted if the queue reaches back to it
        and no related table has changed since, the latest one while its lease lasts. */
    ghost function Answer(txnTime: int, schemaVer: int, blockIDs: seq<int>): CheckResult
      reads this
    {
      if !isStarted then Unknown
      else if lease == 0 then Succ
      else if schemaVer < latestSchemaVer then
        if blockIDs != [] && Covers(schemaVer) && !Related(schemaVer, blockIDs) then Succ else Fail
      else if txnTime > latestSchemaExpire then Unknown
      else Succ
    }

    method Check(txnTime: int, schemaVer: int, blockIDs: seq<int>) returns (change: Option<seq<Touch>>, r: CheckResult)
      requires Valid()
      ensures r == Answer(txnTime, schemaVer, blockIDs)
      ensures !isStarted ==> r == Unknown
      ensures isStarted && lease == 0 ==> r == Succ
      ensures isStarted && lease != 0 && schemaVer >= latestSchemaVer ==>
                r == if txnTime > latestSchemaExpire then Unknown else Succ
      ensures isStarted && lease != 0 && schemaVer < latestSchemaVer ==>
                && (r == Succ || r == Fail)
                && (r == Succ <==>
                      && blockIDs != [] && deltaSchemaInfos != [] && deltaSchemaInfos[0].version <= schemaVer
                      && forall d, t | d in history && d.version > schemaVer && t in d.touches :: t.id !in blockIDs)
      ensures isStarted && lease != 0 && maxCnt > 0 && history != [] && blockIDs != []
              && schemaVer >= history[if |history| > maxCnt then |history| - maxCnt else 0].version
              && schemaVer < latestSchemaVer
              && (forall d, t | d in history && d.version > schemaVer && t in d.touches :: t.id !in blockIDs) ==>
                r == Succ
      ensures change.Some? <==>
                && isStarted && lease != 0 && schemaVer < latestSchemaVer && blockIDs != []
                && Covers(schemaVer) && Related(schemaVer, blockIDs)
      ensures change.Some? ==> r == Fail && Summary(change.value, Touched(history, schemaVer), blockIDs)
    {
      hide QueueKeeps, Touched, Summary;
      if maxCnt > 0 && history != [] { CoversRecent(); }
      RelatedIs(schemaVer, blockIDs);
      if !isStarted {
        return None, Unknown;
      }
      if lease == 0 {
        return None, Succ;
      }
      if schemaVer < latestSchemaVer {
        if |blockIDs| == 0 {
          return None, Fail;
        }
        var res, amendable, changed := IsRelatedBlocksChanged(schemaVer, blockIDs);
        if changed {
          if amendable {
            return Some(res), Fail;
          }
          return None, Fail;
        }
        return None, Succ;
      }
      if txnTime > latestSchemaExpire {
        return None, Unknown;
      }
      return None, Succ;
    }

    // ---------- what a check is worth ----------

    /** Once an update has been accepted, success is safe: nothing reported between the schema used and the latest one
        touches a related table, or the schema is the last reported one, or newer, and its lease has not run out. */
    lemma SuccessIsSafe(txnTime: int, schemaVer: int, blockIDs: seq<int>)
      requires Valid() && updated && lease != 0 && Answer(txnTime, schemaVer, blockIDs) == Succ
      ensures schemaVer < loaded ==>
                && (exists d :: d in history && d.version <= schemaVer)
                && forall d, t | d in history && schemaVer < d.version && t in d.touches :: t.id !in blockIDs
      ensures schemaVer >= loaded ==> txnTime <= latestSchemaExpire
    {
      if schemaVer < loaded {
        FirstIsOld(deltaSchemaInfos, history, at, maxCnt);
        forall d, t | d in history && schemaVer < d.version && t in d.touches ensures t.id !in blockIDs {
          assert t in Touched(history, schemaVer);
        }
      }
    }

    /** The same against a log of what every version changed: if each report covers all versions since the one before
        it, a schema that passes is one that no later version changed. */
    lemma SuccessMeansUnchanged(txnTime: int, schemaVer: int, blockIDs: seq<int>, log: int -> set<int>, v: int)
      requires Valid() && updated && lease != 0 && Answer(txnTime, schemaVer, blockIDs) == Succ
      requires Faithful(history, log) && schemaVer < v <= loaded
      ensures forall id | id in blockIDs :: id !in log(v)
    {
      SuccessIsSafe(txnTime, schemaVer, blockIDs);
      var d :| d in history && d.version <= schemaVer;
      var j :| 0 <= j < |history| && history[j] == d;
      var i := Reporting(history, j, v);
      assert Reports(history[i], history[i - 1].version, log) && history[i] in history;
    }

    /** Versions older than everything in the queue are never accepted. */
    lemma TooOldFails(txnTime: int, schemaVer: int, blockIDs: seq<int>)
      requires Valid() && isStarted && lease != 0 && schemaVer < latestSchemaVer
      requires forall d | d in deltaSchemaInfos :: schemaVer < d.version
      ensures Answer(txnTime, schemaVer, blockIDs) == Fail
    {
      assert deltaSchemaInfos == [] || deltaSchemaInfos[0] in deltaSchemaInfos;
    }

    /** A started validator lets a schema older than the last reported one pass only on account of an unchanged history
        exactly if its latest version has caught up with that report, or its last lease is over.  A restart after a stop
        does not catch up: the update in between is ignored, and the latest version stays 0 until the next one. */
    lemma PassesByHistory(txnTime: int)
      requires Valid() && isStarted && lease != 0
      ensures (forall v, blockIDs | v < loaded && Answer(txnTime, v, blockIDs) == Succ ::
                 blockIDs != [] && Covers(v) && !Related(v, blockIDs))
         <==> latestSchemaVer >= loaded || txnTime > latestSchemaExpire
    {
      if latestSchemaVer < loaded && txnTime <= latestSchemaExpire {
        assert Answer(txnTime, 0, []) == Succ;
      }
    }

    /** With a positive limit the queue covers at least the last `maxCnt` changes, and everything while there
        are no more than that. */
    lemma CoversRecent()
      requires Valid() && maxCnt > 0 && history != []
      ensures deltaSchemaInfos != []
      ensures var oldest := if |history| > maxCnt then |history| - maxCnt else 0;
              deltaSchemaInfos[0].version <= history[oldest].version
    {
      hide SaysSame;
      PlacesSpread(at, |history|);
    }
  }

  // ---------- loops over changes ----------

  ghost function AllTouches(ds: seq<Delta>): set<Touch> {
    set d, t | d in ds && t in d.touches :: t
  }

  lemma AllTouchesMore(ds: seq<Delta>, i: nat)
    requires i < |ds|
    ensures AllTouches(ds[..i + 1]) == AllTouches(ds[..i]) + TouchesOf(ds[i])
  {
    assert ds[..i + 1] == ds[..i] + [ds[i]];
  }

  lemma NewerTouches(ds: seq<Delta>, pos: nat, v: int)
    requires pos <= |ds| && forall i | 0 <= i < |ds| :: ds[i].version > v <==> pos <= i
    ensures AllTouches(ds[pos..]) == Touched(ds, v)
  {
    assert forall d | d in ds[pos..] :: d in ds && d.version > v;
    forall d | d in ds && d.version > v ensures d in ds[pos..] {
      var i :| 0 <= i < |ds| && ds[i] == d;
      assert ds[pos..][i - pos] == d;
    }
  }

  /** Each reported change lists at least the tables that the versions since the report before it changed. */
  ghost predicate Faithful(history: seq<Delta>, log: int -> set<int>) {
    forall i | 0 < i < |history| :: Reports(history[i], history[i - 1].version, log)
  }

  ghost predicate Reports(d: Delta, since: int, log: int -> set<int>) {
    forall v, id | since < v <= d.version && id in log(v) :: exists t :: t in d.touches && t.id == id
  }

  /** The report that covers a version. */
  lemma {:induction false} Reporting(history: seq<Delta>, j: nat, v: int) returns (i: nat)
    requires j < |history| && history[j].version < v <= history[|history| - 1].version
    ensures 0 < i < |history| && history[i - 1].version < v <= history[i].version
    decreases |history| - j
  {
    if v <= history[j + 1].version { i := j + 1; } else { i := Reporting(history, j + 1, v); }
  }

  lemma FirstIsOld(queue: seq<Delta>, history: seq<Delta>, at: seq<nat>, maxCnt: int)
    requires QueueKeeps(queue, history, at, maxCnt) && queue != []
    ensures queue[0] in history
  {
  }

  /** The tables found so far, with the OR of what was done to them. */
  ghost predicate Marked(m: map<int, bv64>, seen: set<Touch>, blockIDs: seq<int>) {
    && (forall id :: id in m <==> id in blockIDs && exists t :: t in seen && t.id == id)
    && (forall id | id in m :: IsOrOf(m[id], seen, id))
  }

  /** The result of a check: the related tables that were touched, in order, each with the OR of its actions. */
  ghost predicate Summary(res: seq<Touch>, ts: set<Touch>, blockIDs: seq<int>) {
    && (forall i, j | 0 <= i < j < |res| :: res[i].id < res[j].id)
    && (forall r | r in res :: r.id in blockIDs && (exists t :: t in ts && t.id == r.id) && IsOrOf(r.action, ts, r.id))
    && (forall t | t in ts && t.id in blockIDs :: exists r :: r in res && r.id == t.id)
  }

  /** Goes through the touches of one change. */
  method MarkDelta(m0: map<int, bv64>, item: Delta, blockIDs: seq<int>, ghost seen: set<Touch>)
    returns (m: map<int, bv64>)
    requires Marked(m0, seen, blockIDs)
    ensures Marked(m, seen + TouchesOf(item), blockIDs)
  {
    hide Marked;
    m := m0;
    ghost var s := seen;
    for i := 0 to |item.touches|
      invariant s == seen + (set t | t in item.touches[..i]) && Marked(m, s, blockIDs)
    {
      m := MarkTouch(m, item.touches[i], blockIDs, s);
      assert item.touches[..i + 1] == item.touches[..i] + [item.touches[i]];
      s := s + {item.touches[i]};
    }
    assert item.touches[..|item.touches|] == item.touches;
  }

  /** Compares one touch with the related tables. */
  method MarkTouch(m0: map<int, bv64>, t: Touch, blockIDs: seq<int>, ghost seen: set<Touch>) returns (m: map<int, bv64>)
    requires Marked(m0, seen, blockIDs)
    ensures Marked(m, seen + {t}, blockIDs)
  {
    hide IsOrOf, Or;
    m := m0;
    MarkFacts(m0, t, seen, blockIDs);
    for k := 0 to |blockIDs|
      invariant t.id !in blockIDs[..k] ==> m == m0
      invariant t.id in blockIDs[..k] ==>
        && m.Keys == m0.Keys + {t.id} && IsOrOf(m[t.id], seen + {t}, t.id)
        && forall id | id in m0 && id != t.id :: m[id] == m0[id]
    {
      assert blockIDs[..k + 1] == blockIDs[..k] + [blockIDs[k]];
      if t.id == blockIDs[k] {
        if t.id in m { OrAgain(m[t.id], seen, t, t.id in blockIDs[..k]); }
        m := m[t.id := Or(if t.id in m then m[t.id] else 0, t.action)];
      }
    }
    assert blockIDs[..|blockIDs|] == blockIDs;
  }

  lemma OrAgain(bits: bv64, seen: set<Touch>, t: Touch, again: bool)
    requires IsOrOf(bits, if again then seen + {t} else seen, t.id)
    ensures IsOrOf(Or(bits, t.action), seen + {t}, t.id)
  {
    hide IsOrOf, Or;
    OrMore(bits, if again then seen + {t} else seen, t);
    assert seen + {t} + {t} == seen + {t};
  }

  lemma MarkFacts(m: map<int, bv64>, t: Touch, seen: set<Touch>, blockIDs: seq<int>)
    requires Marked(m, seen, blockIDs)
    ensures t.id in blockIDs && t.id !in m ==> IsOrOf(Or(0, t.action), seen + {t}, t.id)
    ensures forall id | id in m && id != t.id :: IsOrOf(m[id], seen + {t}, id)
  {
    hide IsOrOf, Or;
    if t.id in blockIDs && t.id !in m {
      OrNothing(seen, t.id);
      OrMore(0, seen, t);
    }
    forall id | id in m && id != t.id ensures IsOrOf(m[id], seen + {t}, id) {
      OrOther(m[id], seen, t, id);
    }
  }

  lemma SaysSameAbout(queue: seq<Delta>, history: seq<Delta>, v: int)
    requires SaysSame(queue, history) && queue != [] && queue[0].version <= v
    ensures Touched(queue, v) == Touched(history, v)
  {
  }

  lemma NothingMarked(blockIDs: seq<int>)
    ensures Marked(map[], {}, blockIDs) && AllTouches([]) == {}
  {
  }

  method Summarize(m: map<int, bv64>, blockIDs: seq<int>, ghost seen: set<Touch>) returns (res: seq<Touch>)
    requires Marked(m, seen, blockIDs)
    ensures Summary(res, seen, blockIDs)
  {
    hide IsOrOf;
    var tblIds := SortedIds(m.Keys);
    forall k | 0 <= k < |tblIds| ensures tblIds[k] in m {
      assert tblIds[k] in tblIds;
    }
    res := seq(|tblIds|, k requires 0 <= k < |tblIds| && tblIds[k] in m => Touch(tblIds[k], m[tblIds[k]]));
    forall r | r in res ensures r.id in m && r.action == m[r.id] {
      var k :| 0 <= k < |res| && res[k] == r;
    }
    forall t | t in seen && t.id in blockIDs ensures exists r :: r in res && r.id == t.id {
      assert t.id in m;
      var k :| 0 <= k < |tblIds| && tblIds[k] == t.id;
      assert res[k] in res;
    }
  }

  lemma SomeMarked(m: map<int, bv64>, seen: set<Touch>, blockIDs: seq<int>)
    requires Marked(m, seen, blockIDs) && |m| > 0
    ensures exists t :: t in seen && t.id in blockIDs
  {
    assert (forall id :: id !in m) ==> m == map[];
    var id :| id in m;
  }

  lemma NoneMarked(m: map<int, bv64>, seen: set<Touch>, blockIDs: seq<int>)
    requires Marked(m, seen, blockIDs) && |m| == 0
    ensures forall t | t in seen :: t.id !in blockIDs
  {
    assert m == map[];
    assert forall t | t in seen :: t.id in m <==> t.id in blockIDs;
  }

  /** Whether every touch of a change is also in a newer one. */
  method ContainIn(lastDelta: Delta, curDelta: Delta) returns (r: bool)
    ensures r <==> |lastDelta.touches| <= |curDelta.touches| && TouchesOf(lastDelta) <= TouchesOf(curDelta)
  {
    if |lastDelta.touches| > |curDelta.touches| {
      return false;
    }
    for i := 0 to |lastDelta.touches|
      invariant forall k | 0 <= k < i :: lastDelta.touches[k] in curDelta.touches
    {
      var isEqual := false;
      for j := 0 to |curDelta.touches|
        invariant isEqual <==> lastDelta.touches[i] in curDelta.touches[..j]
      {
        if lastDelta.touches[i].id == curDelta.touches[j].id
          && lastDelta.touches[i].action == curDelta.touches[j].action {
          isEqual := true;
          break;
        }
      }
      if !isEqual {
        assert lastDelta.touches[i] in TouchesOf(lastDelta);
        return false;
      }
    }
    return true;
  }

  lemma TouchesIn(d: Delta, d': Delta)
    ensures TouchesOf(d) <= TouchesOf(d') <==> forall t | t in d.touches :: t in d'.touches
  {
    assert forall t :: t in TouchesOf(d) <==> t in d.touches;
    assert forall t :: t in TouchesOf(d') <==> t in d'.touches;
  }

  lemma LastReplaced(q: seq<Delta>, d: Delta)
    requires q != []
    ensures q[|q| - 1 := d] == q[..|q| - 1] + [d] && (q + [d])[1..] == q[1..] + [d]
  {
  }

  /** The steps of the schema loop after its connection was lost: stop, reload while stopped, restart.  The reload has
      moved the schema from version 5 to 6, touching table 1, and a transaction on table 1 with schema 5 passes. */
  method StopReloadRestart(lease: int) returns (r: CheckResult)
    requires lease >= MILLISECOND
    ensures r == Succ
  {
    var s := new SchemaValidator(lease, 1024);
    s.Update(0, 0, 5, None);
    s.Stop();
    s.Update(0, 5, 6, Some([Touch(1, 1)]));
    s.Restart();
    var _, result := s.Check(0, 5, [1]);
    r := result;
  }
}
