/** Runs of N remove-wins maps under causal delivery: what the map means, and convergence. */
module RemoveWins {
  import opened GoMaps
  import opened CausalNet
  import opened Options
  import opened RemoveWinsMap

  ghost predicate Distinct(ids: seq<int>) {
    forall i, j :: 0 <= i < j < |ids| ==> ids[i] != ids[j]
  }

  ghost function Maps(ids: seq<int>): Protocol<RW, Upd, Op> {
    Protocol(
      (r: nat) => Initial(ids, if r < |ids| then ids[r] else 0),
      (w: World<RW, Op>, r: nat, upd: Upd) => true,
      (s: RW, upd: Upd) => Prepare(s, upd),
      (s: RW, op: Op) => Apply(s, op))
  }

  ghost function Run(ids: seq<int>, steps: seq<Step<Upd>>): World<RW, Op> {
    Exec(Maps(ids), |ids|, steps)
  }

  // ---------------------------------------------------------------- the meaning

  predicate RemoveOf(log: seq<Msg<Op>>, j: nat, k: Key) {
    j < |log| && log[j].op.RemoveAll? && k in log[j].op.rems
  }

  predicate UpdateOn(log: seq<Msg<Op>>, i: nat, k: Key) {
    i < |log| && log[i].op.UpdateAll? && k in log[i].op.upds
  }

  /** An update on k survives in s when its source had seen every remove of k that is in s. */
  ghost predicate Survives(log: seq<Msg<Op>>, s: set<nat>, k: Key, i: nat) {
    i in s && UpdateOn(log, i, k) && forall j :: j in s && RemoveOf(log, j, k) ==> j in log[i].deps
  }

  ghost function Survivors(log: seq<Msg<Op>>, s: set<nat>, k: Key): set<nat> {
    set i | i in s && Survives(log, s, k, i)
  }

  /** The embedded counter of k: the changes of the updates in e, added up. */
  ghost function Total(log: seq<Msg<Op>>, e: set<nat>, k: Key, n: nat): int
    requires n <= |log|
  {
    if n == 0 then 0
    else Total(log, e, k, n - 1) + if n - 1 in e && UpdateOn(log, n - 1, k) then log[n - 1].op.upds[k] else 0
  }

  ghost function Meaning(log: seq<Msg<Op>>, s: set<nat>, k: Key): int {
    Total(log, Survivors(log, s, k), k, |log|)
  }

  lemma {:induction false} TotalAdd(log: seq<Msg<Op>>, e: set<nat>, i: nat, k: Key, n: nat)
    requires n <= |log| && i < |log| && i !in e && UpdateOn(log, i, k)
    ensures Total(log, e + {i}, k, n) == Total(log, e, k, n) + if i < n then log[i].op.upds[k] else 0
  {
    if n > 0 { TotalAdd(log, e, i, k, n - 1); }
  }

  lemma {:induction false} TotalNone(log: seq<Msg<Op>>, k: Key, n: nat)
    requires n <= |log|
    ensures Total(log, {}, k, n) == 0
  {
    if n > 0 { TotalNone(log, k, n - 1); }
  }

  lemma {:induction false} TotalGrow(log: seq<Msg<Op>>, m: Msg<Op>, e: set<nat>, k: Key, n: nat)
    requires n <= |log|
    ensures Total(log + [m], e, k, n) == Total(log, e, k, n)
  {
    if n > 0 { TotalGrow(log, m, e, k, n - 1); }
  }

  lemma MeaningGrows(log: seq<Msg<Op>>, m: Msg<Op>, s: set<nat>, k: Key)
    requires Closed(log, s)
    ensures Survivors(log + [m], s, k) == Survivors(log, s, k)
    ensures Meaning(log + [m], s, k) == Meaning(log, s, k)
  {
    forall i | i in s ensures Survives(log + [m], s, k, i) <==> Survives(log, s, k, i) {
      assert forall j :: j in s ==> (RemoveOf(log + [m], j, k) <==> RemoveOf(log, j, k));
    }
    TotalGrow(log, m, Survivors(log, s, k), k, |log|);
  }

  /** A newly seen update survives if its source had seen every remove of the key seen here. */
  lemma MeaningOfUpdate(log: seq<Msg<Op>>, s: set<nat>, i: nat, k: Key)
    requires Closed(log, s) && i < |log| && i !in s && log[i].op.UpdateAll?
    ensures var covered := UpdateOn(log, i, k) && forall j :: j in s && RemoveOf(log, j, k) ==> j in log[i].deps;
            && Survivors(log, s + {i}, k) == Survivors(log, s, k) + (if covered then {i} else {})
            && Meaning(log, s + {i}, k) == Meaning(log, s, k) + (if covered then log[i].op.upds[k] else 0)
  {
    assert forall j :: j in s + {i} && RemoveOf(log, j, k) ==> j in s;
    if UpdateOn(log, i, k) { TotalAdd(log, Survivors(log, s, k), i, k, |log|); }
    assert forall j :: j in s + {i} ==> (Survives(log, s + {i}, k, j) <==> Survives(log, s, k, j) || (j == i && Survives(log, s + {i}, k, i)));
    if Survives(log, s + {i}, k, i) {
      assert Survivors(log, s + {i}, k) == Survivors(log, s, k) + {i};
    } else {
      assert Survivors(log, s + {i}, k) == Survivors(log, s, k);
    }
  }

  /** A newly seen remove of k leaves no survivor: nothing seen before it can have known it. */
  lemma MeaningOfRemove(log: seq<Msg<Op>>, s: set<nat>, i: nat, k: Key)
    requires Closed(log, s) && i < |log| && i !in s && log[i].op.RemoveAll?
    ensures Survivors(log, s + {i}, k) == if k in log[i].op.rems then {} else Survivors(log, s, k)
    ensures Meaning(log, s + {i}, k) == if k in log[i].op.rems then 0 else Meaning(log, s, k)
  {
    if k in log[i].op.rems {
      assert RemoveOf(log, i, k);
      forall j | j in s + {i} ensures !Survives(log, s + {i}, k, j) {
        if j in s { assert i !in log[j].deps; }
      }
      assert Survivors(log, s + {i}, k) == {};
      TotalNone(log, k, |log|);
    } else {
      assert forall j :: j in s + {i} && RemoveOf(log, j, k) ==> j in s;
      assert forall j :: j in s + {i} ==> (Survives(log, s + {i}, k, j) <==> Survives(log, s, k, j));
      assert Survivors(log, s + {i}, k) == Survivors(log, s, k);
    }
  }

  // ---------------------------------------------------------------- remove counters

  ghost predicate RemoveBy(ids: seq<int>, log: seq<Msg<Op>>, j: nat, id: int) {
    j < |log| && log[j].op.RemoveAll? && log[j].origin < |ids| && ids[log[j].origin] == id
  }

  /** Remove counters are positive and grow at each source; the clocks of an update name removes that
      its source had seen, and cover every such remove of the keys it touches. */
  ghost predicate RemoveLog(ids: seq<int>, log: seq<Msg<Op>>) {
    && Distinct(ids) && CausalLog(log)
    && (forall i :: 0 <= i < |log| ==> log[i].origin < |ids| && log[i].op.replicaID == ids[log[i].origin])
    && (forall j :: 0 <= j < |log| && log[j].op.RemoveAll? ==> log[j].op.ts >= 1)
    && (forall i, j :: 0 <= i < j < |log| ==> CountersGrow(log[i], log[j]))
    && (forall i :: 0 <= i < |log| && log[i].op.UpdateAll? ==> ClocksSeen(ids, log, log[i].op.rmvEntries, log[i].deps))
    && (forall i: nat, j: nat, k :: UpdateOn(log, i, k) && j in log[i].deps && RemoveOf(log, j, k) ==>
          CoveredBy(log[j].op, log[i].op.rmvEntries))
  }

  predicate CountersGrow(m: Msg<Op>, n: Msg<Op>) {
    m.op.RemoveAll? && n.op.RemoveAll? && m.origin == n.origin ==> m.op.ts < n.op.ts
  }

  ghost predicate CoveredBy(rem: Op, rmv: map<int, int>)
    requires rem.RemoveAll?
  {
    rem.replicaID in rmv && rem.ts <= rmv[rem.replicaID]
  }

  /** Every clock in rmv is the counter of some remove in s. */
  ghost predicate ClocksSeen(ids: seq<int>, log: seq<Msg<Op>>, rmv: map<int, int>, s: set<nat>) {
    forall id :: id in rmv ==> exists j :: j in s && RemoveBy(ids, log, j, id) && log[j].op.ts == rmv[id]
  }

  /** The clocks an update carries cover a remove of one of its keys exactly if its source had seen it. */
  lemma CoveredIffSeen(ids: seq<int>, log: seq<Msg<Op>>, i: nat, j: nat, k: Key)
    requires RemoveLog(ids, log) && UpdateOn(log, i, k) && RemoveOf(log, j, k)
    ensures CoveredBy(log[j].op, log[i].op.rmvEntries) <==> j in log[i].deps
  {
    if CoveredBy(log[j].op, log[i].op.rmvEntries) {
      var id := log[j].op.replicaID;
      var h: nat :| h in log[i].deps && RemoveBy(ids, log, h, id) && log[h].op.ts == log[i].op.rmvEntries[id];
      assert log[h].origin == log[j].origin;
      if j < h { assert j in log[h].deps; }
    }
  }

  // ---------------------------------------------------------------- the invariant of a run

  /** The recorded counter is that of the newest remove of k by id. */
  ghost predicate Newest(ids: seq<int>, log: seq<Msg<Op>>, s: set<nat>, k: Key, id: int, ts: int) {
    && (exists j :: j in s && RemoveOf(log, j, k) && RemoveBy(ids, log, j, id) && log[j].op.ts == ts)
    && (forall j :: j in s && RemoveOf(log, j, k) && RemoveBy(ids, log, j, id) ==> log[j].op.ts <= ts)
  }

  /** The entries are what the seen operations mean. */
  ghost predicate Shows(log: seq<Msg<Op>>, s: set<nat>, entries: map<Key, int>) {
    forall k :: ShowsAt(log, s, entries, k)
  }

  ghost predicate ShowsAt(log: seq<Msg<Op>>, s: set<nat>, entries: map<Key, int>, k: Key) {
    && (k in entries <==> Survivors(log, s, k) != {})
    && Get(entries, k) == Meaning(log, s, k)
  }

  /** Every seen remove is recorded, and every record is that of a newest remove. */
  ghost predicate Records(ids: seq<int>, log: seq<Msg<Op>>, s: set<nat>, removes: map<Key, map<int, Mark>>) {
    && (forall k, id :: k in removes && id in removes[k] ==> Newest(ids, log, s, k, id, removes[k][id].ts))
    && (forall j, k :: j in s && RemoveOf(log, j, k) ==> k in removes && log[j].op.replicaID in removes[k])
  }

  ghost predicate Clocked(log: seq<Msg<Op>>, s: set<nat>, rmvClock: map<int, int>) {
    && (forall id :: Get(rmvClock, id) >= 0)
    && (forall j :: j in s && j < |log| && log[j].op.RemoveAll? ==> log[j].op.ts <= Get(rmvClock, log[j].op.replicaID))
  }

  ghost predicate Tracks(ids: seq<int>, log: seq<Msg<Op>>, r: nat, rep: Replica<RW>)
    requires r < |ids|
  {
    && rep.state.self == ids[r]
    && Shows(log, rep.seen, rep.state.entries)
    && Records(ids, log, rep.seen, rep.state.removes)
    && Clocked(log, rep.seen, rep.state.rmvClock)
  }

  ghost predicate Inv(ids: seq<int>, w: World<RW, Op>) {
    && CausalWorld(w) && RemoveLog(ids, w.log) && |w.reps| == |ids|
    && forall r :: 0 <= r < |ids| ==> Tracks(ids, w.log, r, w.reps[r])
  }

  /** The code's check against the recorded removes is the check against the seen ones. */
  lemma CoversIffSeen(ids: seq<int>, log: seq<Msg<Op>>, r: nat, rep: Replica<RW>, i: nat, k: Key)
    requires RemoveLog(ids, log) && r < |ids| && Tracks(ids, log, r, rep) && UpdateOn(log, i, k)
    requires Closed(log, rep.seen)
    ensures Covers(rep.state.removes, k, log[i].op.rmvEntries)
       <==> forall j :: j in rep.seen && RemoveOf(log, j, k) ==> j in log[i].deps
  {
    var removes := rep.state.removes;
    if Covers(removes, k, log[i].op.rmvEntries) {
      forall j | j in rep.seen && RemoveOf(log, j, k) ensures j in log[i].deps {
        CoveredWasSeen(ids, log, r, rep, i, j, k);
      }
    }
    if k in removes && forall j :: j in rep.seen && RemoveOf(log, j, k) ==> j in log[i].deps {
      forall id | id in removes[k] ensures id in log[i].op.rmvEntries && removes[k][id].ts <= log[i].op.rmvEntries[id] {
        SeenIsCovered(ids, log, rep.seen, removes, i, k, id);
      }
    }
  }

  lemma CoveredWasSeen(ids: seq<int>, log: seq<Msg<Op>>, r: nat, rep: Replica<RW>, i: nat, j: nat, k: Key)
    requires RemoveLog(ids, log) && r < |ids| && Tracks(ids, log, r, rep) && UpdateOn(log, i, k)
    requires Covers(rep.state.removes, k, log[i].op.rmvEntries) && j in rep.seen && RemoveOf(log, j, k)
    ensures j in log[i].deps
  {
    var id := log[j].op.replicaID;
    assert RemoveBy(ids, log, j, id);
    assert Newest(ids, log, rep.seen, k, id, rep.state.removes[k][id].ts);
    CoveredIffSeen(ids, log, i, j, k);
  }

  lemma SeenIsCovered(ids: seq<int>, log: seq<Msg<Op>>, s: set<nat>, removes: map<Key, map<int, Mark>>, i: nat, k: Key, id: int)
    requires RemoveLog(ids, log) && Records(ids, log, s, removes) && UpdateOn(log, i, k)
    requires k in removes && id in removes[k] && forall j :: j in s && RemoveOf(log, j, k) ==> j in log[i].deps
    ensures id in log[i].op.rmvEntries && removes[k][id].ts <= log[i].op.rmvEntries[id]
  {
    var ts := removes[k][id].ts;
    assert Newest(ids, log, s, k, id, ts);
    var j: nat :| j in s && RemoveOf(log, j, k) && RemoveBy(ids, log, j, id) && log[j].op.ts == ts;
    CoveredIffSeen(ids, log, i, j, k);
  }

  lemma UpdateShows(ids: seq<int>, log: seq<Msg<Op>>, r: nat, rep: Replica<RW>, i: nat)
    requires RemoveLog(ids, log) && r < |ids| && Tracks(ids, log, r, rep) && Closed(log, rep.seen)
    requires i < |log| && i !in rep.seen && log[i].op.UpdateAll?
    ensures Shows(log, rep.seen + {i}, Apply(rep.state, log[i].op).entries)
  {
    forall k ensures ShowsAt(log, rep.seen + {i}, Apply(rep.state, log[i].op).entries, k) {
      assert ShowsAt(log, rep.seen, rep.state.entries, k);
      MeaningOfUpdate(log, rep.seen, i, k);
      UpdateAt(rep.state, log[i].op, k);
      if UpdateOn(log, i, k) { CoversIffSeen(ids, log, r, rep, i, k); }
    }
  }

  lemma UpdateRecords(ids: seq<int>, log: seq<Msg<Op>>, s: set<nat>, st: RW, i: nat)
    requires Records(ids, log, s, st.removes)
    requires i < |log| && log[i].op.UpdateAll?
    ensures Records(ids, log, s + {i}, Apply(st, log[i].op).removes)
  {
    var op := log[i].op;
    var removes': map<Key, map<int, Mark>> := Marked(st.removes, op.upds.Keys, op.rmvEntries, op.replicaID);
    forall k: Key, id: int | k in removes' && id in removes'[k] ensures Newest(ids, log, s + {i}, k, id, removes'[k][id].ts) {
      MarkedKeepsTs(st.removes, op.upds.Keys, op.rmvEntries, op.replicaID, k);
      NewestKept(ids, log, s, i, k, id, st.removes[k][id].ts);
    }
    forall j, k | j in s + {i} && RemoveOf(log, j, k) ensures k in removes' && log[j].op.replicaID in removes'[k] {
      MarkedKeepsTs(st.removes, op.upds.Keys, op.rmvEntries, op.replicaID, k);
    }
  }

  lemma NewestKept(ids: seq<int>, log: seq<Msg<Op>>, s: set<nat>, i: nat, k: Key, id: int, ts: int)
    requires Newest(ids, log, s, k, id, ts) && !(RemoveOf(log, i, k) && RemoveBy(ids, log, i, id))
    ensures Newest(ids, log, s + {i}, k, id, ts)
  {
    var j: nat :| j in s && RemoveOf(log, j, k) && RemoveBy(ids, log, j, id) && log[j].op.ts == ts;
    assert j in s + {i};
  }

  lemma RemoveShows(log: seq<Msg<Op>>, s: set<nat>, st: RW, i: nat)
    requires Shows(log, s, st.entries) && Closed(log, s)
    requires i < |log| && i !in s && log[i].op.RemoveAll?
    ensures Shows(log, s + {i}, Apply(st, log[i].op).entries)
  {
    forall k ensures ShowsAt(log, s + {i}, Apply(st, log[i].op).entries, k) {
      assert ShowsAt(log, s, st.entries, k);
      MeaningOfRemove(log, s, i, k);
    }
  }

  lemma RemoveRecords(ids: seq<int>, log: seq<Msg<Op>>, s: set<nat>, st: RW, i: nat)
    requires RemoveLog(ids, log) && Closed(log, s) && Records(ids, log, s, st.removes)
    requires i < |log| && i !in s && log[i].op.RemoveAll? && log[i].deps <= s
    ensures Records(ids, log, s + {i}, Apply(st, log[i].op).removes)
  {
    var removes': map<Key, map<int, Mark>> := Apply(st, log[i].op).removes;
    forall k: Key, id: int | k in removes' && id in removes'[k] ensures Newest(ids, log, s + {i}, k, id, removes'[k][id].ts) {
      RecordAfter(st, log[i].op, k, id);
      if k in log[i].op.rems && id == log[i].op.replicaID {
        NewestAdvances(ids, log, s, i, k);
      } else {
        NewestKept(ids, log, s, i, k, id, removes'[k][id].ts);
      }
    }
    forall j, k | j in s + {i} && RemoveOf(log, j, k) ensures k in removes' && log[j].op.replicaID in removes'[k] {
      RecordAfter(st, log[i].op, k, log[j].op.replicaID);
    }
  }

  /** What a remove leaves in the record of one key and replica. */
  lemma RecordAfter(st: RW, op: Op, k: Key, id: int)
    requires op.RemoveAll?
    ensures var own, after := k in op.rems && id == op.replicaID, Apply(st, op).removes;
            && (k in after && id in after[k] <==> own || (k in st.removes && id in st.removes[k]))
            && (k in after && id in after[k] ==> after[k][id].ts == if own then op.ts else st.removes[k][id].ts)
  {
  }

  /** Removes of one source arrive in the order of their counters. */
  lemma NewestAdvances(ids: seq<int>, log: seq<Msg<Op>>, s: set<nat>, i: nat, k: Key)
    requires RemoveLog(ids, log) && Closed(log, s)
    requires RemoveOf(log, i, k) && i !in s && log[i].deps <= s
    ensures Newest(ids, log, s + {i}, k, log[i].op.replicaID, log[i].op.ts)
  {
    assert RemoveBy(ids, log, i, log[i].op.replicaID);
    forall j | j in s + {i} && RemoveOf(log, j, k) && RemoveBy(ids, log, j, log[i].op.replicaID)
      ensures log[j].op.ts <= log[i].op.ts
    {
      assert log[j].origin == log[i].origin;
      if j != i { assert log[j].deps <= s; }
    }
  }

  lemma NewestGrows(ids: seq<int>, log: seq<Msg<Op>>, m: Msg<Op>, s: set<nat>, k: Key, id: int, ts: int)
    requires Newest(ids, log, s, k, id, ts) && Closed(log, s)
    ensures Newest(ids, log + [m], s, k, id, ts)
  {
    forall j | j in s
      ensures RemoveOf(log + [m], j, k) <==> RemoveOf(log, j, k)
      ensures RemoveBy(ids, log + [m], j, id) <==> RemoveBy(ids, log, j, id)
    {
    }
    var j: nat :| j in s && RemoveOf(log, j, k) && RemoveBy(ids, log, j, id) && log[j].op.ts == ts;
    assert RemoveOf(log + [m], j, k) && RemoveBy(ids, log + [m], j, id);
  }

  lemma RecordsGrow(ids: seq<int>, log: seq<Msg<Op>>, m: Msg<Op>, s: set<nat>, removes: map<Key, map<int, Mark>>)
    requires Records(ids, log, s, removes) && Closed(log, s)
    ensures Records(ids, log + [m], s, removes)
  {
    forall k, id | k in removes && id in removes[k] ensures Newest(ids, log + [m], s, k, id, removes[k][id].ts) {
      NewestGrows(ids, log, m, s, k, id, removes[k][id].ts);
    }
    forall j, k | j in s && RemoveOf(log + [m], j, k) ensures k in removes && log[j].op.replicaID in removes[k] {
      assert RemoveOf(log, j, k);
    }
  }

  lemma TracksGrows(ids: seq<int>, log: seq<Msg<Op>>, m: Msg<Op>, r: nat, rep: Replica<RW>)
    requires r < |ids| && Tracks(ids, log, r, rep) && Closed(log, rep.seen)
    ensures Tracks(ids, log + [m], r, rep)
  {
    forall k ensures ShowsAt(log + [m], rep.seen, rep.state.entries, k) {
      assert ShowsAt(log, rep.seen, rep.state.entries, k);
      MeaningGrows(log, m, rep.seen, k);
    }
    RecordsGrow(ids, log, m, rep.seen, rep.state.removes);
  }

  /** The clocks collected by an update come from removes the source has seen ... */
  lemma FreshClocksSeen(ids: seq<int>, log: seq<Msg<Op>>, s: set<nat>, removes: map<Key, map<int, Mark>>, keys: set<Key>)
    requires Records(ids, log, s, removes)
    ensures ClocksSeen(ids, log, RmvEntries(removes, keys), s)
  {
    var rmv := RmvEntries(removes, keys);
    forall id | id in rmv ensures exists j :: j in s && RemoveBy(ids, log, j, id) && log[j].op.ts == rmv[id] {
      MaxTsIsMax(removes, keys, id);
      var k :| k in keys && rmv[id] == Ts(removes, k, id);
      assert Newest(ids, log, s, k, id, removes[k][id].ts);
    }
  }

  /** ... and cover every such remove of the keys the update touches. */
  lemma FreshClocksCover(ids: seq<int>, log: seq<Msg<Op>>, s: set<nat>, removes: map<Key, map<int, Mark>>, keys: set<Key>, j: nat, k: Key)
    requires RemoveLog(ids, log) && Records(ids, log, s, removes)
    requires k in keys && j in s && RemoveOf(log, j, k)
    ensures CoveredBy(log[j].op, RmvEntries(removes, keys))
  {
    var id := log[j].op.replicaID;
    assert RemoveBy(ids, log, j, id);
    assert Newest(ids, log, s, k, id, removes[k][id].ts);
    MaxTsIsMax(removes, keys, id);
    assert 1 <= log[j].op.ts <= Ts(removes, k, id) <= MaxTs(removes, keys, id);
    assert id in RecordedBy(removes, keys);
  }

  lemma LogGrows(ids: seq<int>, w: World<RW, Op>, r: nat, upd: Upd)
    requires Inv(ids, w) && r < |ids| && Prepare(w.reps[r].state, upd).Some?
    requires CausalLog(w.log + [Msg(Prepare(w.reps[r].state, upd).value, r, w.reps[r].seen)])
    ensures RemoveLog(ids, w.log + [Msg(Prepare(w.reps[r].state, upd).value, r, w.reps[r].seen)])
  {
    var rep := w.reps[r];
    var op := Prepare(rep.state, upd).value;
    var m := Msg(op, r, rep.seen);
    assert Tracks(ids, w.log, r, rep) && Closed(w.log, rep.seen);
    ClocksGrow(ids, w.log, m, upd, rep.state);
    CountersGrowOn(ids, w, m);
  }

  lemma ClocksGrow(ids: seq<int>, log: seq<Msg<Op>>, m: Msg<Op>, upd: Upd, st: RW)
    requires RemoveLog(ids, log) && CausalLog(log + [m]) && Closed(log, m.deps)
    requires Records(ids, log, m.deps, st.removes) && Prepare(st, upd) == Some(m.op)
    ensures var log' := log + [m];
            && (forall i :: 0 <= i < |log'| && log'[i].op.UpdateAll? ==> ClocksSeen(ids, log', log'[i].op.rmvEntries, log'[i].deps))
            && (forall i: nat, j: nat, k :: UpdateOn(log', i, k) && j in log'[i].deps && RemoveOf(log', j, k) ==>
                  CoveredBy(log'[j].op, log'[i].op.rmvEntries))
  {
    var log' := log + [m];
    forall i | 0 <= i < |log'| && log'[i].op.UpdateAll?
      ensures ClocksSeen(ids, log', log'[i].op.rmvEntries, log'[i].deps)
    {
      if i == |log| { FreshClocksSeen(ids, log, m.deps, st.removes, upd.upds.Keys); }
      ClocksSeenGrows(ids, log, m, log'[i].op.rmvEntries, log'[i].deps);
    }
    forall i: nat, j: nat, k | UpdateOn(log', i, k) && j in log'[i].deps && RemoveOf(log', j, k)
      ensures CoveredBy(log'[j].op, log'[i].op.rmvEntries)
    {
      assert RemoveOf(log, j, k);
      if i == |log| {
        FreshClocksCover(ids, log, m.deps, st.removes, upd.upds.Keys, j, k);
      } else {
        assert UpdateOn(log, i, k);
      }
    }
  }

  lemma CountersGrowOn(ids: seq<int>, w: World<RW, Op>, m: Msg<Op>)
    requires Inv(ids, w) && m.origin < |ids|
    requires m.op.RemoveAll? ==> m.op.ts == Get(w.reps[m.origin].state.rmvClock, ids[m.origin]) + 1
    ensures forall i :: 0 <= i < |w.log| ==> CountersGrow(w.log[i], m)
  {
    forall i | 0 <= i < |w.log| ensures CountersGrow(w.log[i], m) {
      assert i in w.reps[w.log[i].origin].seen;
      assert Tracks(ids, w.log, m.origin, w.reps[m.origin]);
    }
  }

  lemma ClocksSeenGrows(ids: seq<int>, log: seq<Msg<Op>>, m: Msg<Op>, rmv: map<int, int>, s: set<nat>)
    requires ClocksSeen(ids, log, rmv, s)
    ensures ClocksSeen(ids, log + [m], rmv, s)
  {
    forall id | id in rmv ensures exists j :: j in s && RemoveBy(ids, log + [m], j, id) && (log + [m])[j].op.ts == rmv[id] {
      var j: nat :| j in s && RemoveBy(ids, log, j, id) && log[j].op.ts == rmv[id];
      assert RemoveBy(ids, log + [m], j, id);
    }
  }

  lemma ApplyClocked(log: seq<Msg<Op>>, s: set<nat>, st: RW, i: nat)
    requires Clocked(log, s, st.rmvClock) && i < |log|
    ensures Clocked(log, s + {i}, Apply(st, log[i].op).rmvClock)
  {
    var clock: map<int, int> := Apply(st, log[i].op).rmvClock;
    forall id ensures Get(clock, id) >= Get(st.rmvClock, id) {}
  }

  lemma ApplyTracks(ids: seq<int>, log: seq<Msg<Op>>, r: nat, rep: Replica<RW>, i: nat)
    requires RemoveLog(ids, log) && r < |ids| && Tracks(ids, log, r, rep) && Closed(log, rep.seen)
    requires i < |log| && i !in rep.seen && log[i].deps <= rep.seen
    ensures Tracks(ids, log, r, Replica(Apply(rep.state, log[i].op), rep.seen + {i}))
  {
    ApplyClocked(log, rep.seen, rep.state, i);
    if log[i].op.UpdateAll? {
      UpdateShows(ids, log, r, rep, i);
      UpdateRecords(ids, log, rep.seen, rep.state, i);
    } else {
      RemoveShows(log, rep.seen, rep.state, i);
      RemoveRecords(ids, log, rep.seen, rep.state, i);
    }
  }

  lemma IssueKeeps(ids: seq<int>, w: World<RW, Op>, r: nat, upd: Upd)
    requires Inv(ids, w) && CanIssue(Maps(ids), w, r, upd)
    ensures Inv(ids, Take(Maps(ids), w, Issue(r, upd)))
  {
    var rep := w.reps[r];
    assert Maps(ids).prepare(rep.state, upd) == Prepare(rep.state, upd);
    var m := Msg(Prepare(rep.state, upd).value, r, rep.seen);
    TakeKeepsCausality(Maps(ids), w, Issue(r, upd));
    LogGrows(ids, w, r, upd);
    assert Closed(w.log, rep.seen);
    forall q | 0 <= q < |ids| ensures Tracks(ids, w.log + [m], q, w.reps[q]) {
      TracksGrows(ids, w.log, m, q, w.reps[q]);
    }
    ClosedGrows(w.log, m, rep.seen);
    ApplyTracks(ids, w.log + [m], r, rep, |w.log|);
  }

  lemma DeliverKeeps(ids: seq<int>, w: World<RW, Op>, r: nat, i: nat)
    requires Inv(ids, w) && CanDeliver(w, r, i)
    ensures Inv(ids, Take(Maps(ids), w, Deliver(r, i)))
  {
    TakeKeepsCausality(Maps(ids), w, Deliver(r, i));
    ApplyTracks(ids, w.log, r, w.reps[r], i);
  }

  lemma {:induction false} RunKeepsInv(ids: seq<int>, steps: seq<Step<Upd>>)
    requires Distinct(ids)
    ensures Inv(ids, Run(ids, steps))
  {
    if steps != [] {
      var before := steps[..|steps| - 1];
      RunKeepsInv(ids, before);
      var w := Run(ids, before);
      match steps[|steps| - 1]
      case Issue(r, upd) => if CanIssue(Maps(ids), w, r, upd) { IssueKeeps(ids, w, r, upd); }
      case Deliver(r, i) => if CanDeliver(w, r, i) { DeliverKeeps(ids, w, r, i); }
    }
  }

  // ---------------------------------------------------------------- the theorems

  /** Remove-wins: in every run, at every replica, key k is held exactly if some applied update on k has
      seen every applied remove of k, and its counter is the sum of exactly those updates. */
  lemma RemoveWinsMeaning(ids: seq<int>, steps: seq<Step<Upd>>, r: nat, k: Key)
    requires Distinct(ids) && r < |ids|
    ensures var w := Run(ids, steps);
            && r < |w.reps|
            && (k in w.reps[r].state.entries <==> exists i :: Survives(w.log, w.reps[r].seen, k, i))
            && Get(w.reps[r].state.entries, k) == Meaning(w.log, w.reps[r].seen, k)
  {
    RunKeepsInv(ids, steps);
    var w := Run(ids, steps);
    var e := Survivors(w.log, w.reps[r].seen, k);
    assert Tracks(ids, w.log, r, w.reps[r]);
    assert ShowsAt(w.log, w.reps[r].seen, w.reps[r].state.entries, k);
    if i :| Survives(w.log, w.reps[r].seen, k, i) { assert i in e; }
  }

  /** Convergence: replicas that have applied the same operations hold the same keys and counters. */
  lemma SameSeenSameMap(ids: seq<int>, steps: seq<Step<Upd>>, q: nat, r: nat)
    requires Distinct(ids) && q < |ids| && r < |ids|
    requires var w := Run(ids, steps); |w.reps| == |ids| && w.reps[q].seen == w.reps[r].seen
    ensures var w := Run(ids, steps); w.reps[q].state.entries == w.reps[r].state.entries
  {
    RunKeepsInv(ids, steps);
    var w := Run(ids, steps);
    var a, b := w.reps[q].state.entries, w.reps[r].state.entries;
    assert Tracks(ids, w.log, q, w.reps[q]) && Tracks(ids, w.log, r, w.reps[r]);
    forall k ensures (k in a <==> k in b) && Get(a, k) == Get(b, k) {
      assert ShowsAt(w.log, w.reps[q].seen, a, k) && ShowsAt(w.log, w.reps[r].seen, b, k);
    }
    forall k | k in a ensures a[k] == b[k] { assert Get(a, k) == Get(b, k); }
  }

  // ---------------------------------------------------------------- what was requested

  lemma RecordsArePositive(ids: seq<int>, log: seq<Msg<Op>>, s: set<nat>, removes: map<Key, map<int, Mark>>)
    requires RemoveLog(ids, log) && Records(ids, log, s, removes)
    ensures Positive(removes)
  {
    forall k, id | k in removes && id in removes[k] ensures removes[k][id].ts >= 1 {
      assert Newest(ids, log, s, k, id, removes[k][id].ts);
    }
  }

  /** At every replica of every run, an issued remove leaves none of its keys and all others as they were. */
  lemma IssuedRemove(ids: seq<int>, steps: seq<Step<Upd>>, r: nat, keys: seq<Key>)
    requires Distinct(ids) && r < |ids|
    ensures var w, w' := Run(ids, steps), Run(ids, steps + [Issue(r, Remove(keys))]);
            && r < |w.reps| == |w'.reps|
            && var before, after := w.reps[r].state.entries, w'.reps[r].state.entries;
               after == map k | k in before && k !in keys :: before[k]
  {
    RunKeepsInv(ids, steps);
    IssuedIsRequested(ids, steps, r, Remove(keys));
    RemoveRequest(Run(ids, steps).reps[r].state, keys);
  }

  /** And an issued update adds its change to each of its keys and changes no other. */
  lemma IssuedUpdate(ids: seq<int>, steps: seq<Step<Upd>>, r: nat, upds: map<Key, int>)
    requires Distinct(ids) && r < |ids|
    ensures var w, w' := Run(ids, steps), Run(ids, steps + [Issue(r, Update(upds))]);
            && r < |w.reps| == |w'.reps|
            && var before, after := w.reps[r].state.entries, w'.reps[r].state.entries;
               after == map k | k in before.Keys + upds.Keys :: Get(before, k) + Get(upds, k)
  {
    RunKeepsInv(ids, steps);
    var w := Run(ids, steps);
    IssuedIsRequested(ids, steps, r, Update(upds));
    assert Tracks(ids, w.log, r, w.reps[r]);
    RecordsArePositive(ids, w.log, w.reps[r].seen, w.reps[r].state.removes);
    UpdateRequest(w.reps[r].state, upds);
  }

  lemma IssuedIsRequested(ids: seq<int>, steps: seq<Step<Upd>>, r: nat, upd: Upd)
    requires r < |ids| && |Run(ids, steps).reps| == |ids|
    ensures var w, w' := Run(ids, steps), Run(ids, steps + [Issue(r, upd)]);
            |w'.reps| == |ids| && w'.reps[r].state == Requested(w.reps[r].state, upd)
  {
    assert (steps + [Issue(r, upd)])[..|steps|] == steps;
    assert Maps(ids).prepare(Run(ids, steps).reps[r].state, upd) == Prepare(Run(ids, steps).reps[r].state, upd);
  }

  /** The message carries the request: an update its changes, and a remove those of its keys that some
      update surviving at its source holds. */
  ghost predicate Carries(log: seq<Msg<Op>>, i: nat, upd: Upd)
    requires i < |log|
  {
    match upd
    case Update(upds) => log[i].op.UpdateAll? && log[i].op.upds == upds
    case Remove(keys) => log[i].op.RemoveAll? && forall k :: k in log[i].op.rems <==> k in keys && Survivors(log, log[i].deps, k) != {}
  }

  ghost predicate CarriesAll(log: seq<Msg<Op>>, reqs: seq<Upd>) {
    |reqs| == |log| && forall i :: 0 <= i < |log| ==> Carries(log, i, reqs[i])
  }

  lemma CarriesGrows(log: seq<Msg<Op>>, m: Msg<Op>, i: nat, upd: Upd)
    requires i < |log| && Carries(log, i, upd) && Closed(log, log[i].deps)
    ensures Carries(log + [m], i, upd)
  {
    forall k ensures Survivors(log + [m], log[i].deps, k) == Survivors(log, log[i].deps, k) {
      MeaningGrows(log, m, log[i].deps, k);
    }
  }

  lemma IssueCarries(ids: seq<int>, w: World<RW, Op>, reqs: seq<Upd>, r: nat, upd: Upd)
    requires Inv(ids, w) && CarriesAll(w.log, reqs) && CanIssue(Maps(ids), w, r, upd)
    ensures CarriesAll(Take(Maps(ids), w, Issue(r, upd)).log, reqs + [upd])
  {
    var rep := w.reps[r];
    assert Maps(ids).prepare(rep.state, upd) == Prepare(rep.state, upd);
    var m := Msg(Prepare(rep.state, upd).value, r, rep.seen);
    assert Tracks(ids, w.log, r, rep) && Closed(w.log, rep.seen);
    forall i | 0 <= i < |w.log| ensures Carries(w.log + [m], i, reqs[i]) { CarriesGrows(w.log, m, i, reqs[i]); }
    NewCarries(w.log, m, rep.state, upd);
  }

  lemma NewCarries(log: seq<Msg<Op>>, m: Msg<Op>, s: RW, upd: Upd)
    requires Closed(log, m.deps) && Shows(log, m.deps, s.entries) && Prepare(s, upd) == Some(m.op)
    ensures Carries(log + [m], |log|, upd)
  {
    if upd.Remove? {
      RemoveNames(s, upd.keys);
      forall k ensures k in s.entries <==> Survivors(log + [m], m.deps, k) != {} {
        MeaningGrows(log, m, m.deps, k);
        assert ShowsAt(log, m.deps, s.entries, k);
      }
    }
  }

  /** So in every run the meaning is one of the requests: message i carries the i-th request issued. */
  lemma {:induction false} LogCarriesRequests(ids: seq<int>, steps: seq<Step<Upd>>)
    requires Distinct(ids)
    ensures CarriesAll(Run(ids, steps).log, Issued(Maps(ids), |ids|, steps))
  {
    if steps != [] {
      var before, last := steps[..|steps| - 1], steps[|steps| - 1];
      LogCarriesRequests(ids, before);
      RunKeepsInv(ids, before);
      var w, reqs := Run(ids, before), Issued(Maps(ids), |ids|, before);
      if last.Issue? && CanIssue(Maps(ids), w, last.r, last.upd) {
        IssueCarries(ids, w, reqs, last.r, last.upd);
      } else {
        assert reqs + [] == reqs;
      }
    }
  }
}
