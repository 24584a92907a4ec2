/** What the recorded removes of the remove-wins map mean: for every key and replica, the newest remove seen,
    and a mark that says whether an update by that replica survives. */
module RemoveMarks {
  import opened CausalNet
  import opened RemoveWinsMap
  import opened RemoveWins

  /** An update on k by the replica with this id survives in s. */
  ghost predicate SurvivesFrom(log: seq<Msg<Op>>, s: set<nat>, k: Key, id: int) {
    exists i: nat :: i in Survivors(log, s, k) && i < |log| && log[i].op.replicaID == id
  }

  ghost predicate MarkTells(log: seq<Msg<Op>>, s: set<nat>, k: Key, id: int, marked: bool) {
    marked <==> SurvivesFrom(log, s, k, id)
  }

  ghost predicate MarksTell(log: seq<Msg<Op>>, s: set<nat>, removes: map<Key, map<int, Mark>>) {
    forall k, id :: k in removes && id in removes[k] ==> MarkTells(log, s, k, id, removes[k][id].mark)
  }

  ghost predicate AllMarksTell(w: World<RW, Op>) {
    forall r :: 0 <= r < |w.reps| ==> MarksTell(w.log, w.reps[r].seen, w.reps[r].state.removes)
  }

  // ---------------------------------------------------------------- one operation

  lemma MarkAfter(st: RW, op: Op, k: Key, id: int)
    requires op.UpdateAll?
    ensures var after := Apply(st, op).removes;
            && (k in after && id in after[k] <==> k in st.removes && id in st.removes[k])
            && (k in after && id in after[k] ==>
                  (after[k][id].mark <==>
                   st.removes[k][id].mark || (k in op.upds && Covers(st.removes, k, op.rmvEntries) && op.replicaID == id)))
  {
  }

  lemma UpdateMarks(ids: seq<int>, log: seq<Msg<Op>>, r: nat, rep: Replica<RW>, i: nat)
    requires RemoveLog(ids, log) && r < |ids| && Tracks(ids, log, r, rep) && Closed(log, rep.seen)
    requires i < |log| && i !in rep.seen && log[i].op.UpdateAll? && MarksTell(log, rep.seen, rep.state.removes)
    ensures MarksTell(log, rep.seen + {i}, Apply(rep.state, log[i].op).removes)
  {
    var op := log[i].op;
    var after: map<Key, map<int, Mark>> := Apply(rep.state, op).removes;
    forall k, id | k in after && id in after[k] ensures MarkTells(log, rep.seen + {i}, k, id, after[k][id].mark) {
      MarkAfter(rep.state, op, k, id);
      assert MarkTells(log, rep.seen, k, id, rep.state.removes[k][id].mark);
      UpdateCovered(ids, log, r, rep, i, k);
      OneMoreSurvivor(log, rep.seen, i, k, id, k in op.upds && Covers(rep.state.removes, k, op.rmvEntries));
    }
  }

  lemma UpdateCovered(ids: seq<int>, log: seq<Msg<Op>>, r: nat, rep: Replica<RW>, i: nat, k: Key)
    requires RemoveLog(ids, log) && r < |ids| && Tracks(ids, log, r, rep) && Closed(log, rep.seen)
    requires i < |log| && i !in rep.seen && log[i].op.UpdateAll?
    ensures var op := log[i].op;
            var covered := k in op.upds && Covers(rep.state.removes, k, op.rmvEntries);
            Survivors(log, rep.seen + {i}, k) == Survivors(log, rep.seen, k) + if covered then {i} else {}
  {
    MeaningOfUpdate(log, rep.seen, i, k);
    if UpdateOn(log, i, k) { CoversIffSeen(ids, log, r, rep, i, k); }
  }

  lemma OneMoreSurvivor(log: seq<Msg<Op>>, s: set<nat>, i: nat, k: Key, id: int, covered: bool)
    requires i < |log| && Survivors(log, s + {i}, k) == Survivors(log, s, k) + (if covered then {i} else {})
    ensures SurvivesFrom(log, s + {i}, k, id) <==> SurvivesFrom(log, s, k, id) || (covered && log[i].op.replicaID == id)
  {
    if SurvivesFrom(log, s, k, id) {
      var j: nat :| j in Survivors(log, s, k) && j < |log| && log[j].op.replicaID == id;
      assert j in Survivors(log, s + {i}, k);
    }
    if covered { assert i in Survivors(log, s + {i}, k); }
  }

  lemma RemoveMarks(log: seq<Msg<Op>>, s: set<nat>, st: RW, i: nat)
    requires Closed(log, s) && i < |log| && i !in s && log[i].op.RemoveAll? && MarksTell(log, s, st.removes)
    ensures MarksTell(log, s + {i}, Apply(st, log[i].op).removes)
  {
    var op := log[i].op;
    var after: map<Key, map<int, Mark>> := Apply(st, op).removes;
    forall k, id | k in after && id in after[k] ensures MarkTells(log, s + {i}, k, id, after[k][id].mark) {
      MeaningOfRemove(log, s, i, k);
      if k !in op.rems {
        assert MarkTells(log, s, k, id, st.removes[k][id].mark);
        assert Survivors(log, s + {i}, k) == Survivors(log, s, k);
      }
    }
  }

  lemma MarksGrow(log: seq<Msg<Op>>, m: Msg<Op>, s: set<nat>, removes: map<Key, map<int, Mark>>)
    requires Closed(log, s) && MarksTell(log, s, removes)
    ensures MarksTell(log + [m], s, removes)
  {
    forall k, id | k in removes && id in removes[k] ensures MarkTells(log + [m], s, k, id, removes[k][id].mark) {
      assert MarkTells(log, s, k, id, removes[k][id].mark);
      MeaningGrows(log, m, s, k);
      SurvivesGrows(log, m, s, k, id);
    }
  }

  lemma SurvivesGrows(log: seq<Msg<Op>>, m: Msg<Op>, s: set<nat>, k: Key, id: int)
    requires Closed(log, s) && Survivors(log + [m], s, k) == Survivors(log, s, k)
    ensures SurvivesFrom(log + [m], s, k, id) <==> SurvivesFrom(log, s, k, id)
  {
    forall i: nat | i in s ensures i < |log| && (log + [m])[i] == log[i] {}
    if SurvivesFrom(log, s, k, id) {
      var i: nat :| i in Survivors(log, s, k) && i < |log| && log[i].op.replicaID == id;
      assert i in Survivors(log + [m], s, k);
    }
  }

  lemma ApplyMarks(ids: seq<int>, log: seq<Msg<Op>>, r: nat, rep: Replica<RW>, i: nat)
    requires RemoveLog(ids, log) && r < |ids| && Tracks(ids, log, r, rep) && Closed(log, rep.seen)
    requires i < |log| && i !in rep.seen && MarksTell(log, rep.seen, rep.state.removes)
    ensures MarksTell(log, rep.seen + {i}, Apply(rep.state, log[i].op).removes)
  {
    if log[i].op.UpdateAll? { UpdateMarks(ids, log, r, rep, i); } else { RemoveMarks(log, rep.seen, rep.state, i); }
  }

  // ---------------------------------------------------------------- runs

  lemma IssueMarks(ids: seq<int>, w: World<RW, Op>, r: nat, upd: Upd)
    requires Inv(ids, w) && AllMarksTell(w) && CanIssue(Maps(ids), w, r, upd)
    ensures AllMarksTell(Take(Maps(ids), w, Issue(r, upd)))
  {
    var rep := w.reps[r];
    assert Maps(ids).prepare(rep.state, upd) == Prepare(rep.state, upd);
    var m := Msg(Prepare(rep.state, upd).value, r, rep.seen);
    TakeKeepsCausality(Maps(ids), w, Issue(r, upd));
    LogGrows(ids, w, r, upd);
    assert Closed(w.log, rep.seen);
    forall q | 0 <= q < |ids| ensures MarksTell(w.log + [m], w.reps[q].seen, w.reps[q].state.removes) {
      MarksGrow(w.log, m, w.reps[q].seen, w.reps[q].state.removes);
    }
    TracksGrows(ids, w.log, m, r, rep);
    ClosedGrows(w.log, m, rep.seen);
    ApplyMarks(ids, w.log + [m], r, rep, |w.log|);
  }

  lemma {:induction false} RunKeepsMarks(ids: seq<int>, steps: seq<Step<Upd>>)
    requires Distinct(ids)
    ensures AllMarksTell(Run(ids, steps))
  {
    if steps != [] {
      var before := steps[..|steps| - 1];
      RunKeepsMarks(ids, before);
      RunKeepsInv(ids, before);
      var w := Run(ids, before);
      match steps[|steps| - 1]
      case Issue(r, upd) => if CanIssue(Maps(ids), w, r, upd) { IssueMarks(ids, w, r, upd); }
      case Deliver(r, i) => if CanDeliver(w, r, i) { ApplyMarks(ids, w.log, r, w.reps[r], i); }
    }
  }

  /** In every run, at every replica: a record for key k and a replica exists exactly if a remove of k by it was
      seen, it holds the counter of the newest one, and it is marked exactly if an update on k by that replica
      survives. */
  lemma RecordsMeaning(ids: seq<int>, steps: seq<Step<Upd>>, r: nat, k: Key, id: int)
    requires Distinct(ids) && r < |ids|
    ensures var w := Run(ids, steps);
            && r < |w.reps|
            && var seen, removes := w.reps[r].seen, w.reps[r].state.removes;
               && (k in removes && id in removes[k] <==> exists j :: j in seen && RemoveOf(w.log, j, k) && RemoveBy(ids, w.log, j, id))
               && (k in removes && id in removes[k] ==> Newest(ids, w.log, seen, k, id, removes[k][id].ts))
               && (k in removes && id in removes[k] ==> (removes[k][id].mark <==> SurvivesFrom(w.log, seen, k, id)))
  {
    RunKeepsInv(ids, steps);
    RunKeepsMarks(ids, steps);
    var w := Run(ids, steps);
    var seen, removes := w.reps[r].seen, w.reps[r].state.removes;
    assert Tracks(ids, w.log, r, w.reps[r]);
    assert MarksTell(w.log, seen, removes);
    if k in removes && id in removes[k] {
      assert Newest(ids, w.log, seen, k, id, removes[k][id].ts);
      assert MarkTells(w.log, seen, k, id, removes[k][id].mark);
    }
  }
}
