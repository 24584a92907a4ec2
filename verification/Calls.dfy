/** The log of UndoLog in terms of the calls that made it: which calls share an entry, and which calls a rebuild
    keeps, by the clocks that the calls were made with. */
module Calls {
  import opened Clocks
  import opened UndoLog
  import opened TimeTravel
  import opened SetHistory
  import A = AddWinsSet
  import C = CounterHistory

  /** One call of Downstream. */
  datatype Call<Op> = Call(ts: Clock, op: Op)

  function OpsOf<Op>(calls: seq<Call<Op>>): seq<Op> {
    if calls == [] then [] else OpsOf(calls[..|calls| - 1]) + [calls[|calls| - 1].op]
  }

  /** The history after the calls, from the state s and an empty history. */
  function HistoryOf<S, Op, Eff>(kind: Kind<S, Op, Eff>, s: S, calls: seq<Call<Op>>): seq<Entry<Op, Eff>> {
    if calls == [] then []
    else
      var front, last := calls[..|calls| - 1], calls[|calls| - 1];
      Logged(HistoryOf(kind, s, front), last.ts, last.op, kind.effect(ApplyOps(kind, s, OpsOf(front)), last.op))
  }

  lemma OpsOfMore<S, Op, Eff>(kind: Kind<S, Op, Eff>, s: S, calls: seq<Call<Op>>)
    requires calls != []
    ensures ApplyOps(kind, s, OpsOf(calls)) == kind.apply(ApplyOps(kind, s, OpsOf(calls[..|calls| - 1])), calls[|calls| - 1].op)
  {
    assert OpsOf(calls)[..|OpsOf(calls)| - 1] == OpsOf(calls[..|calls| - 1]);
  }

  /** Replaying the history gives the state after the calls. */
  lemma {:induction false} HistoryReplays<S, Op, Eff>(kind: Kind<S, Op, Eff>, s: S, calls: seq<Call<Op>>)
    ensures Recorded(kind, s, HistoryOf(kind, s, calls))
    ensures Replay(kind, s, HistoryOf(kind, s, calls)) == ApplyOps(kind, s, OpsOf(calls))
    decreases |calls|
  {
    if calls != [] {
      var front, last := calls[..|calls| - 1], calls[|calls| - 1];
      HistoryReplays(kind, s, front);
      LoggedIsRecorded(kind, s, HistoryOf(kind, s, front), last.ts, last.op);
      OpsOfMore(kind, s, calls);
    }
  }

  // ---------------------------------------------------------------- which calls share an entry

  ghost predicate OverSame<Op>(calls: seq<Call<Op>>, ids: set<int>) {
    forall j :: 0 <= j < |calls| ==> calls[j].ts.Keys == ids
  }

  /** The calls in one sequence again. */
  function Flat<Op>(groups: seq<seq<Call<Op>>>): seq<Call<Op>> {
    if groups == [] then [] else Flat(groups[..|groups| - 1]) + groups[|groups| - 1]
  }

  /** The calls cut into runs of equal clocks, as long as possible. */
  ghost predicate Runs<Op>(groups: seq<seq<Call<Op>>>, calls: seq<Call<Op>>) {
    && Flat(groups) == calls
    && (forall i :: 0 <= i < |groups| ==> OneClock(groups[i]))
    && forall i :: 0 < i < |groups| ==> groups[i - 1][0].ts != groups[i][0].ts
  }

  ghost predicate OneClock<Op>(group: seq<Call<Op>>) {
    group != [] && forall j :: 0 <= j < |group| ==> group[j].ts == group[0].ts
  }

  /** The entry has the clock of the run and its operations in order. */
  ghost predicate Holds<Op, Eff>(e: Entry<Op, Eff>, group: seq<Call<Op>>) {
    group != [] && e.ts == group[0].ts && e.ops == OpsOf(group)
  }

  ghost predicate HoldsAll<Op, Eff>(h: seq<Entry<Op, Eff>>, groups: seq<seq<Call<Op>>>) {
    |h| == |groups| && forall i :: 0 <= i < |h| ==> Holds(h[i], groups[i])
  }

  /** Logging extends the last entry or opens a new one. */
  lemma LoggedIs<Op, Eff>(h: seq<Entry<Op, Eff>>, ts: Clock, op: Op, eff: Eff)
    requires h != [] ==> h[|h| - 1].ts.Keys == ts.Keys
    ensures var h' := Logged(h, ts, op, eff);
            if h != [] && h[|h| - 1].ts == ts
            then |h'| == |h| && h'[..|h| - 1] == h[..|h| - 1] && h'[|h| - 1].ts == ts && h'[|h| - 1].ops == h[|h| - 1].ops + [op]
            else h' == h + [Entry(ts, [op], [eff])]
  {
    if h != [] { CompareDecides(h[|h| - 1].ts, ts); }
  }

  lemma OpsOfConcat<Op>(calls: seq<Call<Op>>, c: Call<Op>)
    ensures OpsOf(calls + [c]) == OpsOf(calls) + [c.op]
  {
    assert (calls + [c])[..|calls|] == calls;
  }

  lemma FlatConcat<Op>(groups: seq<seq<Call<Op>>>, group: seq<Call<Op>>)
    ensures Flat(groups + [group]) == Flat(groups) + group
  {
    assert (groups + [group])[..|groups|] == groups;
  }

  /** One more call opens a run, or extends the last one if its clock is the same. */
  lemma OneMoreRun<Op>(groups: seq<seq<Call<Op>>>, calls: seq<Call<Op>>, c: Call<Op>)
    requires Runs(groups, calls) && (groups != [] ==> groups[|groups| - 1][0].ts != c.ts)
    ensures Runs(groups + [[c]], calls + [c])
  {
    FlatConcat(groups, [c]);
  }

  lemma LongerRun<Op>(groups: seq<seq<Call<Op>>>, calls: seq<Call<Op>>, c: Call<Op>)
    requires Runs(groups, calls) && groups != [] && groups[|groups| - 1][0].ts == c.ts
    ensures Runs(groups[..|groups| - 1] + [groups[|groups| - 1] + [c]], calls + [c])
  {
    var front, last := groups[..|groups| - 1], groups[|groups| - 1];
    assert groups == front + [last];
    FlatConcat(front, last);
    FlatConcat(front, last + [c]);
    assert Flat(front) + (last + [c]) == (Flat(front) + last) + [c];
    assert OneClock(last);
  }

  /** Calls share an entry exactly if they are in one run of equal clocks: entry i has the clock and the
      operations of the i-th run. */
  lemma {:induction false} EntriesAreRuns<S, Op, Eff>(kind: Kind<S, Op, Eff>, s: S, calls: seq<Call<Op>>, ids: set<int>) returns (groups: seq<seq<Call<Op>>>)
    requires OverSame(calls, ids)
    ensures Runs(groups, calls) && HoldsAll(HistoryOf(kind, s, calls), groups)
    decreases |calls|
  {
    if calls == [] {
      groups := [];
    } else {
      var n := |calls| - 1;
      var front, c := calls[..n], calls[n];
      var before := EntriesAreRuns(kind, s, front, ids);
      assert calls == front + [c];
      groups := NextRuns(HistoryOf(kind, s, front), before, front, c, kind.effect(ApplyOps(kind, s, OpsOf(front)), c.op), ids);
    }
  }

  lemma NextRuns<Op, Eff>(h: seq<Entry<Op, Eff>>, before: seq<seq<Call<Op>>>, calls: seq<Call<Op>>, c: Call<Op>, eff: Eff, ids: set<int>)
      returns (groups: seq<seq<Call<Op>>>)
    requires Runs(before, calls) && HoldsAll(h, before) && OverSame(calls, ids) && c.ts.Keys == ids
    ensures Runs(groups, calls + [c]) && HoldsAll(Logged(h, c.ts, c.op, eff), groups)
  {
    if h != [] { LastClock(h, before, calls, ids); }
    LoggedIs(h, c.ts, c.op, eff);
    if h != [] && h[|h| - 1].ts == c.ts {
      groups := before[..|h| - 1] + [before[|h| - 1] + [c]];
      LongerRun(before, calls, c);
      HoldsLonger(h, Logged(h, c.ts, c.op, eff), before, c);
    } else {
      groups := before + [[c]];
      OneMoreRun(before, calls, c);
      HoldsOneMore(h, before, c, eff);
    }
  }

  lemma LastClock<Op, Eff>(h: seq<Entry<Op, Eff>>, groups: seq<seq<Call<Op>>>, calls: seq<Call<Op>>, ids: set<int>)
    requires Runs(groups, calls) && HoldsAll(h, groups) && OverSame(calls, ids) && h != []
    ensures groups[|h| - 1] != [] && h[|h| - 1].ts == groups[|h| - 1][0].ts && h[|h| - 1].ts.Keys == ids
  {
    LastKeys(groups, calls, ids);
    assert Holds(h[|h| - 1], groups[|h| - 1]);
  }

  lemma HoldsOneMore<Op, Eff>(h: seq<Entry<Op, Eff>>, groups: seq<seq<Call<Op>>>, c: Call<Op>, eff: Eff)
    requires HoldsAll(h, groups)
    ensures HoldsAll(h + [Entry(c.ts, [c.op], [eff])], groups + [[c]])
  {
    OpsOfConcat([], c);
    assert [] + [c] == [c];
  }

  lemma LastKeys<Op>(groups: seq<seq<Call<Op>>>, calls: seq<Call<Op>>, ids: set<int>)
    requires Runs(groups, calls) && groups != [] && OverSame(calls, ids)
    ensures groups[|groups| - 1] != [] && groups[|groups| - 1][0].ts.Keys == ids
  {
    var front, last := groups[..|groups| - 1], groups[|groups| - 1];
    assert OneClock(last);
    assert calls == Flat(front) + last;
    assert calls[|Flat(front)|] == last[0];
  }

  lemma HoldsLonger<Op, Eff>(h: seq<Entry<Op, Eff>>, h': seq<Entry<Op, Eff>>, groups: seq<seq<Call<Op>>>, c: Call<Op>)
    requires HoldsAll(h, groups) && h != [] && |h'| == |h| && h'[..|h| - 1] == h[..|h| - 1]
    requires h'[|h| - 1].ts == h[|h| - 1].ts && h'[|h| - 1].ops == h[|h| - 1].ops + [c.op]
    ensures HoldsAll(h', groups[..|h| - 1] + [groups[|h| - 1] + [c]])
  {
    var n := |h| - 1;
    var longer := groups[..n] + [groups[n] + [c]];
    assert Holds(h[n], groups[n]);
    OpsOfConcat(groups[n], c);
    forall i | 0 <= i < |h'| ensures Holds(h'[i], longer[i]) {
      if i < n {
        assert Holds(h[i], groups[i]);
        assert h'[i] == h'[..n][i] == h[..n][i] == h[i];
      }
    }
  }

  // ---------------------------------------------------------------- which calls a rebuild keeps

  /** The calls made at clocks that are at most the target. */
  function VisibleCalls<Op>(calls: seq<Call<Op>>, target: Clock): seq<Call<Op>> {
    if calls == [] then []
    else VisibleCalls(calls[..|calls| - 1], target) + if Leq(calls[|calls| - 1].ts, target) then [calls[|calls| - 1]] else []
  }

  /** All operations of a history. */
  function AllOps<Op, Eff>(h: seq<Entry<Op, Eff>>): seq<Op> {
    if h == [] then [] else AllOps(h[..|h| - 1]) + h[|h| - 1].ops
  }

  lemma {:induction false} ApplyMore<S, Op, Eff>(kind: Kind<S, Op, Eff>, s: S, xs: seq<Op>, ys: seq<Op>)
    ensures ApplyOps(kind, s, xs + ys) == ApplyOps(kind, ApplyOps(kind, s, xs), ys)
    decreases |ys|
  {
    if ys == [] {
      assert xs + ys == xs;
    } else {
      ApplyMore(kind, s, xs, ys[..|ys| - 1]);
      assert (xs + ys)[..|xs + ys| - 1] == xs + ys[..|ys| - 1];
    }
  }

  lemma {:induction false} ReplayIsAllOps<S, Op, Eff>(kind: Kind<S, Op, Eff>, s: S, h: seq<Entry<Op, Eff>>)
    ensures Replay(kind, s, h) == ApplyOps(kind, s, AllOps(h))
    decreases |h|
  {
    if h != [] {
      ReplayIsAllOps(kind, s, h[..|h| - 1]);
      ApplyMore(kind, s, AllOps(h[..|h| - 1]), h[|h| - 1].ops);
    }
  }

  lemma AllOpsConcat<Op, Eff>(h: seq<Entry<Op, Eff>>, e: Entry<Op, Eff>)
    ensures AllOps(h + [e]) == AllOps(h) + e.ops
  {
    assert (h + [e])[..|h|] == h;
  }

  lemma VisibleConcat<Op, Eff>(h: seq<Entry<Op, Eff>>, e: Entry<Op, Eff>, target: Clock)
    ensures AllOps(Visible(h + [e], target)) == AllOps(Visible(h, target)) + if Leq(e.ts, target) then e.ops else []
  {
    assert (h + [e])[..|h|] == h;
    if Leq(e.ts, target) {
      AllOpsConcat(Visible(h, target), e);
    } else {
      assert Visible(h, target) + [] == Visible(h, target);
      assert AllOps(Visible(h, target)) + [] == AllOps(Visible(h, target));
    }
  }

  lemma GrownVisible<Op, Eff>(front: seq<Entry<Op, Eff>>, e: Entry<Op, Eff>, e': Entry<Op, Eff>, op: Op, target: Clock)
    requires e'.ts == e.ts && e'.ops == e.ops + [op]
    ensures AllOps(Visible(front + [e'], target)) == AllOps(Visible(front + [e], target)) + if Leq(e.ts, target) then [op] else []
  {
    VisibleConcat(front, e, target);
    VisibleConcat(front, e', target);
  }

  lemma LoggedVisible<Op, Eff>(h: seq<Entry<Op, Eff>>, ts: Clock, op: Op, eff: Eff, target: Clock)
    requires h != [] ==> h[|h| - 1].ts.Keys == ts.Keys
    ensures AllOps(Visible(Logged(h, ts, op, eff), target)) == AllOps(Visible(h, target)) + if Leq(ts, target) then [op] else []
  {
    var h' := Logged(h, ts, op, eff);
    LoggedIs(h, ts, op, eff);
    if h != [] && h[|h| - 1].ts == ts {
      var front := h[..|h| - 1];
      assert h == front + [h[|h| - 1]] && h' == front + [h'[|h| - 1]];
      GrownVisible(front, h[|h| - 1], h'[|h| - 1], op, target);
    } else {
      VisibleConcat(h, Entry(ts, [op], [eff]), target);
    }
  }

  lemma LastIsLast<S, Op, Eff>(kind: Kind<S, Op, Eff>, s: S, calls: seq<Call<Op>>, ids: set<int>)
    requires calls != [] && OverSame(calls, ids)
    ensures var h := HistoryOf(kind, s, calls); h != [] && h[|h| - 1].ts.Keys == ids
  {
    var groups := EntriesAreRuns(kind, s, calls, ids);
    var h := HistoryOf(kind, s, calls);
    LastKeys(groups, calls, ids);
    assert Holds(h[|h| - 1], groups[|h| - 1]);
  }

  /** The visible entries hold the operations of the visible calls, whatever the clocks. */
  lemma {:induction false} VisibleOps<S, Op, Eff>(kind: Kind<S, Op, Eff>, s: S, calls: seq<Call<Op>>, ids: set<int>, target: Clock)
    requires OverSame(calls, ids)
    ensures AllOps(Visible(HistoryOf(kind, s, calls), target)) == OpsOf(VisibleCalls(calls, target))
    decreases |calls|
  {
    if calls != [] {
      var front, last := calls[..|calls| - 1], calls[|calls| - 1];
      VisibleOps(kind, s, front, ids, target);
      if front != [] { LastIsLast(kind, s, front, ids); }
      LoggedVisible(HistoryOf(kind, s, front), last.ts, last.op, kind.effect(ApplyOps(kind, s, OpsOf(front)), last.op), target);
      if Leq(last.ts, target) {
        OpsOfConcat(VisibleCalls(front, target), last);
      } else {
        assert VisibleCalls(front, target) + [] == VisibleCalls(front, target);
        assert OpsOf(VisibleCalls(front, target)) + [] == OpsOf(VisibleCalls(front, target));
      }
    }
  }

  /** No call at most the target comes after one that is not. */
  ghost predicate VisibleFirst<Op>(calls: seq<Call<Op>>, target: Clock) {
    forall i, j :: 0 <= i < j < |calls| && Leq(calls[j].ts, target) ==> Leq(calls[i].ts, target)
  }

  lemma LoggedClocks<Op, Eff>(h: seq<Entry<Op, Eff>>, ts: Clock, op: Op, eff: Eff, i: nat)
    requires (h != [] ==> h[|h| - 1].ts.Keys == ts.Keys) && i < |Logged(h, ts, op, eff)|
    ensures Logged(h, ts, op, eff)[i].ts == ts || (i < |h| && Logged(h, ts, op, eff)[i].ts == h[i].ts)
  {
    LoggedIs(h, ts, op, eff);
  }

  /** Every entry has the clock of some call. */
  lemma {:induction false} EntryIsCall<S, Op, Eff>(kind: Kind<S, Op, Eff>, s: S, calls: seq<Call<Op>>, ids: set<int>, i: nat) returns (j: nat)
    requires OverSame(calls, ids) && i < |HistoryOf(kind, s, calls)|
    ensures j < |calls| && calls[j].ts == HistoryOf(kind, s, calls)[i].ts
    decreases |calls|
  {
    var front, last := calls[..|calls| - 1], calls[|calls| - 1];
    var h := HistoryOf(kind, s, front);
    if front != [] { LastIsLast(kind, s, front, ids); }
    LoggedClocks(h, last.ts, last.op, kind.effect(ApplyOps(kind, s, OpsOf(front)), last.op), i);
    if HistoryOf(kind, s, calls)[i].ts == last.ts {
      j := |calls| - 1;
    } else {
      j := EntryIsCall(kind, s, front, ids, i);
    }
  }

  lemma SameEntry<Op, Eff>(h: seq<Entry<Op, Eff>>, h': seq<Entry<Op, Eff>>, i: nat)
    requires i < |h| <= |h'| && h'[..|h| - 1] == h[..|h| - 1] && (i == |h| - 1 ==> h'[i].ts == h[i].ts)
    ensures h'[i].ts == h[i].ts
  {
    if i < |h| - 1 { assert h'[i] == h'[..|h| - 1][i] == h[..|h| - 1][i]; }
  }

  /** Then a rebuild keeps no entry that is not at most the target. */
  lemma {:induction false} KeepsVisible<S, Op, Eff>(kind: Kind<S, Op, Eff>, s: S, calls: seq<Call<Op>>, ids: set<int>, target: Clock)
    requires OverSame(calls, ids) && VisibleFirst(calls, target)
    ensures KeepsOnlyVisible(HistoryOf(kind, s, calls), target)
    decreases |calls|
  {
    if calls != [] {
      var n := |calls| - 1;
      var h := HistoryOf(kind, s, calls);
      if Leq(calls[n].ts, target) {
        forall i: nat | i < |h| ensures Leq(h[i].ts, target) {
          var j := EntryIsCall(kind, s, calls, ids, i);
          assert j < n ==> Leq(calls[j].ts, target);
        }
      } else {
        KeepsVisible(kind, s, calls[..n], ids, target);
        if n > 0 { LastIsLast(kind, s, calls[..n], ids); }
        HiddenCallKeeps(HistoryOf(kind, s, calls[..n]), calls[n].ts, calls[n].op,
                        kind.effect(ApplyOps(kind, s, OpsOf(calls[..n])), calls[n].op), target);
      }
    }
  }

  /** A call that is not at most the target changes nothing of what a rebuild keeps. */
  lemma HiddenCallKeeps<Op, Eff>(h: seq<Entry<Op, Eff>>, ts: Clock, op: Op, eff: Eff, target: Clock)
    requires !Leq(ts, target) && (h != [] ==> h[|h| - 1].ts.Keys == ts.Keys) && KeepsOnlyVisible(h, target)
    ensures KeepsOnlyVisible(Logged(h, ts, op, eff), target)
  {
    var h' := Logged(h, ts, op, eff);
    LoggedIs(h, ts, op, eff);
    KeptIsLast(h, target);
    if h != [] && h[|h| - 1].ts == ts {
      assert h'[..|h| - 1] == h[..|h| - 1];
      assert Kept(h', target) == Kept(h'[..|h| - 1], target) == Kept(h, target);
      forall i | 0 <= i < Kept(h', target) ensures Leq(h'[i].ts, target) { SameEntry(h, h', i); }
    } else {
      assert h'[..|h|] == h;
    }
  }

  /** Every entry that a rebuild to the target undoes is undone completely. */
  ghost predicate AllReverse<S, Op, Eff>(kind: Kind<S, Op, Eff>, s: S, h: seq<Entry<Op, Eff>>, target: Clock) {
    forall i :: Kept(h, target) <= i < |h| ==> Reverses(kind, Replay(kind, s, h[..i]), h[i])
  }

  /** A rebuild in terms of the calls: after any calls over the same ids of which none at most the target comes
      after one that is not, it reaches the state after applying, in order, exactly the operations of the calls
      made at clocks at most the target. */
  lemma RebuildKeepsVisibleCalls<S, Op, Eff>(kind: Kind<S, Op, Eff>, s: S, calls: seq<Call<Op>>, ids: set<int>, target: Clock)
    requires OverSame(calls, ids) && VisibleFirst(calls, target) && AllReverse(kind, s, HistoryOf(kind, s, calls), target)
    ensures Rebuilt(kind, ApplyOps(kind, s, OpsOf(calls)), HistoryOf(kind, s, calls), target).state
         == ApplyOps(kind, s, OpsOf(VisibleCalls(calls, target)))
  {
    var h := HistoryOf(kind, s, calls);
    HistoryReplays(kind, s, calls);
    RebuildUndoesSuffix(kind, Replay(kind, s, h), h, target);
    UndoneIsReplay(kind, s, h, Kept(h, target));
    KeepsVisible(kind, s, calls, ids, target);
    KeptIsVisibleExactly(h, target);
    ReplayIsAllOps(kind, s, Visible(h, target));
    VisibleOps(kind, s, calls, ids, target);
  }

  // ---------------------------------------------------------------- calls at growing clocks

  /** No clock is below the one before. */
  ghost predicate Ordered<Op>(calls: seq<Call<Op>>) {
    forall i, j :: 0 <= i < j < |calls| ==> Leq(calls[i].ts, calls[j].ts)
  }

  ghost predicate Growing<Op>(calls: seq<Call<Op>>) {
    forall i, j :: 0 <= i < j < |calls| ==> Less(calls[i].ts, calls[j].ts)
  }

  lemma OrderedIsVisibleFirst<Op>(calls: seq<Call<Op>>, ids: set<int>, target: Clock)
    requires OverSame(calls, ids) && target.Keys == ids && Ordered(calls)
    ensures VisibleFirst(calls, target)
  {
    forall i, j | 0 <= i < j < |calls| && Leq(calls[j].ts, target) ensures Leq(calls[i].ts, target) {
      LeqIsPartialOrder(calls[i].ts, calls[j].ts, target);
    }
  }

  /** The effect of every call undoes it where it was made. */
  ghost predicate AllUndo<S, Op, Eff>(kind: Kind<S, Op, Eff>, s: S, calls: seq<Call<Op>>) {
    forall j :: 0 <= j < |calls| ==> EffectUndoes(kind, ApplyOps(kind, s, OpsOf(calls[..j])), calls[j].op)
  }

  /** The entry of the last call when it shares it with no other. */
  function OwnEntry<S, Op, Eff>(kind: Kind<S, Op, Eff>, s: S, calls: seq<Call<Op>>): Entry<Op, Eff>
    requires calls != []
  {
    var front, last := calls[..|calls| - 1], calls[|calls| - 1];
    Entry(last.ts, [last.op], [kind.effect(ApplyOps(kind, s, OpsOf(front)), last.op)])
  }

  /** At a later clock every call has an entry of its own. */
  lemma GrowingStep<S, Op, Eff>(kind: Kind<S, Op, Eff>, s: S, calls: seq<Call<Op>>, ids: set<int>)
    requires calls != [] && OverSame(calls, ids) && Growing(calls)
    ensures HistoryOf(kind, s, calls) == HistoryOf(kind, s, calls[..|calls| - 1]) + [OwnEntry(kind, s, calls)]
  {
    var n := |calls| - 1;
    var h := HistoryOf(kind, s, calls[..n]);
    if h != [] {
      var j := EntryIsCall(kind, s, calls[..n], ids, |h| - 1);
      assert Less(calls[j].ts, calls[n].ts);
    }
    LoggedIs(h, calls[n].ts, calls[n].op, kind.effect(ApplyOps(kind, s, OpsOf(calls[..n])), calls[n].op));
  }

  lemma AllUndoFront<S, Op, Eff>(kind: Kind<S, Op, Eff>, s: S, calls: seq<Call<Op>>)
    requires calls != [] && AllUndo(kind, s, calls)
    ensures AllUndo(kind, s, calls[..|calls| - 1])
    ensures EffectUndoes(kind, ApplyOps(kind, s, OpsOf(calls[..|calls| - 1])), calls[|calls| - 1].op)
  {
    var front := calls[..|calls| - 1];
    forall j | 0 <= j < |front| ensures EffectUndoes(kind, ApplyOps(kind, s, OpsOf(front[..j])), front[j].op) {
      assert front[..j] == calls[..j];
      assert EffectUndoes(kind, ApplyOps(kind, s, OpsOf(calls[..j])), calls[j].op);
    }
  }

  lemma OwnEntryReverses<S, Op, Eff>(kind: Kind<S, Op, Eff>, s: S, calls: seq<Call<Op>>)
    requires calls != [] && AllUndo(kind, s, calls)
    ensures Reverses(kind, ApplyOps(kind, s, OpsOf(calls[..|calls| - 1])), OwnEntry(kind, s, calls))
  {
    var before, e := ApplyOps(kind, s, OpsOf(calls[..|calls| - 1])), OwnEntry(kind, s, calls);
    AllUndoFront(kind, s, calls);
    assert e.ops[..0] == [];
    assert EffectsOf(kind, before, e.ops) == [kind.effect(before, e.ops[0])];
    OneEffectReverses(kind, before, e);
  }

  ghost predicate ReversesAt<S, Op, Eff>(kind: Kind<S, Op, Eff>, s: S, h: seq<Entry<Op, Eff>>, i: nat) {
    i < |h| && Reverses(kind, Replay(kind, s, h[..i]), h[i])
  }

  lemma ReversesMore<S, Op, Eff>(kind: Kind<S, Op, Eff>, s: S, h: seq<Entry<Op, Eff>>, e: Entry<Op, Eff>, i: nat)
    requires if i < |h| then ReversesAt(kind, s, h, i) else i == |h| && Reverses(kind, Replay(kind, s, h), e)
    ensures ReversesAt(kind, s, h + [e], i)
  {
    assert (h + [e])[..i] == h[..i];
    assert i == |h| ==> h[..i] == h;
  }

  lemma {:induction false} GrowingReverses<S, Op, Eff>(kind: Kind<S, Op, Eff>, s: S, calls: seq<Call<Op>>, ids: set<int>, i: nat)
    requires OverSame(calls, ids) && Growing(calls) && AllUndo(kind, s, calls) && i < |HistoryOf(kind, s, calls)|
    ensures ReversesAt(kind, s, HistoryOf(kind, s, calls), i)
    decreases |calls|
  {
    var front := calls[..|calls| - 1];
    GrowingStep(kind, s, calls, ids);
    AllUndoFront(kind, s, calls);
    if i < |HistoryOf(kind, s, front)| {
      GrowingReverses(kind, s, front, ids, i);
    } else {
      HistoryReplays(kind, s, front);
      OwnEntryReverses(kind, s, calls);
    }
    ReversesMore(kind, s, HistoryOf(kind, s, front), OwnEntry(kind, s, calls), i);
  }

  lemma GrowingAllReverse<S, Op, Eff>(kind: Kind<S, Op, Eff>, s: S, calls: seq<Call<Op>>, ids: set<int>, target: Clock)
    requires OverSame(calls, ids) && Growing(calls) && AllUndo(kind, s, calls)
    ensures AllReverse(kind, s, HistoryOf(kind, s, calls), target)
  {
    var h := HistoryOf(kind, s, calls);
    forall i | Kept(h, target) <= i < |h| ensures Reverses(kind, Replay(kind, s, h[..i]), h[i]) {
      GrowingReverses(kind, s, calls, ids, i);
      assert ReversesAt(kind, s, h, i);
    }
  }

  /** For every sequence of calls at strictly growing clocks over one set of ids, whose effects undo them: a
      rebuild to any target over these ids reaches the state after applying, in order, exactly the operations
      of the calls made at clocks at most the target. */
  lemma GrowingCallsRebuild<S, Op, Eff>(kind: Kind<S, Op, Eff>, s: S, calls: seq<Call<Op>>, ids: set<int>, target: Clock)
    requires OverSame(calls, ids) && target.Keys == ids && Growing(calls) && AllUndo(kind, s, calls)
    ensures Rebuilt(kind, ApplyOps(kind, s, OpsOf(calls)), HistoryOf(kind, s, calls), target).state
         == ApplyOps(kind, s, OpsOf(VisibleCalls(calls, target)))
  {
    OrderedIsVisibleFirst(calls, ids, target);
    GrowingAllReverse(kind, s, calls, ids, target);
    RebuildKeepsVisibleCalls(kind, s, calls, ids, target);
  }

  // ---------------------------------------------------------------- counters

  /** What the operations change of a counter. */
  function NetChange(ops: seq<C.Op>): int {
    if ops == [] then 0
    else NetChange(ops[..|ops| - 1]) + match ops[|ops| - 1] case Increment(c) => c case Decrement(c) => -c
  }

  lemma {:induction false} AppliedIsNet(value: int, ops: seq<C.Op>)
    ensures ApplyOps(C.CounterKind(), value, ops) == value + NetChange(ops)
    decreases |ops|
  {
    if ops != [] {
      AppliedIsNet(value, ops[..|ops| - 1]);
      assert C.CounterKind().apply(value + NetChange(ops[..|ops| - 1]), ops[|ops| - 1]) == C.Apply(value + NetChange(ops[..|ops| - 1]), ops[|ops| - 1]);
    }
  }

  /** A counter that was called at clocks that never go down, equal ones included, holds after a rebuild its
      starting value and the changes of exactly the calls made at clocks at most the target. */
  lemma CounterCallsRebuild(value: int, calls: seq<Call<C.Op>>, ids: set<int>, target: Clock)
    requires OverSame(calls, ids) && target.Keys == ids && Ordered(calls)
    ensures Rebuilt(C.CounterKind(), ApplyOps(C.CounterKind(), value, OpsOf(calls)), HistoryOf(C.CounterKind(), value, calls), target).state
         == value + NetChange(OpsOf(VisibleCalls(calls, target)))
  {
    var h := HistoryOf(C.CounterKind(), value, calls);
    OrderedIsVisibleFirst(calls, ids, target);
    HistoryReplays(C.CounterKind(), value, calls);
    forall i: nat | i < |h| ensures Reverses(C.CounterKind(), Replay(C.CounterKind(), value, h[..i]), h[i]) {
      C.EntryReverses(Replay(C.CounterKind(), value, h[..i]), h[i]);
    }
    RebuildKeepsVisibleCalls(C.CounterKind(), value, calls, ids, target);
    AppliedIsNet(value, OpsOf(VisibleCalls(calls, target)));
  }

  // ---------------------------------------------------------------- sets

  /** A set that was called at strictly growing clocks, with fresh uniques in every add, holds after a rebuild
      what exactly the calls made at clocks at most the target leave. */
  lemma SetCallsRebuild(s: A.Elems, calls: seq<Call<A.Op>>, ids: set<int>, target: Clock)
    requires OverSame(calls, ids) && target.Keys == ids && Growing(calls) && A.NoneEmpty(s)
    requires forall j :: 0 <= j < |calls| ==> A.Fresh(ApplyOps(SetKind(), s, OpsOf(calls[..j])), calls[j].op)
    ensures Rebuilt(SetKind(), ApplyOps(SetKind(), s, OpsOf(calls)), HistoryOf(SetKind(), s, calls), target).state
         == ApplyOps(SetKind(), s, OpsOf(VisibleCalls(calls, target)))
  {
    forall j | 0 <= j < |calls| ensures EffectUndoes(SetKind(), ApplyOps(SetKind(), s, OpsOf(calls[..j])), calls[j].op) {
      OpsNeverLeaveEmpty(s, OpsOf(calls[..j]));
      A.UndoInvertsApply(ApplyOps(SetKind(), s, OpsOf(calls[..j])), calls[j].op);
    }
    GrowingCallsRebuild(SetKind(), s, calls, ids, target);
  }
}
