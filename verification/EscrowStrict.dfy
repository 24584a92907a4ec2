/** When the value of a bounded counter stays at or above its limit: with a bound that may be reached it
    always does, and with a strict one there is a run of all replicas that goes below. */
module EscrowStrict {
  import opened GoMaps
  import opened CausalNet
  import opened BoundedCounter
  import opened Escrow

  // ---------------------------------------------------------------- the shares add up

  /** What the first m replicas received. */
  ghost function Spent(ids: seq<int>, diff: int, m: nat): int
    requires m <= |ids| && |ids| > 0
  {
    if m == 0 then 0 else Spent(ids, diff, m - 1) + ShareOf(ids, diff, ids[m - 1])
  }

  lemma {:induction false} SpentIsGiven(ids: seq<int>, diff: int, m: nat)
    requires SortedIds(ids) && m <= |ids|
    ensures Spent(ids, diff, m) == Given(Quo(diff, |ids|), Rem(diff, |ids|), m)
  {
    if m > 0 {
      SpentIsGiven(ids, diff, m - 1);
      ReceivedAt(ids, Quo(diff, |ids|), Rem(diff, |ids|), |ids|, m - 1);
    }
  }

  lemma AllSpent(ids: seq<int>, diff: int)
    requires SortedIds(ids) && diff >= 0
    ensures Spent(ids, diff, |ids|) == diff
  {
    SpentIsGiven(ids, diff, |ids|);
    GivenClosed(Quo(diff, |ids|), Rem(diff, |ids|), |ids|);
    QuoRem(diff, |ids|);
  }

  // ---------------------------------------------------------------- a run in which all replicas spend everything

  /** Replica 0 sets the bound; then each replica in turn receives it, spends its share, and replica 0
      receives that. */
  ghost function Drain(ids: seq<int>, b: int, v: int, m: nat): seq<Step<Upd>>
    requires m <= |ids| && |ids| > 0
  {
    if m == 0 then [Issue(0, SetCounterBound(b, false, v))]
    else if m == 1 then Drain(ids, b, v, 0) + [Spend(ids, v - b, 0)]
    else Drain(ids, b, v, m - 1) + [Deliver(m - 1, 0)] + [Spend(ids, v - b, m - 1)] + [Deliver(0, m)]
  }

  ghost function Spend(ids: seq<int>, diff: int, r: nat): Step<Upd>
    requires r < |ids|
  {
    Issue(r, Decrement(ShareOf(ids, diff, ids[r])))
  }

  lemma RunSnoc(ids: seq<int>, steps: seq<Step<Upd>>, step: Step<Upd>)
    requires |ids| > 0
    ensures Run(ids, steps + [step]) == Take(Counter(ids), Run(ids, steps), step)
  {
    assert (steps + [step])[..|steps|] == steps;
  }

  /** After m replicas have spent: replica 0 has seen everything, and the rest nothing. */
  ghost predicate Drained(ids: seq<int>, b: int, v: int, m: nat, w: World<BC, Op>)
    requires m <= |ids| && |ids| > 0
  {
    && |w.reps| == |ids| && |w.log| == m + 1 && w.log[0].op == DownInit(b, false, v)
    && 0 in w.reps[0].seen && (forall i :: i in w.reps[0].seen ==> i <= m)
    && w.reps[0].state.self == ids[0] && w.reps[0].state.limit == b + 1
    && w.reps[0].state.value == v - Spent(ids, v - b, m)
    && (m == 0 ==> Get(w.reps[0].state.perms, ids[0]) == ShareOf(ids, v - b, ids[0]))
    && (forall r :: 0 < r < |ids| && m <= r ==> w.reps[r] == Replica(Initial(ids, ids[r]), {}))
  }

  ghost predicate DrainsAt(ids: seq<int>, b: int, v: int, m: nat)
    requires m <= |ids| && |ids| > 0
  {
    Drained(ids, b, v, m, Run(ids, Drain(ids, b, v, m)))
  }

  lemma InitialShare(ids: seq<int>, r: nat, b: int, v: int)
    requires SortedIds(ids) && r < |ids| && v >= b
    ensures Get(Apply(ids, Initial(ids, ids[r]), DownInit(b, false, v)).perms, ids[r]) == ShareOf(ids, v - b, ids[r])
    ensures ShareOf(ids, v - b, ids[r]) >= 0
  {
    SplitIsFair(Initial(ids, ids[r]).perms, ids, v - b, ids[r]);
  }

  lemma DrainStart(ids: seq<int>, b: int, v: int)
    requires SortedIds(ids) && v >= b
    ensures Drained(ids, b, v, 0, Run(ids, Drain(ids, b, v, 0)))
  {
    var step := Issue(0, SetCounterBound(b, false, v));
    var w := Run(ids, []);
    assert [] + [step] == [step];
    RunSnoc(ids, [], step);
    assert w.reps[0] == Replica(Initial(ids, ids[0]), {});
    assert CanIssue(Counter(ids), w, 0, step.upd);
    InitialShare(ids, 0, b, v);
  }

  lemma DrainFirst(ids: seq<int>, b: int, v: int, m: nat)
    requires SortedIds(ids) && v >= b && m == 1
    ensures DrainsAt(ids, b, v, m)
  {
    var w, step := Run(ids, Drain(ids, b, v, 0)), Spend(ids, v - b, 0);
    DrainStart(ids, b, v);
    RunSnoc(ids, Drain(ids, b, v, 0), step);
    InitialShare(ids, 0, b, v);
    assert CanIssue(Counter(ids), w, 0, step.upd);
  }

  /** The replica receives the bound and spends its share. */
  lemma ReceiveAndSpend(ids: seq<int>, b: int, v: int, r: nat, w: World<BC, Op>)
    requires SortedIds(ids) && v >= b && 0 < r < |ids| && Drained(ids, b, v, r, w) && w.log[0].deps == {}
    ensures var w2 := Take(Counter(ids), Take(Counter(ids), w, Deliver(r, 0)), Spend(ids, v - b, r));
            && |w2.reps| == |ids| && w2.log == w.log + [Msg(DownDec(ShareOf(ids, v - b, ids[r]), ids[r]), r, {0})]
            && forall q :: 0 <= q < |ids| && q != r ==> w2.reps[q] == w.reps[q]
  {
    var rep := w.reps[r];
    assert CanDeliver(w, r, 0);
    var w1 := Take(Counter(ids), w, Deliver(r, 0));
    assert w1.reps[r] == Replica(Apply(ids, rep.state, w.log[0].op), {0});
    InitialShare(ids, r, b, v);
    assert CanIssue(Counter(ids), w1, r, Decrement(ShareOf(ids, v - b, ids[r])));
  }

  /** The three steps of one replica. */
  lemma ThreeSteps(ids: seq<int>, b: int, v: int, r: nat)
    requires |ids| > 0 && 0 < r < |ids|
    ensures var s1 := Drain(ids, b, v, r) + [Deliver(r, 0)];
            var s2 := s1 + [Spend(ids, v - b, r)];
            && Run(ids, s1) == Take(Counter(ids), Run(ids, Drain(ids, b, v, r)), Deliver(r, 0))
            && Run(ids, s2) == Take(Counter(ids), Run(ids, s1), Spend(ids, v - b, r))
            && Run(ids, Drain(ids, b, v, r + 1)) == Take(Counter(ids), Run(ids, s2), Deliver(0, r + 1))
  {
    var s1 := Drain(ids, b, v, r) + [Deliver(r, 0)];
    var s2 := s1 + [Spend(ids, v - b, r)];
    RunSnoc(ids, Drain(ids, b, v, r), Deliver(r, 0));
    RunSnoc(ids, s1, Spend(ids, v - b, r));
    RunSnoc(ids, s2, Deliver(0, r + 1));
  }

  /** One more replica is drained. */
  lemma DrainStep(ids: seq<int>, b: int, v: int, r: nat, m: nat)
    requires SortedIds(ids) && v >= b && 0 < r < |ids| && m == r + 1
    ensures DrainsAt(ids, b, v, r) ==> DrainsAt(ids, b, v, m)
  {
    if DrainsAt(ids, b, v, r) {
      var s1 := Drain(ids, b, v, r) + [Deliver(r, 0)];
      var s2 := s1 + [Spend(ids, v - b, r)];
      ThreeSteps(ids, b, v, r);
      FirstHasNoDeps(ids, Drain(ids, b, v, r));
      if CanDeliver(Run(ids, s2), 0, r + 1) { SpendIsAccepted(ids, b, v, r, s2); }
      DrainNext(ids, b, v, r, Run(ids, Drain(ids, b, v, r)), Run(ids, s1), Run(ids, s2));
    }
  }

  lemma {:induction false} DrainRuns(ids: seq<int>, b: int, v: int, m: nat)
    requires SortedIds(ids) && v >= b && 1 <= m <= |ids|
    ensures DrainsAt(ids, b, v, m)
  {
    if m == 1 {
      DrainFirst(ids, b, v, m);
    } else {
      DrainRuns(ids, b, v, m - 1);
      DrainStep(ids, b, v, m - 1, m);
    }
  }

  lemma DrainNext(ids: seq<int>, b: int, v: int, r: nat, w: World<BC, Op>, w1: World<BC, Op>, w2: World<BC, Op>)
    requires SortedIds(ids) && v >= b && 0 < r < |ids| && Drained(ids, b, v, r, w) && w.log[0].deps == {}
    requires w1 == Take(Counter(ids), w, Deliver(r, 0)) && w2 == Take(Counter(ids), w1, Spend(ids, v - b, r))
    requires CanDeliver(w2, 0, r + 1) ==> Accepted(w2.reps[0].state, w2.log[r + 1].op)
    ensures Drained(ids, b, v, r + 1, Take(Counter(ids), w2, Deliver(0, r + 1)))
  {
    ReceiveAndSpend(ids, b, v, r, w);
    DeliverSpent(ids, b, v, r, w, w2);
  }

  lemma FirstHasNoDeps(ids: seq<int>, steps: seq<Step<Upd>>)
    requires |ids| > 0 && |Run(ids, steps).log| > 0
    ensures Run(ids, steps).log[0].deps == {}
  {
    RunIsCausal(Counter(ids), |ids|, steps);
    var deps := Run(ids, steps).log[0].deps;
    assert forall d :: d in deps ==> d < 0;
  }

  lemma SpendIsAccepted(ids: seq<int>, b: int, v: int, r: nat, steps: seq<Step<Upd>>)
    requires SortedIds(ids) && CanDeliver(Run(ids, steps), 0, r + 1)
    ensures Accepted(Run(ids, steps).reps[0].state, Run(ids, steps).log[r + 1].op)
  {
    RunKeepsEscrow(ids, steps);
    DeliverAccepted(ids, Run(ids, steps), 0, r + 1);
  }

  /** Replica 0 receives what replica r spent. */
  lemma DeliverSpent(ids: seq<int>, b: int, v: int, r: nat, w: World<BC, Op>, w2: World<BC, Op>)
    requires SortedIds(ids) && 0 < r < |ids| && Drained(ids, b, v, r, w) && CanDeliver(w2, 0, r + 1)
    requires |w2.reps| == |ids| && w2.log == w.log + [Msg(DownDec(ShareOf(ids, v - b, ids[r]), ids[r]), r, {0})]
    requires forall q :: 0 <= q < |ids| && q != r ==> w2.reps[q] == w.reps[q]
    requires Accepted(w2.reps[0].state, w2.log[r + 1].op)
    ensures Drained(ids, b, v, r + 1, Take(Counter(ids), w2, Deliver(0, r + 1)))
  {
    var share := ShareOf(ids, v - b, ids[r]);
    var w3 := Take(Counter(ids), w2, Deliver(0, r + 1));
    assert w2.log[r + 1].op == DownDec(share, ids[r]);
    SpendAt(ids, w2.reps[0].state, share, ids[r]);
    assert w3.reps[0] == Replica(Apply(ids, w2.reps[0].state, DownDec(share, ids[r])), w2.reps[0].seen + {r + 1});
    assert w3.log == w2.log;
  }

  lemma SpendAt(ids: seq<int>, s: BC, share: int, id: int)
    requires |ids| > 0 && Accepted(s, DownDec(share, id))
    ensures var s' := Apply(ids, s, DownDec(share, id)); s'.self == s.self && s'.limit == s.limit && s'.value == s.value - share
  {
  }

  // ---------------------------------------------------------------- the theorem

  ghost predicate SetsBound(w: World<BC, Op>, b: int, eq: bool, v: int) {
    |w.log| > 0 && w.log[0].op == DownInit(b, eq, v)
  }

  /** No replica of any run that sets this bound first shows a value below its limit. */
  ghost predicate LimitHolds(ids: seq<int>, b: int, eq: bool, v: int)
    requires SortedIds(ids)
  {
    forall steps, r :: 0 <= r < |Run(ids, steps).reps| && SetsBound(Run(ids, steps), b, eq, v) ==>
      Run(ids, steps).reps[r].state.value >= Run(ids, steps).reps[r].state.limit
  }

  /** For every strict bound and every initial value, in every group of replicas, some run reaches the bound
      itself, one below the limit. */
  lemma StrictBoundIsReached(ids: seq<int>, b: int, v: int)
    requires SortedIds(ids) && v >= b
    ensures var w := Run(ids, Drain(ids, b, v, |ids|));
            SetsBound(w, b, false, v) && |w.reps| == |ids| && w.reps[0].state.value == b && w.reps[0].state.limit == b + 1
  {
    DrainRuns(ids, b, v, |ids|);
    AllSpent(ids, v - b);
  }

  /** The value stays at or above the limit in every run exactly if the bound is not strict. */
  lemma LimitHoldsExactly(ids: seq<int>, b: int, eq: bool, v: int)
    requires SortedIds(ids) && v >= b
    ensures LimitHolds(ids, b, eq, v) <==> eq
  {
    if eq {
      forall steps, r | 0 <= r < |Run(ids, steps).reps| && SetsBound(Run(ids, steps), b, eq, v)
        ensures Run(ids, steps).reps[r].state.value >= Run(ids, steps).reps[r].state.limit
      {
        RunKeepsEscrow(ids, steps);
        ValueAboveLimit(ids, steps, r);
      }
    } else {
      StrictBoundIsReached(ids, b, v);
      var steps := Drain(ids, b, v, |ids|);
      assert SetsBound(Run(ids, steps), b, eq, v);
    }
  }
}
