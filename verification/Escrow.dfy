/** Runs of N bounded counters under causal delivery: escrow safety and agreement.

    The argument is global.  A replica's view of the rights of x is the sum of the effects it has
    applied; only operations issued by x lower the rights of x; when one of them arrives, the
    receiver has seen the same operations of x as x itself had, and possibly more that give rights
    to x.  So the receiver's view of x is never below the view x paid from. */
module Escrow {
  import opened GoMaps
  import opened CausalNet
  import opened Options
  import opened BoundedCounter

  /** What the source demands of callers: one feasible SetCounterBound that comes first, changes and
      transfers that are not negative, transfers issued by the replica that gives, and no operation
      at a replica that has not yet received the bound. */
  ghost predicate Allowed(ids: seq<int>, w: World<BC, Op>, r: nat, upd: Upd) {
    r < |w.reps| && r < |ids| &&
    match upd
    case SetCounterBound(b, eq, v) => w.log == [] && v >= b
    case Increment(c) => c >= 0 && w.reps[r].seen != {}
    case Decrement(c) => c >= 0 && w.reps[r].seen != {}
    case TransferCounter(t, from, to) => t >= 0 && from == ids[r] && w.reps[r].seen != {}
  }

  ghost function Counter(ids: seq<int>): Protocol<BC, Upd, Op>
    requires |ids| > 0
  {
    Protocol(
      (r: nat) => Initial(ids, if r < |ids| then ids[r] else 0),
      (w: World<BC, Op>, r: nat, upd: Upd) => Allowed(ids, w, r, upd),
      (s: BC, upd: Upd) => Prepare(s, upd),
      (s: BC, op: Op) => Apply(ids, s, op))
  }

  ghost function Run(ids: seq<int>, steps: seq<Step<Upd>>): World<BC, Op>
    requires |ids| > 0
  {
    Exec(Counter(ids), |ids|, steps)
  }

  // ---------------------------------------------------------------- rights as sums of effects

  ghost function Delta(ids: seq<int>, op: Op, x: int): int
    requires |ids| > 0
  {
    match op
    case DownInc(c, id) => if id == x then c else 0
    case DownDec(c, id) => if id == x then -c else 0
    case DownInit(b, eq, v) => ShareOf(ids, v - b, x)
    case DownTransfer(t, from, to) => (if to == x then t else 0) - (if from == x then t else 0)
  }

  /** The rights of x after exactly the operations in s, looking at the first k of the log. */
  ghost function Rights(ids: seq<int>, log: seq<Msg<Op>>, s: set<nat>, x: int, k: nat): int
    requires |ids| > 0 && k <= |log|
  {
    if k == 0 then 0
    else Rights(ids, log, s, x, k - 1) + if k - 1 in s then Delta(ids, log[k - 1].op, x) else 0
  }

  ghost function View(ids: seq<int>, log: seq<Msg<Op>>, s: set<nat>, x: int): int
    requires |ids| > 0
  {
    Rights(ids, log, s, x, |log|)
  }

  lemma {:induction false} RightsAdd(ids: seq<int>, log: seq<Msg<Op>>, s: set<nat>, i: nat, x: int, k: nat)
    requires |ids| > 0 && k <= |log| && i < |log| && i !in s
    ensures Rights(ids, log, s + {i}, x, k) == Rights(ids, log, s, x, k) + if i < k then Delta(ids, log[i].op, x) else 0
  {
    if k > 0 { RightsAdd(ids, log, s, i, x, k - 1); }
  }

  lemma {:induction false} RightsGrow(ids: seq<int>, log: seq<Msg<Op>>, m: Msg<Op>, s: set<nat>, x: int, k: nat)
    requires |ids| > 0 && k <= |log|
    ensures Rights(ids, log + [m], s, x, k) == Rights(ids, log, s, x, k)
  {
    if k > 0 { RightsGrow(ids, log, m, s, x, k - 1); }
  }

  lemma ViewGrows(ids: seq<int>, log: seq<Msg<Op>>, m: Msg<Op>, s: set<nat>, x: int)
    requires |ids| > 0 && |log| !in s
    ensures View(ids, log + [m], s, x) == View(ids, log, s, x)
  {
    RightsGrow(ids, log, m, s, x, |log|);
  }

  lemma {:induction false} RightsMonotone(ids: seq<int>, log: seq<Msg<Op>>, s: set<nat>, t: set<nat>, x: int, k: nat)
    requires |ids| > 0 && k <= |log| && s <= t
    requires forall i :: i in t - s && i < |log| ==> Delta(ids, log[i].op, x) >= 0
    ensures Rights(ids, log, s, x, k) <= Rights(ids, log, t, x, k)
  {
    if k > 0 { RightsMonotone(ids, log, s, t, x, k - 1); }
  }

  lemma {:induction false} NoRights(ids: seq<int>, log: seq<Msg<Op>>, x: int, k: nat)
    requires |ids| > 0 && k <= |log|
    ensures Rights(ids, log, {}, x, k) == 0
  {
    if k > 0 { NoRights(ids, log, x, k - 1); }
  }

  // ---------------------------------------------------------------- what the log looks like

  ghost predicate WellIssued(ids: seq<int>, m: Msg<Op>) {
    m.origin < |ids| &&
    match m.op
    case DownInc(c, id) => c >= 0 && id == ids[m.origin]
    case DownDec(c, id) => c >= 0 && id == ids[m.origin]
    case DownInit(b, eq, v) => v >= b
    case DownTransfer(t, from, to) => t >= 0 && from == ids[m.origin]
  }

  function Cost(op: Op): int {
    match op
    case DownDec(c, _) => c
    case DownTransfer(t, _, _) => t
    case _ => 0
  }

  ghost predicate EscrowLog(ids: seq<int>, log: seq<Msg<Op>>)
  {
    && SortedIds(ids) && CausalLog(log)
    && (forall i :: 0 <= i < |log| ==> WellIssued(ids, log[i]))
    && (forall i :: 0 <= i < |log| ==> (log[i].op.DownInit? <==> i == 0))
    && (forall i :: 0 < i < |log| ==> 0 in log[i].deps)
    && (forall i :: 0 <= i < |log| && Spends(log[i].op) ==> Cost(log[i].op) <= View(ids, log, log[i].deps, ids[log[i].origin]))
  }

  predicate Spends(op: Op) {
    op.DownDec? || op.DownTransfer?
  }

  /** Only operations issued by x lower the rights of x, and by no more than their cost. */
  lemma OnlyOwnerLowers(ids: seq<int>, m: Msg<Op>, x: int)
    requires SortedIds(ids) && WellIssued(ids, m)
    ensures Delta(ids, m.op, x) < 0 ==> Spends(m.op) && ids[m.origin] == x
    ensures Delta(ids, m.op, x) >= -Cost(m.op)
  {
    if m.op.DownInit? { SplitIsFair(map[], ids, m.op.initialValue - m.op.bound, x); }
  }

  ghost predicate SpendsOf(ids: seq<int>, log: seq<Msg<Op>>, s: set<nat>, x: int, i: nat)
  {
    0 <= i < |log| && i in s && Spends(log[i].op) && log[i].origin < |ids| && ids[log[i].origin] == x
  }

  lemma {:induction false} LastSpender(ids: seq<int>, log: seq<Msg<Op>>, s: set<nat>, x: int, k: nat) returns (last: nat)
    requires k <= |log| && exists i: nat :: i < k && SpendsOf(ids, log, s, x, i)
    ensures last < k && SpendsOf(ids, log, s, x, last)
    ensures forall i: nat :: last < i < k ==> !SpendsOf(ids, log, s, x, i)
  {
    if SpendsOf(ids, log, s, x, k - 1) {
      last := k - 1;
    } else {
      last := LastSpender(ids, log, s, x, k - 1);
    }
  }

  /** Any causally closed set of operations leaves nobody with negative rights. */
  lemma ClosedIsSolvent(ids: seq<int>, log: seq<Msg<Op>>, s: set<nat>, x: int)
    requires EscrowLog(ids, log) && Closed(log, s)
    ensures View(ids, log, s, x) >= 0
  {
    forall i: nat | i < |log| ensures i in s && Delta(ids, log[i].op, x) < 0 ==> SpendsOf(ids, log, s, x, i) {
      OnlyOwnerLowers(ids, log[i], x);
    }
    if exists i: nat :: i < |log| && SpendsOf(ids, log, s, x, i) {
      var last := LastSpender(ids, log, s, x, |log|);
      var paid := log[last].deps + {last};
      RightsMonotone(ids, log, paid, s, x, |log|);
      RightsAdd(ids, log, log[last].deps, last, x, |log|);
      OnlyOwnerLowers(ids, log[last], x);
    } else {
      NoRights(ids, log, x, |log|);
      RightsMonotone(ids, log, {}, s, x, |log|);
    }
  }

  /** When operation i can be delivered, the receiver's view of the issuer covers what the issuer paid. */
  lemma ReceiverCovers(ids: seq<int>, log: seq<Msg<Op>>, s: set<nat>, i: nat)
    requires EscrowLog(ids, log) && Closed(log, s)
    requires i < |log| && i !in s && log[i].deps <= s && Spends(log[i].op)
    ensures Cost(log[i].op) <= View(ids, log, s, ids[log[i].origin])
  {
    var x := ids[log[i].origin];
    forall j | j in s - log[i].deps && j < |log| ensures Delta(ids, log[j].op, x) >= 0 {
      OnlyOwnerLowers(ids, log[j], x);
      if log[j].origin == log[i].origin { SameSourceInStep(log, s, i, j); }
    }
    RightsMonotone(ids, log, log[i].deps, s, x, |log|);
  }

  // ---------------------------------------------------------------- the invariant of a run

  /** A replica's state is what the operations it has seen add up to. */
  ghost predicate Tracks(ids: seq<int>, log: seq<Msg<Op>>, r: nat, rep: Replica<BC>)
    requires |ids| > 0 && r < |ids|
  {
    && rep.state.self == ids[r]
    && (forall x :: Get(rep.state.perms, x) == View(ids, log, rep.seen, x))
    && (forall x :: x in rep.state.perms <==> x in ids || exists i :: i in rep.seen && Credits(log, i, x))
    && (if rep.seen == {} then rep.state == Initial(ids, ids[r])
        else 0 < |log| && log[0].op.DownInit? && Balanced(rep.state, log[0].op.bound)
             && rep.state.limit == log[0].op.bound + if log[0].op.compEq then 0 else 1)
  }

  ghost predicate Credits(log: seq<Msg<Op>>, i: nat, x: int) {
    i < |log| && log[i].op.DownTransfer? && log[i].op.toID == x
  }

  ghost predicate EscrowInv(ids: seq<int>, w: World<BC, Op>) {
    && CausalWorld(w) && EscrowLog(ids, w.log) && |w.reps| == |ids|
    && forall r :: 0 <= r < |ids| ==> Tracks(ids, w.log, r, w.reps[r])
  }

  lemma ApplyDelta(ids: seq<int>, s: BC, op: Op, x: int)
    requires SortedIds(ids) && Accepted(s, op)
    ensures Get(Apply(ids, s, op).perms, x) == Get(s.perms, x) + Delta(ids, op, x)
  {
    if op.DownInit? { SplitIsFair(s.perms, ids, op.initialValue - op.bound, x); }
  }

  lemma InitialSum(ids: seq<int>, self: int)
    ensures Sum(Initial(ids, self).perms) == 0
  {
    SumAtMost(Initial(ids, self).perms, 0);
    SumNonNegative(Initial(ids, self).perms);
  }

  /** Applying an accepted operation keeps the state in step with what was seen. */
  lemma ApplyTracks(ids: seq<int>, log: seq<Msg<Op>>, r: nat, rep: Replica<BC>, i: nat)
    requires SortedIds(ids) && r < |ids| && Tracks(ids, log, r, rep)
    requires i < |log| && i !in rep.seen && WellIssued(ids, log[i]) && Accepted(rep.state, log[i].op)
    requires log[i].op.DownInit? <==> i == 0
    requires i == 0 <==> rep.seen == {}
    ensures Tracks(ids, log, r, Replica(Apply(ids, rep.state, log[i].op), rep.seen + {i}))
  {
    var op := log[i].op;
    var s' := Apply(ids, rep.state, op);
    forall x ensures Get(s'.perms, x) == View(ids, log, rep.seen + {i}, x) {
      ApplyDelta(ids, rep.state, op, x);
      RightsAdd(ids, log, rep.seen, i, x, |log|);
    }
    forall x ensures x in s'.perms <==> x in ids || exists j :: j in rep.seen + {i} && Credits(log, j, x) {
      ApplyKeys(ids, rep.state, log[i], x);
      if op.DownTransfer? && op.toID == x { assert Credits(log, i, x); }
    }
    if i == 0 {
      InitialSum(ids, ids[r]);
      InitBalances(ids, rep.state, op.bound, op.compEq, op.initialValue);
      SplitGives(rep.state.perms, ids, op.initialValue - op.bound);
    } else {
      ApplyConserves(ids, rep.state, op, log[0].op.bound);
    }
  }

  lemma ApplyKeys(ids: seq<int>, s: BC, m: Msg<Op>, x: int)
    requires SortedIds(ids) && WellIssued(ids, m) && Accepted(s, m.op)
    requires forall id :: id in ids ==> id in s.perms
    ensures x in Apply(ids, s, m.op).perms <==> x in s.perms || (m.op.DownTransfer? && m.op.toID == x)
  {
    if m.op.DownInit? { SplitIsFair(s.perms, ids, m.op.initialValue - m.op.bound, x); }
  }

  lemma TracksGrows(ids: seq<int>, log: seq<Msg<Op>>, m: Msg<Op>, r: nat, rep: Replica<BC>)
    requires |ids| > 0 && r < |ids| && Tracks(ids, log, r, rep) && Closed(log, rep.seen)
    ensures Tracks(ids, log + [m], r, rep)
  {
    forall x ensures Get(rep.state.perms, x) == View(ids, log + [m], rep.seen, x) {
      ViewGrows(ids, log, m, rep.seen, x);
    }
    forall x, i | i in rep.seen ensures Credits(log, i, x) <==> Credits(log + [m], i, x) {
    }
  }

  /** A new message keeps the log well-formed: its cost is covered by its own dependencies. */
  lemma LogGrows(ids: seq<int>, w: World<BC, Op>, r: nat, op: Op)
    requires EscrowInv(ids, w) && r < |ids|
    requires var m := Msg(op, r, w.reps[r].seen); WellIssued(ids, m) && CausalLog(w.log + [m])
    requires op.DownInit? <==> w.log == []
    requires w.log == [] <==> w.reps[r].seen == {}
    requires Spends(op) ==> Cost(op) <= Get(w.reps[r].state.perms, ids[r])
    ensures EscrowLog(ids, w.log + [Msg(op, r, w.reps[r].seen)])
  {
    var m := Msg(op, r, w.reps[r].seen);
    var log' := w.log + [m];
    forall i | 0 <= i < |log'| && Spends(log'[i].op)
      ensures Cost(log'[i].op) <= View(ids, log', log'[i].deps, ids[log'[i].origin])
    {
      ViewGrows(ids, w.log, m, log'[i].deps, ids[log'[i].origin]);
    }
    if w.log != [] { var j :| j in w.reps[r].seen; assert Closed(w.log, w.reps[r].seen); }
  }

  lemma IssueKeeps(ids: seq<int>, w: World<BC, Op>, r: nat, upd: Upd)
    requires EscrowInv(ids, w) && CanIssue(Counter(ids), w, r, upd)
    ensures EscrowInv(ids, Take(Counter(ids), w, Issue(r, upd)))
  {
    var rep := w.reps[r];
    var op := Prepare(rep.state, upd).value;
    var m := Msg(op, r, rep.seen);
    TakeKeepsCausality(Counter(ids), w, Issue(r, upd));
    assert Counter(ids).allowed(w, r, upd);
    assert Counter(ids).prepare(rep.state, upd) == Prepare(rep.state, upd);
    assert Closed(w.log, rep.seen);
    ClosedIsSolvent(ids, w.log, rep.seen, ids[r]);
    LogGrows(ids, w, r, op);
    forall q | 0 <= q < |ids| ensures Tracks(ids, w.log + [m], q, w.reps[q]) {
      TracksGrows(ids, w.log, m, q, w.reps[q]);
    }
    ApplyTracks(ids, w.log + [m], r, rep, |w.log|);
  }

  lemma DeliverAccepted(ids: seq<int>, w: World<BC, Op>, r: nat, i: nat)
    requires EscrowInv(ids, w) && CanDeliver(w, r, i)
    ensures Accepted(w.reps[r].state, w.log[i].op)
    ensures Spends(w.log[i].op) ==> Cost(w.log[i].op) <= Get(w.reps[r].state.perms, ids[w.log[i].origin])
  {
    assert Tracks(ids, w.log, r, w.reps[r]);
    assert w.log[i].origin != r;
    if Spends(w.log[i].op) { ReceiverCovers(ids, w.log, w.reps[r].seen, i); }
  }

  lemma DeliverKeeps(ids: seq<int>, w: World<BC, Op>, r: nat, i: nat)
    requires EscrowInv(ids, w) && CanDeliver(w, r, i)
    ensures EscrowInv(ids, Take(Counter(ids), w, Deliver(r, i)))
  {
    var rep := w.reps[r];
    TakeKeepsCausality(Counter(ids), w, Deliver(r, i));
    DeliverAccepted(ids, w, r, i);
    if rep.seen != {} {
      var j :| j in rep.seen;
      assert 0 in rep.seen;
    }
    ApplyTracks(ids, w.log, r, rep, i);
  }

  lemma {:induction false} RunKeepsEscrow(ids: seq<int>, steps: seq<Step<Upd>>)
    requires SortedIds(ids)
    ensures EscrowInv(ids, Run(ids, steps))
  {
    if steps == [] {
      forall x ensures View(ids, [], {}, x) == 0 {}
    } else {
      var before := steps[..|steps| - 1];
      RunKeepsEscrow(ids, before);
      var w := Run(ids, before);
      match steps[|steps| - 1]
      case Issue(r, upd) => if CanIssue(Counter(ids), w, r, upd) { IssueKeeps(ids, w, r, upd); }
      case Deliver(r, i) => if CanDeliver(w, r, i) { DeliverKeeps(ids, w, r, i); }
    }
  }

  // ---------------------------------------------------------------- the theorems

  /** The bound that the run has installed at a replica; before that, the zero counter is its own floor. */
  ghost function Floor(w: World<BC, Op>, r: nat): int
    requires r < |w.reps|
  {
    if w.reps[r].seen != {} && |w.log| > 0 && w.log[0].op.DownInit? then w.log[0].op.bound else 0
  }

  /** Escrow safety: in every run, at every replica and in its view of every replica, rights are never
      negative, they add up to the distance between the value and the bound, and the value is never
      below the bound. */
  lemma EscrowSafety(ids: seq<int>, steps: seq<Step<Upd>>, r: nat)
    requires SortedIds(ids) && r < |ids|
    ensures var w := Run(ids, steps);
            && r < |w.reps|
            && var s := w.reps[r].state;
               && (forall x :: Get(s.perms, x) >= 0)
               && Balanced(s, Floor(w, r))
               && s.value >= Floor(w, r)
               && (Floor(w, r) == s.limit || (0 < |w.log| && w.log[0].op.DownInit? && !w.log[0].op.compEq && s.limit == Floor(w, r) + 1))
  {
    RunKeepsEscrow(ids, steps);
    var w := Run(ids, steps);
    var s := w.reps[r].state;
    assert Tracks(ids, w.log, r, w.reps[r]);
    forall x ensures Get(s.perms, x) >= 0 { ClosedIsSolvent(ids, w.log, w.reps[r].seen, x); }
    forall x | x in s.perms ensures s.perms[x] >= 0 { assert Get(s.perms, x) >= 0; }
    SumNonNegative(s.perms);
    if w.reps[r].seen == {} { InitialSum(ids, ids[r]); }
  }

  /** With CompEq, the value stays at or above the limit in every run. */
  lemma ValueAboveLimit(ids: seq<int>, steps: seq<Step<Upd>>, r: nat)
    requires SortedIds(ids) && r < |ids|
    requires var w := Run(ids, steps); |w.log| > 0 && w.log[0].op.DownInit? ==> w.log[0].op.compEq
    ensures var w := Run(ids, steps); r < |w.reps| && w.reps[r].state.value >= w.reps[r].state.limit
  {
    EscrowSafety(ids, steps, r);
    RunKeepsEscrow(ids, steps);
  }

  /** Escrow agreement, first half: what its source accepted is refused nowhere, and leaves the
      donor's rights non-negative wherever it is delivered. */
  lemma NeverRefused(ids: seq<int>, steps: seq<Step<Upd>>, r: nat, i: nat)
    requires SortedIds(ids) && CanDeliver(Run(ids, steps), r, i)
    ensures var w := Run(ids, steps);
            && Accepted(w.reps[r].state, w.log[i].op)
            && var s' := Take(Counter(ids), w, Deliver(r, i)).reps[r].state;
               forall x :: Get(s'.perms, x) >= 0
  {
    RunKeepsEscrow(ids, steps);
    DeliverAccepted(ids, Run(ids, steps), r, i);
    var steps' := steps + [Deliver(r, i)];
    assert steps'[..|steps|] == steps;
    EscrowSafety(ids, steps', r);
  }

  /** Escrow agreement, second half: replicas that have seen the same operations, in whatever order,
      have the same rights, limit and value. */
  lemma SameSeenSameCounter(ids: seq<int>, steps: seq<Step<Upd>>, q: nat, r: nat)
    requires SortedIds(ids) && q < |ids| && r < |ids|
    requires var w := Run(ids, steps); |w.reps| == |ids| && w.reps[q].seen == w.reps[r].seen
    ensures var w := Run(ids, steps);
            && w.reps[q].state.perms == w.reps[r].state.perms
            && w.reps[q].state.limit == w.reps[r].state.limit
            && w.reps[q].state.value == w.reps[r].state.value
  {
    RunKeepsEscrow(ids, steps);
    var w := Run(ids, steps);
    var a, b := w.reps[q].state, w.reps[r].state;
    assert Tracks(ids, w.log, q, w.reps[q]) && Tracks(ids, w.log, r, w.reps[r]);
    forall x ensures (x in a.perms <==> x in b.perms) && Get(a.perms, x) == Get(b.perms, x) {}
    assert a.perms == b.perms by {
      forall x | x in a.perms ensures x in b.perms && a.perms[x] == b.perms[x] {
        assert Get(a.perms, x) == Get(b.perms, x);
      }
    }
  }

  // ---------------------------------------------------------------- where the obligations matter

  /** When an accepted operation leaves rights that were not negative so: an increment must not take back
      more than its owner holds, a decrement always does, and a transfer must neither take more than the
      donor has (which only its own replica checks) nor, being negative, more than the receiver has
      (which nobody checks). */
  lemma RightsStayExactly(ids: seq<int>, s: BC, op: Op)
    requires |ids| > 0 && NoDebt(s.perms) && !op.DownInit? && Accepted(s, op)
    ensures NoDebt(Apply(ids, s, op).perms) <==> RightsSuffice(s, op)
  {
    match op
    case DownInc(c, id) => RightsAfter(s.perms, id, Get(s.perms, id) + c);
    case DownDec(c, id) => RightsAfter(s.perms, id, Get(s.perms, id) - c);
    case DownTransfer(t, from, to) => RightsMove(s.perms, from, to, t);
  }

  ghost predicate NoDebt(perms: map<int, int>) {
    forall x :: Get(perms, x) >= 0
  }

  lemma RightsAfter(perms: map<int, int>, id: int, v: int)
    requires NoDebt(perms)
    ensures NoDebt(perms[id := v]) <==> v >= 0
  {
    var after := perms[id := v];
    assert Get(after, id) == v;
    forall x | x != id ensures Get(after, x) >= 0 {
      assert Get(perms, x) >= 0;
    }
  }

  lemma RightsMove(perms: map<int, int>, from: int, to: int, t: int)
    requires NoDebt(perms)
    ensures var paid := perms[from := Get(perms, from) - t];
            NoDebt(paid[to := Get(paid, to) + t]) <==> from == to || (t <= Get(perms, from) && -t <= Get(perms, to))
  {
    var paid := perms[from := Get(perms, from) - t];
    var done := paid[to := Get(paid, to) + t];
    assert Get(done, to) == Get(perms, to) + (if from == to then 0 else t);
    assert Get(done, from) == Get(perms, from) - (if from == to then 0 else t);
    assert Get(perms, from) >= 0;
    forall x | x != from && x != to ensures Get(done, x) >= 0 {
      assert Get(perms, x) >= 0;
    }
  }

  predicate RightsSuffice(s: BC, op: Op) {
    match op
    case DownInc(c, id) => -c <= Get(s.perms, id)
    case DownTransfer(t, from, to) => from == to || (t <= Get(s.perms, from) && -t <= Get(s.perms, to))
    case _ => true
  }

  /** A transfer of a negative amount passes both guards of its source and takes rights from the receiver. */
  lemma NegativeTransferRobs(ids: seq<int>, s: BC, t: int, to: int)
    requires |ids| > 0 && t > 0 && to != s.self && Get(s.perms, s.self) >= 0
    ensures var upd := TransferCounter(-t, s.self, to);
            && Prepare(s, upd) == Some(DownTransfer(-t, s.self, to))
            && Get(Apply(ids, s, DownTransfer(-t, s.self, to)).perms, to) == Get(s.perms, to) - t
  {
    QuoRem(Get(s.perms, s.self), 2);
  }
}
