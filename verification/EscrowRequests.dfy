/** Runs of N bounded counters in terms of what was requested: the value and the rights at every replica are
    what the requests it has seen add up to. */
module EscrowRequests {
  import opened GoMaps
  import opened CausalNet
  import opened BoundedCounter
  import opened Escrow

  /** What a request changes of the value; setting the bound gives the initial value. */
  function Change(upd: Upd): int {
    match upd
    case Increment(c) => c
    case Decrement(c) => -c
    case SetCounterBound(_, _, v) => v
    case TransferCounter(_, _, _) => 0
  }

  /** What a request by the replica with id self changes of the right of x. */
  ghost function Credit(ids: seq<int>, upd: Upd, self: int, x: int): int
    requires |ids| > 0
  {
    match upd
    case Increment(c) => if x == self then c else 0
    case Decrement(c) => if x == self then -c else 0
    case SetCounterBound(b, _, v) => ShareOf(ids, v - b, x)
    case TransferCounter(t, from, to) => (if x == to then t else 0) - (if x == from then t else 0)
  }

  /** The changes of those among the first k requests whose messages are in s. */
  ghost function Changes(reqs: seq<Upd>, s: set<nat>, k: nat): int
    requires k <= |reqs|
  {
    if k == 0 then 0 else Changes(reqs, s, k - 1) + if k - 1 in s then Change(reqs[k - 1]) else 0
  }

  /** The same for the right of x; message i tells which replica made request i. */
  ghost function Credits(ids: seq<int>, reqs: seq<Upd>, log: seq<Msg<Op>>, s: set<nat>, x: int, k: nat): int
    requires |ids| > 0 && k <= |reqs| == |log| && forall i :: 0 <= i < |log| ==> log[i].origin < |ids|
  {
    if k == 0 then 0
    else Credits(ids, reqs, log, s, x, k - 1) + if k - 1 in s then Credit(ids, reqs[k - 1], ids[log[k - 1].origin], x) else 0
  }

  lemma {:induction false} ChangesAdd(reqs: seq<Upd>, s: set<nat>, i: nat, k: nat)
    requires k <= |reqs| && i < |reqs| && i !in s
    ensures Changes(reqs, s + {i}, k) == Changes(reqs, s, k) + if i < k then Change(reqs[i]) else 0
  {
    if k > 0 { ChangesAdd(reqs, s, i, k - 1); }
  }

  lemma {:induction false} ChangesGrow(reqs: seq<Upd>, upd: Upd, s: set<nat>, k: nat)
    requires k <= |reqs|
    ensures Changes(reqs + [upd], s, k) == Changes(reqs, s, k)
  {
    if k > 0 { ChangesGrow(reqs, upd, s, k - 1); }
  }

  // ---------------------------------------------------------------- requests and messages

  /** The message carries the request. */
  ghost predicate Carries(ids: seq<int>, m: Msg<Op>, upd: Upd) {
    m.origin < |ids| &&
    match upd
    case Increment(c) => m.op == DownInc(c, ids[m.origin])
    case Decrement(c) => m.op == DownDec(c, ids[m.origin])
    case SetCounterBound(b, eq, v) => m.op == DownInit(b, eq, v)
    case TransferCounter(t, from, to) => m.op == DownTransfer(t, from, to)
  }

  ghost predicate CarriesAll(ids: seq<int>, log: seq<Msg<Op>>, reqs: seq<Upd>) {
    |reqs| == |log| && forall i :: 0 <= i < |log| ==> Carries(ids, log[i], reqs[i])
  }

  /** Every replica shows what it has seen. */
  ghost predicate ShowsRequests(w: World<BC, Op>, reqs: seq<Upd>) {
    forall r :: 0 <= r < |w.reps| ==> w.reps[r].state.value == Changes(reqs, w.reps[r].seen, |reqs|)
  }

  lemma ApplyChanges(ids: seq<int>, s: BC, m: Msg<Op>, upd: Upd)
    requires |ids| > 0 && Carries(ids, m, upd) && Accepted(s, m.op) && (m.op.DownInit? ==> s.value == 0)
    ensures Apply(ids, s, m.op).value == s.value + Change(upd)
  {
  }

  lemma SeenFirst(ids: seq<int>, w: World<BC, Op>, r: nat, i: nat)
    requires EscrowInv(ids, w) && CanDeliver(w, r, i)
    ensures w.log[i].op.DownInit? ==> w.reps[r].state.value == 0
  {
    assert Tracks(ids, w.log, r, w.reps[r]);
    forall j | j in w.reps[r].seen ensures 0 in w.reps[r].seen {
      assert Closed(w.log, w.reps[r].seen);
    }
  }

  lemma DeliverShows(ids: seq<int>, w: World<BC, Op>, reqs: seq<Upd>, r: nat, i: nat)
    requires EscrowInv(ids, w) && CarriesAll(ids, w.log, reqs) && ShowsRequests(w, reqs) && CanDeliver(w, r, i)
    ensures ShowsRequests(Take(Counter(ids), w, Deliver(r, i)), reqs)
  {
    DeliverAccepted(ids, w, r, i);
    SeenFirst(ids, w, r, i);
    ApplyChanges(ids, w.reps[r].state, w.log[i], reqs[i]);
    ChangesAdd(reqs, w.reps[r].seen, i, |reqs|);
  }

  lemma CarriesMore(ids: seq<int>, log: seq<Msg<Op>>, reqs: seq<Upd>, m: Msg<Op>, upd: Upd)
    requires CarriesAll(ids, log, reqs) && Carries(ids, m, upd)
    ensures CarriesAll(ids, log + [m], reqs + [upd])
  {
  }

  /** No replica has seen the next message. */
  ghost predicate Unseen(w: World<BC, Op>, reqs: seq<Upd>, upd: Upd) {
    forall q :: 0 <= q < |w.reps| ==>
      Changes(reqs + [upd], w.reps[q].seen, |reqs|) == w.reps[q].state.value && |reqs| !in w.reps[q].seen
  }

  lemma NewIsUnseen(ids: seq<int>, w: World<BC, Op>, reqs: seq<Upd>, upd: Upd)
    requires CausalWorld(w) && CarriesAll(ids, w.log, reqs) && ShowsRequests(w, reqs)
    ensures Unseen(w, reqs, upd)
  {
    forall q | 0 <= q < |w.reps| ensures Changes(reqs + [upd], w.reps[q].seen, |reqs|) == w.reps[q].state.value && |reqs| !in w.reps[q].seen {
      ChangesGrow(reqs, upd, w.reps[q].seen, |reqs|);
      assert Closed(w.log, w.reps[q].seen);
    }
  }

  /** One replica moves: it sees message n, and its value changes by the request. */
  ghost predicate Moves(w: World<BC, Op>, w': World<BC, Op>, r: nat, n: nat, upd: Upd) {
    && r < |w.reps| == |w'.reps|
    && w'.reps[r].seen == w.reps[r].seen + {n} && w'.reps[r].state.value == w.reps[r].state.value + Change(upd)
    && forall q :: 0 <= q < |w.reps| && q != r ==> w'.reps[q] == w.reps[q]
  }

  lemma ShowsMore(w: World<BC, Op>, w': World<BC, Op>, reqs: seq<Upd>, r: nat, upd: Upd)
    requires Unseen(w, reqs, upd) && Moves(w, w', r, |reqs|, upd)
    ensures ShowsRequests(w', reqs + [upd])
  {
    ChangesAdd(reqs + [upd], w.reps[r].seen, |reqs|, |reqs| + 1);
  }

  lemma IssueMoves(ids: seq<int>, w: World<BC, Op>, r: nat, upd: Upd)
    requires EscrowInv(ids, w) && CanIssue(Counter(ids), w, r, upd)
    ensures var w' := Take(Counter(ids), w, Issue(r, upd));
            && Moves(w, w', r, |w.log|, upd)
            && |w'.log| == |w.log| + 1 && w'.log == w.log + [w'.log[|w.log|]] && Carries(ids, w'.log[|w.log|], upd)
  {
    var rep := w.reps[r];
    assert Counter(ids).allowed(w, r, upd);
    assert Counter(ids).prepare(rep.state, upd) == Prepare(rep.state, upd);
    assert Tracks(ids, w.log, r, rep);
    var m := Msg(Prepare(rep.state, upd).value, r, rep.seen);
    assert Carries(ids, m, upd);
    ApplyChanges(ids, rep.state, m, upd);
  }

  lemma IssueFollows(ids: seq<int>, w: World<BC, Op>, reqs: seq<Upd>, r: nat, upd: Upd)
    requires EscrowInv(ids, w) && Follows(ids, w, reqs) && CanIssue(Counter(ids), w, r, upd)
    ensures Follows(ids, Take(Counter(ids), w, Issue(r, upd)), reqs + [upd])
  {
    var w' := Take(Counter(ids), w, Issue(r, upd));
    IssueMoves(ids, w, r, upd);
    CarriesMore(ids, w.log, reqs, w'.log[|w.log|], upd);
    NewIsUnseen(ids, w, reqs, upd);
    ShowsMore(w, w', reqs, r, upd);
  }

  ghost predicate Follows(ids: seq<int>, w: World<BC, Op>, reqs: seq<Upd>) {
    CarriesAll(ids, w.log, reqs) && ShowsRequests(w, reqs)
  }

  lemma StepShows(ids: seq<int>, w: World<BC, Op>, reqs: seq<Upd>, step: Step<Upd>)
    ensures EscrowInv(ids, w) && Follows(ids, w, reqs) ==>
      Follows(ids, Take(Counter(ids), w, step), reqs + IssuedBy(Counter(ids), w, step))
  {
    if EscrowInv(ids, w) && Follows(ids, w, reqs) {
      var reqs' := reqs + IssuedBy(Counter(ids), w, step);
      match step
      case Issue(r, upd) =>
        if CanIssue(Counter(ids), w, r, upd) {
          assert reqs' == reqs + [upd];
          IssueFollows(ids, w, reqs, r, upd);
        } else {
          assert reqs' == reqs;
        }
      case Deliver(r, i) =>
        assert reqs' == reqs;
        if CanDeliver(w, r, i) { DeliverShows(ids, w, reqs, r, i); }
    }
  }

  lemma {:induction false} RunShowsRequests(ids: seq<int>, steps: seq<Step<Upd>>)
    requires SortedIds(ids)
    ensures Follows(ids, Run(ids, steps), Issued(Counter(ids), |ids|, steps))
  {
    if steps != [] {
      var before := steps[..|steps| - 1];
      RunShowsRequests(ids, before);
      RunKeepsEscrow(ids, before);
      StepShows(ids, Run(ids, before), Issued(Counter(ids), |ids|, before), steps[|steps| - 1]);
    }
  }

  lemma {:induction false} RightsAreCredits(ids: seq<int>, log: seq<Msg<Op>>, reqs: seq<Upd>, s: set<nat>, x: int, k: nat)
    requires |ids| > 0 && CarriesAll(ids, log, reqs) && k <= |log|
    ensures Rights(ids, log, s, x, k) == Credits(ids, reqs, log, s, x, k)
  {
    if k > 0 {
      RightsAreCredits(ids, log, reqs, s, x, k - 1);
      assert Carries(ids, log[k - 1], reqs[k - 1]);
    }
  }

  /** In every run, at every replica: the value is the initial value plus the increments and minus the
      decrements requested by the steps whose messages it has seen, and the right of every id is what those
      requests gave and took. */
  lemma ReplicasShowRequests(ids: seq<int>, steps: seq<Step<Upd>>, r: nat, x: int)
    requires SortedIds(ids) && r < |ids|
    ensures var w, reqs := Run(ids, steps), Issued(Counter(ids), |ids|, steps);
            && r < |w.reps| && |reqs| == |w.log| && (forall i :: 0 <= i < |w.log| ==> w.log[i].origin < |ids|)
            && w.reps[r].state.value == Changes(reqs, w.reps[r].seen, |reqs|)
            && Get(w.reps[r].state.perms, x) == Credits(ids, reqs, w.log, w.reps[r].seen, x, |reqs|)
  {
    RunShowsRequests(ids, steps);
    RunKeepsEscrow(ids, steps);
    var w, reqs := Run(ids, steps), Issued(Counter(ids), |ids|, steps);
    forall i | 0 <= i < |w.log| ensures w.log[i].origin < |ids| { assert Carries(ids, w.log[i], reqs[i]); }
    assert Tracks(ids, w.log, r, w.reps[r]);
    RightsAreCredits(ids, w.log, reqs, w.reps[r].seen, x, |reqs|);
  }
}
