/** Runs of N add-wins sets under causal delivery: what the set holds, and convergence. */
module AddWins {
  import opened CausalNet
  import opened Options
  import opened AddWinsSet

  /** An update and the values its source draws for it. */
  datatype Request = Request(upd: Upd, draw: nat -> Unique)

  predicate Adds(log: seq<Msg<Op>>, i: nat, e: Element, u: Unique) {
    i < |log| && log[i].op.DownAddAll? && e in log[i].op.added && log[i].op.added[e] == u
  }

  predicate Names(log: seq<Msg<Op>>, i: nat, e: Element, u: Unique) {
    i < |log| && log[i].op.DownRemoveAll? && u in Uniques(log[i].op.named, e)
  }

  /** The draws are fresh: no earlier add of the run gave the same unique to the same element. */
  ghost predicate FreshDraws(log: seq<Msg<Op>>, added: map<Element, Unique>) {
    forall i, e :: 0 <= i < |log| && e in added ==> !Adds(log, i, e, added[e])
  }

  ghost function Sets(): Protocol<Elems, Request, Op> {
    Protocol(
      (r: nat) => map[],
      (w: World<Elems, Op>, r: nat, req: Request) =>
        var op := Prepare(map[], req.upd, req.draw);
        op.Some? && op.value.DownAddAll? ==> FreshDraws(w.log, op.value.added),
      (s: Elems, req: Request) => Prepare(s, req.upd, req.draw),
      (s: Elems, op: Op) => Apply(s, op))
  }

  ghost function Run(n: nat, steps: seq<Step<Request>>): World<Elems, Op> {
    Exec(Sets(), n, steps)
  }

  /** (e, u) was added by an operation in s and is named by no remove in s. */
  ghost predicate InSet(log: seq<Msg<Op>>, s: set<nat>, e: Element, u: Unique) {
    (exists i :: i in s && Adds(log, i, e, u)) && !exists j :: j in s && Names(log, j, e, u)
  }

  /** Uniques are distinct, and a remove names only what its source had seen added. */
  ghost predicate SetLog(log: seq<Msg<Op>>) {
    && CausalLog(log)
    && (forall i: nat, j: nat, e, u :: Adds(log, i, e, u) && Adds(log, j, e, u) ==> i == j)
    && (forall j: nat, e, u :: Names(log, j, e, u) ==> exists i :: i in log[j].deps && Adds(log, i, e, u))
  }

  ghost predicate Shows(log: seq<Msg<Op>>, s: set<nat>, elems: Elems) {
    && NoneEmpty(elems)
    && forall e, u :: u in Uniques(elems, e) <==> InSet(log, s, e, u)
  }

  ghost predicate Inv(w: World<Elems, Op>) {
    && CausalWorld(w) && SetLog(w.log)
    && forall r :: 0 <= r < |w.reps| ==> Shows(w.log, w.reps[r].seen, w.reps[r].state)
  }

  lemma InSetGrows(log: seq<Msg<Op>>, m: Msg<Op>, s: set<nat>, e: Element, u: Unique)
    requires Closed(log, s)
    ensures InSet(log + [m], s, e, u) <==> InSet(log, s, e, u)
  {
    forall i | i in s
      ensures Adds(log + [m], i, e, u) <==> Adds(log, i, e, u)
      ensures Names(log + [m], i, e, u) <==> Names(log, i, e, u)
    {
    }
  }

  /** A remove that names (e, u) cannot have been seen before the add of (e, u). */
  lemma InSetAfterAdd(log: seq<Msg<Op>>, s: set<nat>, i: nat, e: Element, u: Unique)
    requires SetLog(log) && Closed(log, s) && i < |log| && i !in s && log[i].op.DownAddAll?
    ensures InSet(log, s + {i}, e, u) <==> InSet(log, s, e, u) || Adds(log, i, e, u)
  {
    assert forall j :: j in s + {i} && Names(log, j, e, u) ==> j in s;
    if Adds(log, i, e, u) {
      forall j | j in s ensures !Names(log, j, e, u) {
        assert i !in log[j].deps;
      }
      assert i in s + {i};
    } else if InSet(log, s, e, u) {
      var h: nat :| h in s && Adds(log, h, e, u);
      assert h in s + {i};
    }
  }

  lemma InSetAfterRemove(log: seq<Msg<Op>>, s: set<nat>, i: nat, e: Element, u: Unique)
    requires i < |log| && log[i].op.DownRemoveAll?
    ensures InSet(log, s + {i}, e, u) <==> InSet(log, s, e, u) && !Names(log, i, e, u)
  {
    if InSet(log, s, e, u) && !Names(log, i, e, u) {
      var h: nat :| h in s && Adds(log, h, e, u);
      assert h in s + {i};
    }
    if Names(log, i, e, u) { assert i in s + {i}; }
  }

  lemma ApplyPairs(elems: Elems, op: Op, e: Element, u: Unique)
    ensures u in Uniques(Apply(elems, op), e) <==>
              match op
              case DownAddAll(added) => u in Uniques(elems, e) || (e in added && added[e] == u)
              case DownRemoveAll(named) => u in Uniques(elems, e) && u !in Uniques(named, e)
  {
    if op.DownRemoveAll? && e in op.named && e in elems {
      assert u in elems[e] - op.named[e] ==> elems[e] - op.named[e] != {};
    }
  }

  lemma ApplyShows(log: seq<Msg<Op>>, s: set<nat>, elems: Elems, i: nat)
    requires SetLog(log) && Closed(log, s) && Shows(log, s, elems) && i < |log| && i !in s
    ensures Shows(log, s + {i}, Apply(elems, log[i].op))
  {
    ApplyNeverLeavesEmpty(elems, log[i].op);
    forall e, u ensures u in Uniques(Apply(elems, log[i].op), e) <==> InSet(log, s + {i}, e, u) {
      ApplyPairs(elems, log[i].op, e, u);
      if log[i].op.DownAddAll? {
        InSetAfterAdd(log, s, i, e, u);
      } else {
        InSetAfterRemove(log, s, i, e, u);
      }
    }
  }

  lemma LogGrows(w: World<Elems, Op>, r: nat, req: Request)
    requires Inv(w) && CanIssue(Sets(), w, r, req)
    requires CausalLog(w.log + [Msg(Prepare(w.reps[r].state, req.upd, req.draw).value, r, w.reps[r].seen)])
    ensures SetLog(w.log + [Msg(Prepare(w.reps[r].state, req.upd, req.draw).value, r, w.reps[r].seen)])
  {
    var rep := w.reps[r];
    var op := Prepare(rep.state, req.upd, req.draw).value;
    var m := Msg(op, r, rep.seen);
    var log' := w.log + [m];
    assert Sets().allowed(w, r, req);
    forall i: nat, e, u | Adds(log', i, e, u) ensures i < |w.log| ==> Adds(w.log, i, e, u) {}
    forall i: nat, j: nat, e, u | Adds(log', i, e, u) && Adds(log', j, e, u) ensures i == j {
      if i < |w.log| && j < |w.log| { assert Adds(w.log, i, e, u) && Adds(w.log, j, e, u); }
    }
    forall j: nat, e, u | Names(log', j, e, u) ensures exists i :: i in log'[j].deps && Adds(log', i, e, u) {
      if j < |w.log| {
        assert Names(w.log, j, e, u);
        var i: nat :| i in w.log[j].deps && Adds(w.log, i, e, u);
        assert Adds(log', i, e, u);
      } else {
        assert u in Uniques(rep.state, e);
        assert InSet(w.log, rep.seen, e, u);
        var i: nat :| i in rep.seen && Adds(w.log, i, e, u);
        assert Adds(log', i, e, u);
      }
    }
  }

  lemma IssueKeeps(w: World<Elems, Op>, r: nat, req: Request)
    requires Inv(w) && CanIssue(Sets(), w, r, req)
    ensures Inv(Take(Sets(), w, Issue(r, req)))
  {
    var rep := w.reps[r];
    var m := Msg(Prepare(rep.state, req.upd, req.draw).value, r, rep.seen);
    TakeKeepsCausality(Sets(), w, Issue(r, req));
    LogGrows(w, r, req);
    forall q | 0 <= q < |w.reps| ensures Shows(w.log + [m], w.reps[q].seen, w.reps[q].state) {
      forall e, u ensures u in Uniques(w.reps[q].state, e) <==> InSet(w.log + [m], w.reps[q].seen, e, u) {
        InSetGrows(w.log, m, w.reps[q].seen, e, u);
      }
    }
    ClosedGrows(w.log, m, rep.seen);
    ApplyShows(w.log + [m], rep.seen, rep.state, |w.log|);
  }

  lemma DeliverKeeps(w: World<Elems, Op>, r: nat, i: nat)
    requires Inv(w) && CanDeliver(w, r, i)
    ensures Inv(Take(Sets(), w, Deliver(r, i)))
  {
    TakeKeepsCausality(Sets(), w, Deliver(r, i));
    ApplyShows(w.log, w.reps[r].seen, w.reps[r].state, i);
  }

  lemma {:induction false} RunKeepsInv(n: nat, steps: seq<Step<Request>>)
    ensures Inv(Run(n, steps)) && |Run(n, steps).reps| == n
  {
    if steps != [] {
      var before := steps[..|steps| - 1];
      RunKeepsInv(n, before);
      var w := Run(n, before);
      match steps[|steps| - 1]
      case Issue(r, req) => if CanIssue(Sets(), w, r, req) { IssueKeeps(w, r, req); }
      case Deliver(r, i) => if CanDeliver(w, r, i) { DeliverKeeps(w, r, i); }
    }
  }

  /** Add-wins: in every run, at every replica, e holds the unique u exactly if an applied add gave it
      and no applied remove names it, and no element is left without uniques. */
  lemma AddWinsMeaning(n: nat, steps: seq<Step<Request>>, r: nat, e: Element)
    requires r < n
    ensures var w := Run(n, steps);
            && r < |w.reps|
            && (forall u :: u in Uniques(w.reps[r].state, e) <==> InSet(w.log, w.reps[r].seen, e, u))
            && (e in w.reps[r].state <==> exists u :: InSet(w.log, w.reps[r].seen, e, u))
  {
    RunKeepsInv(n, steps);
    var w := Run(n, steps);
    var elems := w.reps[r].state;
    assert Shows(w.log, w.reps[r].seen, elems);
    if e in elems { var u := SomeElement(elems[e]); assert u in Uniques(elems, e); }
    if u :| InSet(w.log, w.reps[r].seen, e, u) { assert u in Uniques(elems, e); }
  }

  lemma SomeElement<T>(s: set<T>) returns (x: T)
    requires s != {}
    ensures x in s
  {
    x :| x in s;
  }

  /** Convergence: replicas that have applied the same operations are equal. */
  lemma SameSeenSameSet(n: nat, steps: seq<Step<Request>>, q: nat, r: nat)
    requires q < n && r < n
    requires var w := Run(n, steps); |w.reps| == n && w.reps[q].seen == w.reps[r].seen
    ensures var w := Run(n, steps); w.reps[q].state == w.reps[r].state
  {
    RunKeepsInv(n, steps);
    var w := Run(n, steps);
    var a, b := w.reps[q].state, w.reps[r].state;
    assert Shows(w.log, w.reps[q].seen, a) && Shows(w.log, w.reps[r].seen, b);
    forall e ensures Uniques(a, e) == Uniques(b, e) && (e in a <==> e in b) {
      assert forall u :: u in Uniques(a, e) <==> u in Uniques(b, e);
    }
    SameElems(a, b);
  }

  // ---------------------------------------------------------------- what was requested

  lemma IssuedIsRequested(n: nat, steps: seq<Step<Request>>, r: nat, req: Request)
    requires r < n && |Run(n, steps).reps| == n && Sets().allowed(Run(n, steps), r, req)
    ensures var w, w' := Run(n, steps), Run(n, steps + [Issue(r, req)]);
            |w'.reps| == n && w'.reps[r].state == Requested(w.reps[r].state, req.upd, req.draw)
  {
    assert (steps + [Issue(r, req)])[..|steps|] == steps;
    assert Sets().prepare(Run(n, steps).reps[r].state, req) == Prepare(Run(n, steps).reps[r].state, req.upd, req.draw);
  }

  /** At every replica of every run, an issued remove leaves none of its elements and all others as they were. */
  lemma IssuedRemove(n: nat, steps: seq<Step<Request>>, r: nat, es: seq<Element>, draw: nat -> Unique)
    requires r < n
    ensures var w, w' := Run(n, steps), Run(n, steps + [Issue(r, Request(RemoveAll(es), draw))]);
            && r < |w.reps| == |w'.reps|
            && w'.reps[r].state == map e | e in w.reps[r].state && e !in es :: w.reps[r].state[e]
  {
    RunKeepsInv(n, steps);
    var w, req := Run(n, steps), Request(RemoveAll(es), draw);
    assert Prepare(map[], req.upd, req.draw).None? || Prepare(map[], req.upd, req.draw).value.DownRemoveAll?;
    IssuedIsRequested(n, steps, r, req);
    RemoveRequest(w.reps[r].state, es, draw);
  }

  /** And an issued add gives its elements the uniques drawn, which none of them had, and changes no other. */
  lemma IssuedAdd(n: nat, steps: seq<Step<Request>>, r: nat, es: seq<Element>, draw: nat -> Unique, k: nat)
    requires r < n && LastOccurrence(es, k) && FreshDraws(Run(n, steps).log, UniqueMap(es, draw))
    ensures var w, w' := Run(n, steps), Run(n, steps + [Issue(r, Request(AddAll(es), draw))]);
            && r < |w.reps| == |w'.reps|
            && var before, after := w.reps[r].state, w'.reps[r].state;
               && es[k] in after && after[es[k]] == Uniques(before, es[k]) + {draw(k)} && draw(k) !in Uniques(before, es[k])
               && (forall e :: e in before && e !in es ==> e in after && after[e] == before[e])
               && (forall e :: e in after ==> e in before || e in es)
  {
    RunKeepsInv(n, steps);
    var w, req := Run(n, steps), Request(AddAll(es), draw);
    IssuedIsRequested(n, steps, r, req);
    AddRequest(w.reps[r].state, es, draw);
    UniqueMapDraws(es, draw, k);
    assert Shows(w.log, w.reps[r].seen, w.reps[r].state);
    forall i: nat | i < |w.log| ensures !Adds(w.log, i, es[k], draw(k)) {
      assert !Adds(w.log, i, es[k], UniqueMap(es, draw)[es[k]]);
    }
    assert !InSet(w.log, w.reps[r].seen, es[k], draw(k));
  }

  /** The elements that an update is about. */
  function Elements(upd: Upd): seq<Element> {
    match upd
    case Add(e) => [e]
    case Remove(e) => [e]
    case AddAll(es) => es
    case RemoveAll(es) => es
  }

  /** The message carries the request: an add its elements with the uniques drawn, and a remove everything that
      its source had of its elements. */
  ghost predicate Carries(log: seq<Msg<Op>>, i: nat, req: Request)
    requires i < |log|
  {
    var es := Elements(req.upd);
    if req.upd.Add? || req.upd.AddAll? then
      && log[i].op.DownAddAll? && log[i].op.added.Keys == (set e | e in es)
      && forall k: nat {:trigger LastOccurrence(es, k)} :: LastOccurrence(es, k) ==> Adds(log, i, es[k], req.draw(k))
    else
      log[i].op.DownRemoveAll? && forall e, u :: Names(log, i, e, u) <==> e in es && InSet(log, log[i].deps, e, u)
  }

  ghost predicate CarriesAll(log: seq<Msg<Op>>, reqs: seq<Request>) {
    |reqs| == |log| && forall i :: 0 <= i < |log| ==> Carries(log, i, reqs[i])
  }

  lemma CarriesGrows(log: seq<Msg<Op>>, m: Msg<Op>, i: nat, req: Request)
    requires i < |log| && Carries(log, i, req) && Closed(log, log[i].deps)
    ensures Carries(log + [m], i, req)
  {
    var es := Elements(req.upd);
    if req.upd.Add? || req.upd.AddAll? {
      forall k: nat {:trigger LastOccurrence(es, k)} | LastOccurrence(es, k) ensures Adds(log + [m], i, es[k], req.draw(k)) {
        assert Adds(log, i, es[k], req.draw(k));
      }
    } else {
      forall e, u ensures Names(log + [m], i, e, u) <==> e in es && InSet(log + [m], log[i].deps, e, u) {
        InSetGrows(log, m, log[i].deps, e, u);
        assert Names(log, i, e, u) <==> e in es && InSet(log, log[i].deps, e, u);
      }
    }
  }

  lemma NewAddCarries(log: seq<Msg<Op>>, m: Msg<Op>, req: Request, s: Elems)
    requires (req.upd.Add? || req.upd.AddAll?) && Prepare(s, req.upd, req.draw) == Some(m.op)
    ensures Carries(log + [m], |log|, req)
  {
    var es := Elements(req.upd);
    UniqueMapKeys(es, req.draw);
    forall k: nat {:trigger LastOccurrence(es, k)} | LastOccurrence(es, k) ensures Adds(log + [m], |log|, es[k], req.draw(k)) {
      UniqueMapDraws(es, req.draw, k);
    }
  }

  lemma NewRemoveCarries(log: seq<Msg<Op>>, m: Msg<Op>, req: Request, s: Elems)
    requires (req.upd.Remove? || req.upd.RemoveAll?) && Prepare(s, req.upd, req.draw) == Some(m.op)
    requires Closed(log, m.deps) && Shows(log, m.deps, s)
    ensures Carries(log + [m], |log|, req)
  {
    var es := Elements(req.upd);
    forall e, u ensures Names(log + [m], |log|, e, u) <==> e in es && InSet(log + [m], m.deps, e, u) {
      InSetGrows(log, m, m.deps, e, u);
      assert u in Uniques(s, e) <==> InSet(log, m.deps, e, u);
    }
  }

  lemma IssueCarries(w: World<Elems, Op>, reqs: seq<Request>, r: nat, req: Request)
    requires Inv(w) && CarriesAll(w.log, reqs) && CanIssue(Sets(), w, r, req)
    ensures CarriesAll(Take(Sets(), w, Issue(r, req)).log, reqs + [req])
  {
    var rep := w.reps[r];
    assert Sets().prepare(rep.state, req) == Prepare(rep.state, req.upd, req.draw);
    var m := Msg(Prepare(rep.state, req.upd, req.draw).value, r, rep.seen);
    assert Closed(w.log, rep.seen) && Shows(w.log, rep.seen, rep.state);
    forall i | 0 <= i < |w.log| ensures Carries(w.log + [m], i, reqs[i]) { CarriesGrows(w.log, m, i, reqs[i]); }
    if req.upd.Add? || req.upd.AddAll? { NewAddCarries(w.log, m, req, rep.state); } else { NewRemoveCarries(w.log, m, req, rep.state); }
  }

  /** So in every run the meaning is one of the requests: message i carries the i-th request issued. */
  lemma {:induction false} LogCarriesRequests(n: nat, steps: seq<Step<Request>>)
    ensures CarriesAll(Run(n, steps).log, Issued(Sets(), n, steps))
  {
    if steps != [] {
      var before, last := steps[..|steps| - 1], steps[|steps| - 1];
      LogCarriesRequests(n, before);
      RunKeepsInv(n, before);
      var w, reqs := Run(n, before), Issued(Sets(), n, before);
      if last.Issue? && CanIssue(Sets(), w, last.r, last.upd) {
        IssueCarries(w, reqs, last.r, last.upd);
      } else {
        assert reqs + [] == reqs;
      }
    }
  }
}
