/** Causal delivery of operations between N replicas.

    A replica issues an operation by running the prepare step on its own state and applying
    the effect to itself at once; every other replica applies the same effect later, exactly
    once, and only after every operation the source had applied before issuing it.  The
    message carries that set as `deps`.

    The module is generic: a `Protocol` supplies the initial state, the prepare and effect
    steps, and what is demanded of a caller (`allowed`).  `Exec` runs an arbitrary schedule;
    a step that is not enabled changes nothing, so a statement about `Exec` for all schedules
    is a statement about all runs. */
module CausalNet {

  import opened Options

  datatype Msg<Op> = Msg(op: Op, origin: nat, deps: set<nat>)

  datatype Replica<St> = Replica(state: St, seen: set<nat>)

  datatype World<St, Op> = World(log: seq<Msg<Op>>, reps: seq<Replica<St>>)

  datatype Step<Upd> = Issue(r: nat, upd: Upd) | Deliver(r: nat, i: nat)

  datatype Protocol<!St, !Upd, !Op> = Protocol(
    init: nat -> St,
    allowed: (World<St, Op>, nat, Upd) -> bool,
    prepare: (St, Upd) -> Option<Op>,
    apply: (St, Op) -> St)

  ghost predicate CanIssue<St, Upd, Op>(p: Protocol<St, Upd, Op>, w: World<St, Op>, r: nat, upd: Upd)
  {
    r < |w.reps| && p.allowed(w, r, upd) && p.prepare(w.reps[r].state, upd).Some?
  }

  ghost predicate CanDeliver<St, Op>(w: World<St, Op>, r: nat, i: nat)
  {
    r < |w.reps| && i < |w.log| && i !in w.reps[r].seen && w.log[i].deps <= w.reps[r].seen
  }

  ghost function Take<St, Upd, Op>(p: Protocol<St, Upd, Op>, w: World<St, Op>, step: Step<Upd>): World<St, Op>
  {
    match step
    case Issue(r, upd) =>
      if CanIssue(p, w, r, upd) then
        var rep := w.reps[r];
        var op := p.prepare(rep.state, upd).value;
        World(w.log + [Msg(op, r, rep.seen)],
              w.reps[r := Replica(p.apply(rep.state, op), rep.seen + {|w.log|})])
      else w
    case Deliver(r, i) =>
      if CanDeliver(w, r, i) then
        var rep := w.reps[r];
        w.(reps := w.reps[r := Replica(p.apply(rep.state, w.log[i].op), rep.seen + {i})])
      else w
  }

  ghost function Start<St, Upd, Op>(p: Protocol<St, Upd, Op>, n: nat): World<St, Op>
  {
    World([], seq(n, (r: nat) => Replica(p.init(r), {})))
  }

  ghost function Exec<St, Upd, Op>(p: Protocol<St, Upd, Op>, n: nat, steps: seq<Step<Upd>>): World<St, Op>
  {
    if steps == [] then Start(p, n)
    else Take(p, Exec(p, n, steps[..|steps| - 1]), steps[|steps| - 1])
  }

  /** The request that a step issues, if it is enabled. */
  ghost function IssuedBy<St, Upd, Op>(p: Protocol<St, Upd, Op>, w: World<St, Op>, step: Step<Upd>): seq<Upd>
  {
    if step.Issue? && CanIssue(p, w, step.r, step.upd) then [step.upd] else []
  }

  /** The requests that were issued, in the order of the log: request i is the one that message i carries. */
  ghost function Issued<St, Upd, Op>(p: Protocol<St, Upd, Op>, n: nat, steps: seq<Step<Upd>>): seq<Upd>
  {
    if steps == [] then []
    else
      var front := steps[..|steps| - 1];
      Issued(p, n, front) + IssuedBy(p, Exec(p, n, front), steps[|steps| - 1])
  }

  /** S contains, with each operation, everything its source had seen. */
  ghost predicate Closed<Op>(log: seq<Msg<Op>>, s: set<nat>)
  {
    forall i :: i in s ==> i < |log| && log[i].deps <= s
  }

  /** Dependencies point backwards, are transitively closed, and order the operations of one source. */
  ghost predicate CausalLog<Op>(log: seq<Msg<Op>>)
  {
    && (forall i, d :: 0 <= i < |log| && d in log[i].deps ==> d < i)
    && (forall i :: 0 <= i < |log| ==> Closed(log, log[i].deps))
    && (forall i, j :: 0 <= i < j < |log| && log[i].origin == log[j].origin ==> i in log[j].deps)
  }

  ghost predicate CausalWorld<St, Op>(w: World<St, Op>)
  {
    && CausalLog(w.log)
    && (forall i :: 0 <= i < |w.log| ==> w.log[i].origin < |w.reps| && i in w.reps[w.log[i].origin].seen)
    && (forall r :: 0 <= r < |w.reps| ==> Closed(w.log, w.reps[r].seen))
  }

  lemma ClosedGrows<Op>(log: seq<Msg<Op>>, m: Msg<Op>, s: set<nat>)
    requires Closed(log, s)
    ensures Closed(log + [m], s)
  {
  }

  lemma TakeKeepsCausality<St, Upd, Op>(p: Protocol<St, Upd, Op>, w: World<St, Op>, step: Step<Upd>)
    requires CausalWorld(w)
    ensures var w' := Take(p, w, step);
            CausalWorld(w') && |w'.reps| == |w.reps| && w.log <= w'.log
  {
    var w' := Take(p, w, step);
    if step.Issue? && CanIssue(p, w, step.r, step.upd) {
      var m := w'.log[|w.log|];
      assert w'.log == w.log + [m];
      forall s | Closed(w.log, s) ensures Closed(w'.log, s) { ClosedGrows(w.log, m, s); }
      forall i | 0 <= i < |w'.log| ensures Closed(w'.log, w'.log[i].deps) {
        assert i < |w.log| ==> w'.log[i] == w.log[i];
      }
    }
  }

  /** Every run delivers causally, whatever the protocol. */
  lemma {:induction false} RunIsCausal<St, Upd, Op>(p: Protocol<St, Upd, Op>, n: nat, steps: seq<Step<Upd>>)
    ensures var w := Exec(p, n, steps); CausalWorld(w) && |w.reps| == n
  {
    if steps != [] {
      RunIsCausal(p, n, steps[..|steps| - 1]);
      TakeKeepsCausality(p, Exec(p, n, steps[..|steps| - 1]), steps[|steps| - 1]);
    }
  }

  /** When operation i becomes deliverable, the receiver has seen exactly those operations of the same
      source that the source itself had applied before i: none is missing and none is newer. */
  lemma SameSourceInStep<Op>(log: seq<Msg<Op>>, s: set<nat>, i: nat, j: nat)
    requires CausalLog(log) && Closed(log, s)
    requires i < |log| && i !in s && log[i].deps <= s
    requires j < |log| && log[j].origin == log[i].origin
    ensures j in s <==> j in log[i].deps
  {
  }
}
