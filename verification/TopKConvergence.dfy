/** Convergence of the top-K of TopKRmv: which adds are live depends only on which adds and removes were
    delivered, and so does what the top shows. */
module TopKConvergence {
  import opened GoMaps
  import opened Clocks
  import opened TopKRmv
  import opened TopK

  /** All clocks and replicas are over the same ids, and timestamps are positive. */
  ghost predicate OverIds(steps: seq<Step>, ids: set<int>) {
    forall i :: 0 <= i < |steps| ==>
      match steps[i]
      case AddStep(x) => x.replica in ids && x.ts >= 1
      case RemoveStep(_, vc, _) => vc.Keys == ids
  }

  /** The i-th step is a remove of the id that has seen timestamp ts of the replica. */
  ghost predicate SeesAt(steps: seq<Step>, i: int, id: int, replica: int, ts: int) {
    0 <= i < |steps| && steps[i].RemoveStep? && steps[i].id == id && Get(steps[i].vc, replica) >= ts
  }

  ghost predicate SeenByRemove(steps: seq<Step>, id: int, replica: int, ts: int) {
    exists i :: SeesAt(steps, i, id, replica, ts)
  }

  lemma SeenOneMore(steps: seq<Step>, id: int, replica: int, ts: int)
    requires steps != []
    ensures SeenByRemove(steps, id, replica, ts)
       <==> SeenByRemove(steps[..|steps| - 1], id, replica, ts) || SeesAt(steps, |steps| - 1, id, replica, ts)
  {
    var front := steps[..|steps| - 1];
    if i :| SeesAt(front, i, id, replica, ts) { assert SeesAt(steps, i, id, replica, ts); }
    if i :| SeesAt(steps, i, id, replica, ts) {
      if i < |front| { assert SeesAt(front, i, id, replica, ts); }
    }
  }

  lemma MergedAt(a: Clock, b: Clock, replica: int, ts: int)
    requires replica in a
    ensures Merged(a, b).Keys == a.Keys
    ensures Get(Merged(a, b), replica) >= ts <==> Get(a, replica) >= ts || Get(b, replica) >= ts
  {
  }

  ghost predicate RecordedFor(rems: map<int, Clock>, id: int, replica: int, ts: int) {
    id in rems && Get(rems[id], replica) >= ts
  }

  ghost predicate RemsOver(rems: map<int, Clock>, ids: set<int>) {
    forall id :: id in rems ==> rems[id].Keys == ids
  }

  lemma StepRems(s: State, step: Step, ids: set<int>)
    requires RemsOver(s.rems, ids) && (step.RemoveStep? ==> step.vc.Keys == ids)
    ensures RemsOver(StepOn(s, step).rems, ids)
    ensures forall id, replica, ts :: replica in ids && ts >= 1 ==>
      (RecordedFor(StepOn(s, step).rems, id, replica, ts) <==>
        RecordedFor(s.rems, id, replica, ts) || SeesAt([step], 0, id, replica, ts))
  {
    match step
    case AddStep(x) => AddFrame(s, x);
    case RemoveStep(id, vc, h) =>
      RemoveFrame(s, id, vc, h);
      RemsStep(s.rems, id, vc, ids);
  }

  lemma RemsStep(rems: map<int, Clock>, id: int, vc: Clock, ids: set<int>)
    requires RemsOver(rems, ids) && vc.Keys == ids
    ensures var after := rems[id := if id in rems then Merged(rems[id], vc) else vc];
            && RemsOver(after, ids)
            && forall i, replica, ts :: replica in ids && ts >= 1 ==>
                 (RecordedFor(after, i, replica, ts) <==> RecordedFor(rems, i, replica, ts) || (i == id && Get(vc, replica) >= ts))
  {
    var after := rems[id := if id in rems then Merged(rems[id], vc) else vc];
    forall i, replica, ts | replica in ids && ts >= 1
      ensures RecordedFor(after, i, replica, ts) <==> RecordedFor(rems, i, replica, ts) || (i == id && Get(vc, replica) >= ts)
    {
      if i == id && id in rems {
        assert replica in rems[id].Keys;
        MergedAt(rems[id], vc, replica, ts);
      }
    }
    if id in rems { assert Merged(rems[id], vc).Keys == rems[id].Keys; }
  }

  /** The clocks recorded for an id have seen exactly what some remove of the id has seen. */
  lemma {:induction false} RunRems(s: State, steps: seq<Step>, ids: set<int>)
    requires s.rems == map[] && OverIds(steps, ids)
    ensures RemsOver(Run(s, steps).rems, ids)
    ensures forall id, replica, ts :: replica in ids && ts >= 1 ==>
      (RecordedFor(Run(s, steps).rems, id, replica, ts) <==> SeenByRemove(steps, id, replica, ts))
  {
    if steps != [] {
      var n := |steps| - 1;
      var front, last := steps[..n], steps[n];
      assert steps[n].AddStep? || steps[n].vc.Keys == ids;
      RunRems(s, front, ids);
      StepRems(Run(s, front), last, ids);
      forall id, replica, ts | replica in ids && ts >= 1
        ensures RecordedFor(Run(s, steps).rems, id, replica, ts) <==> SeenByRemove(steps, id, replica, ts)
      {
        SeenOneMore(steps, id, replica, ts);
        assert SeesAt(steps, n, id, replica, ts) <==> SeesAt([last], 0, id, replica, ts);
      }
    }
  }

  /** An add is suppressed exactly if some remove that came before has seen it. */
  lemma SuppressedExactly(s: State, steps: seq<Step>, ids: set<int>, x: Elem)
    requires s.rems == map[] && OverIds(steps, ids) && x.replica in ids && x.ts >= 1
    ensures Suppressed(Run(s, steps), x) <==> SeenByRemove(steps, x.id, x.replica, x.ts)
  {
    RunRems(s, steps, ids);
    assert Suppressed(Run(s, steps), x) <==> RecordedFor(Run(s, steps).rems, x.id, x.replica, x.ts);
  }

  /** An add is live exactly if it was delivered and no delivered remove, before or after, has seen it. */
  lemma {:induction false} LiveExactly(s: State, steps: seq<Step>, ids: set<int>, a: Elem)
    requires s.rems == map[] && OverIds(steps, ids)
    ensures a in Live(s, steps) <==> AddStep(a) in steps && !SeenByRemove(steps, a.id, a.replica, a.ts)
  {
    if steps != [] {
      var n := |steps| - 1;
      var front, last := steps[..n], steps[n];
      assert steps == front + [last];
      LiveExactly(s, front, ids, a);
      SeenOneMore(steps, a.id, a.replica, a.ts);
      LiveOneMore(s, front, last, a);
      if last.AddStep? {
        assert steps[n].x.replica in ids && steps[n].x.ts >= 1;
        SuppressedExactly(s, front, ids, last.x);
      }
    }
  }

  ghost predicate HasRemove(steps: seq<Step>, id: int, vc: Clock) {
    exists h :: RemoveStep(id, vc, h) in steps
  }

  /** The same adds and the same removes, in whatever order and whatever the removes promoted. */
  ghost predicate SameOps(steps: seq<Step>, other: seq<Step>) {
    && (forall x :: AddStep(x) in steps <==> AddStep(x) in other)
    && (forall id, vc :: HasRemove(steps, id, vc) <==> HasRemove(other, id, vc))
  }

  lemma SameOpsSee(steps: seq<Step>, other: seq<Step>, id: int, replica: int, ts: int)
    requires SameOps(steps, other) && SeenByRemove(steps, id, replica, ts)
    ensures SeenByRemove(other, id, replica, ts)
  {
    var i :| SeesAt(steps, i, id, replica, ts);
    var vc := steps[i].vc;
    assert RemoveStep(id, vc, steps[i].h) in steps;
    assert HasRemove(steps, id, vc);
    var h :| RemoveStep(id, vc, h) in other;
    var j :| 0 <= j < |other| && other[j] == RemoveStep(id, vc, h);
    assert SeesAt(other, j, id, replica, ts);
  }

  lemma LiveIsOrderless(s: State, steps: seq<Step>, other: seq<Step>, ids: set<int>)
    requires s.rems == map[] && OverIds(steps, ids) && OverIds(other, ids) && SameOps(steps, other)
    ensures Live(s, steps) == Live(s, other)
  {
    forall a ensures a in Live(s, steps) <==> a in Live(s, other) {
      LiveExactly(s, steps, ids, a);
      LiveExactly(s, other, ids, a);
      if SeenByRemove(steps, a.id, a.replica, a.ts) { SameOpsSee(steps, other, a.id, a.replica, a.ts); }
      if SeenByRemove(other, a.id, a.replica, a.ts) { SameOpsSee(other, steps, a.id, a.replica, a.ts); }
    }
  }

  ghost predicate GoodRun(s: State, steps: seq<Step>, ids: set<int>) {
    PossibleRun(s, steps) && Fifo(steps) && FittingRun(s, steps) && OverIds(steps, ids)
  }

  lemma LiveAreStamped(s: State, steps: seq<Step>, ids: set<int>)
    requires OverIds(steps, ids)
    ensures AllStamped(Live(s, steps))
  {
    forall a | a in Live(s, steps) ensures a.ts >= 1 {
      LiveWereAdded(s, steps, a);
      var i :| 0 <= i < |steps| && steps[i] == AddStep(a);
      assert steps[i].AddStep?;
    }
  }

  /** Convergence: replicas that have delivered the same adds and removes, in different orders and with
      different promotions, show the same ids with the same scores and timestamps. */
  lemma SameOpsSameTop(s: State, steps: seq<Step>, other: seq<Step>, ids: set<int>)
    requires Empty(s) && s.rems == map[] && SameOps(steps, other)
    requires GoodRun(s, steps, ids) && GoodRun(s, other, ids)
    ensures var a, b := Run(s, steps).elems, Run(s, other).elems;
            && (forall id :: id in a <==> id in b)
            && (forall id :: id in a ==> a[id].score == b[id].score && a[id].ts == b[id].ts)
  {
    TopKMeaning(s, steps);
    TopKMeaning(s, other);
    LiveIsOrderless(s, steps, other, ids);
    LiveAreStamped(s, steps, ids);
    TopIsUnique(Live(s, steps), Run(s, steps).elems, Run(s, other).elems, s.maxElems);
  }

  // ---------------------------------------------------------------- replicas that have not delivered the same

  /** No two adds differ only in their replica. */
  ghost predicate Untied(live: set<Elem>) {
    forall a, b :: a in live && b in live && a.id == b.id && a.score == b.score && a.ts == b.ts ==> a == b
  }

  ghost predicate AllIn(elems: Elems, live: set<Elem>) {
    forall id :: id in elems ==> elems[id] in live
  }

  /** A top stays the top of fewer live adds as long as everything it shows is among them. */
  lemma TopOfFewer(live: set<Elem>, fewer: set<Elem>, elems: Elems, k: nat)
    requires IsTop(live, elems, k) && fewer <= live && AllIn(elems, fewer)
    ensures IsTop(fewer, elems, k)
  {
  }

  /** Two tops are equal if and only if everything that either shows is live at the other: adds that only
      one replica knows make no difference as long as it does not show them. */
  lemma SameTopExactly(live1: set<Elem>, e1: Elems, live2: set<Elem>, e2: Elems, k: nat)
    requires AllStamped(live1) && AllStamped(live2) && Untied(live1 + live2)
    requires IsTop(live1, e1, k) && IsTop(live2, e2, k)
    ensures e1 == e2 <==> AllIn(e1, live2) && AllIn(e2, live1)
  {
    if AllIn(e1, live2) && AllIn(e2, live1) {
      var both := live1 * live2;
      TopOfFewer(live1, both, e1, k);
      TopOfFewer(live2, both, e2, k);
      TopIsUnique(both, e1, e2, k);
      forall id | id in e1 ensures e1[id] == e2[id] {
        assert e1[id] in live1 + live2 && e2[id] in live1 + live2;
      }
      assert forall id :: id in e1.Keys <==> id in e2.Keys;
      SameKeys(e1.Keys, e2.Keys);
      SameMap(e1, e2);
    }
  }

  lemma SameKeys<T(!new)>(a: set<T>, b: set<T>)
    requires forall x :: x in a <==> x in b
    ensures a == b
  {
  }

  /** So for any two replicas, whatever each has applied, adds and removes that were never sent included:
      they show the same exactly if everything that either shows is live at the other. */
  lemma ReplicasAgreeExactly(s: State, steps: seq<Step>, other: seq<Step>, ids: set<int>)
    requires Empty(s) && GoodRun(s, steps, ids) && GoodRun(s, other, ids)
    requires Untied(Live(s, steps) + Live(s, other))
    ensures Run(s, steps).elems == Run(s, other).elems
       <==> AllIn(Run(s, steps).elems, Live(s, other)) && AllIn(Run(s, other).elems, Live(s, steps))
  {
    TopKMeaning(s, steps);
    TopKMeaning(s, other);
    LiveAreStamped(s, steps, ids);
    LiveAreStamped(s, other, ids);
    SameTopExactly(Live(s, steps), Run(s, steps).elems, Live(s, other), Run(s, other).elems, s.maxElems);
  }
}
