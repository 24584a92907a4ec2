/** What the top-K of TopKRmv shows over whole runs: the best of the live adds. */
module TopK {
  import opened GoMaps
  import opened Clocks
  import opened TopKRmv
  import opened TopKInvariant

  // ---------------------------------------------------------------- the k best

  /** elems are the k highest ids of the live adds, each with its best add: a live add of a visible id is
      not higher than the one shown, and live adds of other ids are below all of a full top. */
  ghost predicate IsTop(live: set<Elem>, elems: Elems, k: nat) {
    && (forall id :: id in elems ==> elems[id].id == id && elems[id] in live)
    && |elems| <= k
    && (forall a :: a in live && a.id in elems ==> !IsHigher(a, elems[a.id]))
    && (forall a :: a in live && a.id !in elems ==> |elems| == k && AllHigher(elems, a))
  }

  ghost predicate AllHigher(elems: Elems, a: Elem) {
    forall id :: id in elems ==> IsHigher(elems[id], a)
  }

  ghost predicate AllStamped(live: set<Elem>) {
    forall a :: a in live ==> a.ts >= 1
  }

  /** If an id is shown by one top but not by another, the other shows only ids of the first. */
  lemma OtherIds(live: set<Elem>, e1: Elems, e2: Elems, k: nat, id: int)
    requires AllStamped(live) && IsTop(live, e1, k) && IsTop(live, e2, k) && id in e1 && id !in e2
    ensures e2.Keys <= e1.Keys - {id} && |e2| == k
  {
    assert AllHigher(e2, e1[id]);
    forall j | j in e2.Keys ensures j in e1.Keys - {id} {
      assert j !in e1 ==> AllHigher(e1, e2[j]);
    }
  }

  lemma TopIncludes(live: set<Elem>, e1: Elems, e2: Elems, k: nat, id: int)
    requires AllStamped(live) && IsTop(live, e1, k) && IsTop(live, e2, k) && id in e1
    ensures id in e2
  {
    assert |e1.Keys - {id}| == |e1.Keys| - 1;
    if id !in e2 {
      OtherIds(live, e1, e2, k, id);
      SubsetSize(e2.Keys, e1.Keys - {id});
    }
  }

  lemma {:induction false} SubsetSize<T>(a: set<T>, b: set<T>)
    requires a <= b
    ensures |a| <= |b|
    decreases |a|
  {
    if a != {} {
      var x :| x in a;
      SubsetSize(a - {x}, b - {x});
    }
  }

  /** The live adds determine which ids are visible, with which score and timestamp. */
  lemma TopIsUnique(live: set<Elem>, e1: Elems, e2: Elems, k: nat)
    requires AllStamped(live) && IsTop(live, e1, k) && IsTop(live, e2, k)
    ensures forall id :: id in e1 <==> id in e2
    ensures forall id :: id in e1 ==> e1[id].score == e2[id].score && e1[id].ts == e2[id].ts
  {
    forall id ensures id in e1 <==> id in e2 {
      if id in e1 { TopIncludes(live, e1, e2, k, id); }
      if id in e2 { TopIncludes(live, e2, e1, k, id); }
    }
    forall id | id in e1 ensures e1[id].score == e2[id].score && e1[id].ts == e2[id].ts {
      assert !IsHigher(e1[id], e2[id]) && !IsHigher(e2[id], e1[id]);
    }
  }

  /** What a top shows, by score: no live add of a visible id has a higher score than the one shown, or the
      same score and a later stamp, and no live add of an invisible id has a higher score than any shown, or the
      same score and a higher id. */
  lemma TopByScore(live: set<Elem>, elems: Elems, k: nat, a: Elem, id: int)
    requires AllStamped(live) && IsTop(live, elems, k) && a in live && id in elems
    ensures var e := elems[id];
            && (a.id == id ==> a.score < e.score || (a.score == e.score && a.ts <= e.ts))
            && (a.id !in elems ==> a.score < e.score || (a.score == e.score && a.id < id))
  {
    assert elems[id] in live && elems[id].ts >= 1;
    if a.id !in elems { assert AllHigher(elems, a); }
  }

  // ---------------------------------------------------------------- live adds and stored adds

  /** y stands for a; with removes to come it must also be from the same replica and not older. */
  ghost predicate Dominates(y: Elem, a: Elem, inOrder: bool) {
    y.id == a.id && !IsHigher(a, y) && (inOrder ==> y.replica == a.replica && a.ts <= y.ts)
  }

  ghost predicate Covered(s: State, a: Elem, inOrder: bool) {
    exists y :: IsStored(s, y) && Dominates(y, a, inOrder)
  }

  /** Everything stored is live, and every live add is stored or stands behind a better stored one. */
  ghost predicate Shows(s: State, live: set<Elem>, inOrder: bool) {
    Inv(s) && AllStamped(live) && StoresOnly(s, live) && CoversAll(s, live, inOrder)
  }

  ghost predicate StoresOnly(s: State, live: set<Elem>) {
    forall y :: IsStored(s, y) ==> y in live
  }

  ghost predicate CoversAll(s: State, live: set<Elem>, inOrder: bool) {
    forall a :: a in live ==> Covered(s, a, inOrder)
  }

  lemma VisibleIsBest(s: State, a: Elem, inOrder: bool)
    requires Keyed(s.elems) && HiddenLow(s.elems, s.hidden) && a.ts >= 1 && a.id in s.elems && Covered(s, a, inOrder)
    ensures !IsHigher(a, s.elems[a.id])
  {
    var y :| IsStored(s, y) && Dominates(y, a, inOrder);
    assert s.elems[a.id].ts >= 1;
    assert y == s.elems[a.id] || !IsHigher(y, s.elems[a.id]);
  }

  lemma InvisibleIsBelow(s: State, a: Elem, inOrder: bool)
    requires Keyed(s.elems) && KeyedHidden(s.hidden) && IsMinOf(s.elems, s.smallest)
    requires InvisibleLow(s.elems, s.hidden, s.smallest, s.maxElems)
    requires a.ts >= 1 && a.id !in s.elems && Covered(s, a, inOrder)
    ensures |s.elems| == s.maxElems && AllHigher(s.elems, a)
  {
    var y :| IsStored(s, y) && Dominates(y, a, inOrder);
    assert IsHidden(s.hidden, y) && IsHigher(s.smallest, y);
    forall id | id in s.elems ensures IsHigher(s.elems[id], a) {
      assert s.elems[id] == s.smallest || IsHigher(s.elems[id], s.smallest);
    }
  }

  lemma ShownIsTop(s: State, live: set<Elem>, inOrder: bool)
    requires Shows(s, live, inOrder)
    ensures IsTop(live, s.elems, s.maxElems)
  {
    forall id | id in s.elems ensures s.elems[id] in live {
      assert IsStored(s, s.elems[id]);
    }
    forall a | a in live
      ensures a.id in s.elems ==> !IsHigher(a, s.elems[a.id])
      ensures a.id !in s.elems ==> |s.elems| == s.maxElems && AllHigher(s.elems, a)
    {
      if a.id in s.elems { VisibleIsBest(s, a, inOrder); } else { InvisibleIsBelow(s, a, inOrder); }
    }
  }

  /** Adds of one id by one replica arrive with non-decreasing timestamps. */
  ghost predicate ArrivesInOrder(live: set<Elem>, x: Elem) {
    forall a :: a in live && a.id == x.id && a.replica == x.replica ==> a.ts <= x.ts
  }

  /** What AddConserves says of the state after the add of x, which is stored if `taken`. */
  ghost predicate Conserves(s: State, after: State, x: Elem, taken: bool) {
    && (taken ==> IsStored(after, x))
    && (forall y :: IsStored(after, y) ==> IsStored(s, y) || (taken && y == x))
    && (forall y :: IsStored(s, y) ==> IsStored(after, y) || (taken && Replaces(s, x) && y == s.elems[x.id]))
  }

  lemma AddCovers(s: State, after: State, x: Elem, taken: bool, y: Elem, a: Elem, inOrder: bool)
    requires Keyed(s.elems) && Conserves(s, after, x, taken) && x.ts >= 1 && a.ts >= 1
    requires IsStored(s, y) && Dominates(y, a, inOrder)
    requires inOrder && y.id == x.id && y.replica == x.replica ==> y.ts <= x.ts
    ensures Covered(after, a, inOrder)
  {
    if IsStored(after, y) {
    } else {
      assert IsStored(after, x) && y == s.elems[x.id] && y.ts >= 1;
      assert Dominates(x, a, inOrder);
    }
  }

  ghost function Grown(live: set<Elem>, x: Elem, taken: bool): set<Elem> {
    if taken then live + {x} else live
  }

  lemma AddCoversAll(s: State, after: State, live: set<Elem>, x: Elem, taken: bool, inOrder: bool)
    requires Keyed(s.elems) && AllStamped(live) && x.ts >= 1 && (inOrder ==> ArrivesInOrder(live, x))
    requires StoresOnly(s, live) && CoversAll(s, live, inOrder) && Conserves(s, after, x, taken)
    ensures CoversAll(after, Grown(live, x, taken), inOrder)
  {
    forall a | a in Grown(live, x, taken) ensures Covered(after, a, inOrder) {
      AddCoversOne(s, after, live, x, taken, a, inOrder);
    }
  }

  lemma AddCoversOne(s: State, after: State, live: set<Elem>, x: Elem, taken: bool, a: Elem, inOrder: bool)
    requires Keyed(s.elems) && AllStamped(live) && x.ts >= 1 && (inOrder ==> ArrivesInOrder(live, x))
    requires StoresOnly(s, live) && Conserves(s, after, x, taken)
    requires (a in live && Covered(s, a, inOrder)) || (taken && a == x)
    ensures Covered(after, a, inOrder)
  {
    if taken && a == x {
      assert IsStored(after, x) && Dominates(x, x, inOrder);
    } else {
      var y :| IsStored(s, y) && Dominates(y, a, inOrder);
      AddCovers(s, after, x, taken, y, a, inOrder);
    }
  }

  lemma AddStoresLive(s: State, after: State, live: set<Elem>, x: Elem, taken: bool)
    requires Conserves(s, after, x, taken) && StoresOnly(s, live) && AllStamped(live) && x.ts >= 1
    ensures StoresOnly(after, Grown(live, x, taken)) && AllStamped(Grown(live, x, taken))
  {
  }

  lemma AddShows(s: State, live: set<Elem>, x: Elem, inOrder: bool)
    requires Shows(s, live, inOrder) && x.ts >= 1 && (inOrder ==> ArrivesInOrder(live, x))
    ensures Shows(Added(s, x), if Suppressed(s, x) then live else live + {x}, inOrder)
  {
    AddKeepsInv(s, x);
    AddConserves(s, x);
    AddCoversAll(s, Added(s, x), live, x, !Suppressed(s, x), inOrder);
    AddStoresLive(s, Added(s, x), live, x, !Suppressed(s, x));
    assert Grown(live, x, !Suppressed(s, x)) == if Suppressed(s, x) then live else live + {x};
  }

  function Unseen(live: set<Elem>, id: int, vc: Clock): set<Elem> {
    set a | a in live && !(a.id == id && a.ts <= Get(vc, a.replica))
  }

  ghost predicate Cuts(s: State, after: State, id: int, vc: Clock) {
    forall y :: IsStored(after, y) <==> IsStored(s, y) && !Seen(y, id, vc)
  }

  lemma RemoveCovers(s: State, after: State, live: set<Elem>, id: int, vc: Clock)
    requires StoresOnly(s, live) && CoversAll(s, live, true) && AllStamped(live) && Cuts(s, after, id, vc)
    ensures StoresOnly(after, Unseen(live, id, vc)) && CoversAll(after, Unseen(live, id, vc), true)
    ensures AllStamped(Unseen(live, id, vc))
  {
    forall a | a in Unseen(live, id, vc) ensures Covered(after, a, true) {
      CoverStays(s, after, id, vc, a);
    }
    forall y | IsStored(after, y) ensures y in Unseen(live, id, vc) {
      assert IsStored(s, y) && !Seen(y, id, vc);
    }
  }

  /** What stands for an add that the remove has not seen was not seen either. */
  lemma CoverStays(s: State, after: State, id: int, vc: Clock, a: Elem)
    requires Cuts(s, after, id, vc) && Covered(s, a, true) && !(a.id == id && a.ts <= Get(vc, a.replica))
    ensures Covered(after, a, true)
  {
    var y :| IsStored(s, y) && Dominates(y, a, true);
    assert !Seen(y, id, vc);
    assert IsStored(after, y);
  }

  /** The remove cuts the live adds it has seen, and leaves the cached minimum right. */
  lemma RemoveShows(s: State, live: set<Elem>, id: int, vc: Clock, h: Elem)
    requires Shows(s, live, true) && MayPromote(s, id, vc, h)
    requires SafeRemove(s, id, vc)
    ensures Shows(Removed(s, id, vc, h), Unseen(live, id, vc), true)
  {
    RemoveKeepsInvExactly(s, id, vc, h);
    RemoveConserves(s, id, vc, h);
    RemoveCovers(s, Removed(s, id, vc, h), live, id, vc);
  }

  // ---------------------------------------------------------------- runs

  datatype Step = AddStep(x: Elem) | RemoveStep(id: int, vc: Clock, h: Elem)

  ghost function StepOn(s: State, step: Step): State {
    match step
    case AddStep(x) => Added(s, x)
    case RemoveStep(id, vc, h) => Removed(s, id, vc, h)
  }

  ghost function Run(s: State, steps: seq<Step>): State {
    if steps == [] then s else StepOn(Run(s, steps[..|steps| - 1]), steps[|steps| - 1])
  }

  /** Adds carry a timestamp, and h is an element the remove may promote. */
  ghost predicate Possible(s: State, step: Step) {
    match step
    case AddStep(x) => x.ts >= 1
    case RemoveStep(id, vc, h) => MayPromote(s, id, vc, h)
  }

  ghost predicate PossibleRun(s: State, steps: seq<Step>) {
    forall i :: 0 <= i < |steps| ==> Possible(Run(s, steps[..i]), steps[i])
  }

  /** What a remove must meet before it is applied. */
  ghost predicate Fits(s: State, step: Step) {
    step.RemoveStep? ==> SafeRemove(s, step.id, step.vc)
  }

  lemma StepKeepsInvExactly(s: State, step: Step)
    requires Inv(s) && Possible(s, step)
    ensures Inv(StepOn(s, step)) <==> Fits(s, step)
  {
    match step
    case AddStep(x) => AddKeepsInv(s, x);
    case RemoveStep(id, vc, h) => RemoveKeepsInvExactly(s, id, vc, h);
  }

  ghost predicate FittingRun(s: State, steps: seq<Step>) {
    forall i :: 0 <= i < |steps| ==> Fits(Run(s, steps[..i]), steps[i])
  }

  lemma PrefixOfRun(s: State, steps: seq<Step>, n: nat)
    requires n <= |steps|
    ensures PossibleRun(s, steps) ==> PossibleRun(s, steps[..n])
    ensures FittingRun(s, steps) ==> FittingRun(s, steps[..n])
  {
    forall i | 0 <= i < n ensures steps[..n][..i] == steps[..i] && steps[..n][i] == steps[i] {
    }
  }

  lemma {:induction false} FittingRunKeepsInv(s: State, steps: seq<Step>)
    requires Inv(s) && PossibleRun(s, steps) && FittingRun(s, steps)
    ensures Inv(Run(s, steps))
  {
    if steps != [] {
      var n := |steps| - 1;
      PrefixOfRun(s, steps, n);
      FittingRunKeepsInv(s, steps[..n]);
      assert Possible(Run(s, steps[..n]), steps[n]) && Fits(Run(s, steps[..n]), steps[n]);
      StepKeepsInvExactly(Run(s, steps[..n]), steps[n]);
    }
  }

  lemma InvNeedsFit(s: State, steps: seq<Step>, i: nat)
    requires i < |steps| && Possible(Run(s, steps[..i]), steps[i])
    requires Inv(Run(s, steps[..i])) && Inv(Run(s, steps[..i + 1]))
    ensures Fits(Run(s, steps[..i]), steps[i])
  {
    assert steps[..i + 1][..i] == steps[..i];
    StepKeepsInvExactly(Run(s, steps[..i]), steps[i]);
  }

  /** Over every run of adds and removes from any replicas in any order, the invariant holds throughout if
      and only if every remove is safe where it is applied. */
  lemma InvariantThroughoutExactly(s: State, steps: seq<Step>)
    requires Inv(s) && PossibleRun(s, steps)
    ensures (forall i :: 0 <= i <= |steps| ==> Inv(Run(s, steps[..i]))) <==> FittingRun(s, steps)
  {
    if FittingRun(s, steps) {
      forall n: nat | n <= |steps| ensures Inv(Run(s, steps[..n])) {
        PrefixOfRun(s, steps, n);
        FittingRunKeepsInv(s, steps[..n]);
      }
    } else {
      var i: nat :| i < |steps| && !Fits(Run(s, steps[..i]), steps[i]);
      if Inv(Run(s, steps[..i])) && Inv(Run(s, steps[..i + 1])) {
        InvNeedsFit(s, steps, i);
      }
    }
  }

  /** The adds that took effect and that no later remove of their id has seen. */
  ghost function Live(s: State, steps: seq<Step>): set<Elem> {
    if steps == [] then {}
    else LiveOn(Run(s, steps[..|steps| - 1]), Live(s, steps[..|steps| - 1]), steps[|steps| - 1])
  }

  /** The adds of one id by one replica arrive in the order of their timestamps. */
  ghost predicate Fifo(steps: seq<Step>) {
    forall i, j :: 0 <= i < j < |steps| && steps[i].AddStep? && steps[j].AddStep? ==> InOrder(steps[i].x, steps[j].x)
  }

  predicate InOrder(x: Elem, y: Elem) {
    x.id == y.id && x.replica == y.replica ==> x.ts <= y.ts
  }

  lemma LiveOneMore(s: State, front: seq<Step>, last: Step, a: Elem)
    ensures a in Live(s, front + [last]) <==>
              match last
              case AddStep(x) => a in Live(s, front) || (a == x && !Suppressed(Run(s, front), x))
              case RemoveStep(id, vc, _) => a in Live(s, front) && !(a.id == id && Get(vc, a.replica) >= a.ts)
  {
    assert (front + [last])[..|front|] == front;
  }

  lemma {:induction false} LiveWereAdded(s: State, steps: seq<Step>, a: Elem)
    requires a in Live(s, steps)
    ensures AddStep(a) in steps
  {
    var n := |steps| - 1;
    assert steps == steps[..n] + [steps[n]];
    LiveOneMore(s, steps[..n], steps[n], a);
    if a in Live(s, steps[..n]) {
      LiveWereAdded(s, steps[..n], a);
    }
  }

  ghost predicate Empty(s: State) {
    s.maxElems >= 1 && s.elems == map[] && s.smallest == ZERO && s.hidden == map[]
  }

  ghost function LiveOn(s: State, live: set<Elem>, step: Step): set<Elem> {
    match step
    case AddStep(x) => if Suppressed(s, x) then live else live + {x}
    case RemoveStep(id, vc, _) => Unseen(live, id, vc)
  }

  lemma StepShows(s: State, live: set<Elem>, step: Step)
    requires Shows(s, live, true) && Possible(s, step) && Fits(s, step)
    requires step.AddStep? ==> ArrivesInOrder(live, step.x)
    ensures Shows(StepOn(s, step), LiveOn(s, live, step), true)
  {
    if step.AddStep? {
      AddShows(s, live, step.x, true);
    } else {
      RemoveShows(s, live, step.id, step.vc, step.h);
    }
  }

  lemma StepKeepsSize(s: State, step: Step)
    ensures StepOn(s, step).maxElems == s.maxElems
  {
    match step
    case AddStep(x) => AddFrame(s, x);
    case RemoveStep(id, vc, h) => RemoveFrame(s, id, vc, h);
  }

  lemma FifoArrives(s: State, steps: seq<Step>, n: nat)
    requires Fifo(steps) && n < |steps| && steps[n].AddStep?
    ensures ArrivesInOrder(Live(s, steps[..n]), steps[n].x)
  {
    forall a | a in Live(s, steps[..n]) ensures InOrder(a, steps[n].x) {
      LiveWereAdded(s, steps[..n], a);
      var i :| 0 <= i < n && steps[..n][i] == AddStep(a);
      assert steps[i] == AddStep(a);
    }
  }

  lemma {:induction false} RunShows(s: State, steps: seq<Step>)
    requires Empty(s) && PossibleRun(s, steps) && Fifo(steps) && FittingRun(s, steps)
    ensures Shows(Run(s, steps), Live(s, steps), true) && Run(s, steps).maxElems == s.maxElems
  {
    if steps == [] {
      EmptyTopKeepsInv(s);
    } else {
      var n := |steps| - 1;
      PrefixOfRun(s, steps, n);
      RunShows(s, steps[..n]);
      if steps[n].AddStep? { FifoArrives(s, steps, n); }
      assert Possible(Run(s, steps[..n]), steps[n]) && Fits(Run(s, steps[..n]), steps[n]);
      StepShows(Run(s, steps[..n]), Live(s, steps[..n]), steps[n]);
      StepKeepsSize(Run(s, steps[..n]), steps[n]);
    }
  }

  /** In every run in which the adds of each id by each replica arrive in order and every remove is safe, the
      top shows exactly the best of the live adds. */
  lemma TopKMeaning(s: State, steps: seq<Step>)
    requires Empty(s) && PossibleRun(s, steps) && Fifo(steps) && FittingRun(s, steps)
    ensures IsTop(Live(s, steps), Run(s, steps).elems, s.maxElems)
  {
    RunShows(s, steps);
    ShownIsTop(Run(s, steps), Live(s, steps), true);
  }

  /** Every remove has seen all hidden adds of its id. */
  ghost predicate LeavesNoSurvivor(s: State, steps: seq<Step>) {
    forall i :: 0 <= i < |steps| && steps[i].RemoveStep? ==> Survivors(Run(s, steps[..i]), steps[i].id, steps[i].vc) == {}
  }

  /** Removes that leave no hidden add of their id are safe wherever the invariant holds, so the top shows
      the best of the live adds in every run of them. */
  lemma NoSurvivorsIsSafe(s: State, steps: seq<Step>)
    requires LeavesNoSurvivor(s, steps)
    ensures FittingRun(s, steps)
  {
    forall i | 0 <= i < |steps| ensures Fits(Run(s, steps[..i]), steps[i]) {
      if steps[i].RemoveStep? {
        assert Survivors(Run(s, steps[..i]), steps[i].id, steps[i].vc) == {};
      }
    }
  }

  lemma NoSurvivorsTopK(s: State, steps: seq<Step>)
    requires Empty(s) && PossibleRun(s, steps) && Fifo(steps) && LeavesNoSurvivor(s, steps)
    ensures IsTop(Live(s, steps), Run(s, steps).elems, s.maxElems)
  {
    NoSurvivorsIsSafe(s, steps);
    TopKMeaning(s, steps);
  }

  // ---------------------------------------------------------------- adds alone

  ghost function SetOf(xs: seq<Elem>): set<Elem> {
    set x | x in xs
  }

  lemma SetOfMore(xs: seq<Elem>, x: Elem)
    ensures SetOf(xs + [x]) == SetOf(xs) + {x}
  {
  }

  lemma {:induction false} AddsShow(s: State, xs: seq<Elem>)
    requires Empty(s) && s.rems == map[] && forall x :: x in xs ==> x.ts >= 1
    ensures Shows(AddedAll(s, xs), SetOf(xs), false)
    ensures AddedAll(s, xs).maxElems == s.maxElems && AddedAll(s, xs).rems == map[]
  {
    if xs == [] {
      EmptyTopKeepsInv(s);
    } else {
      var front, x := xs[..|xs| - 1], xs[|xs| - 1];
      assert xs == front + [x];
      AddsShow(s, front);
      SetOfMore(front, x);
      AddFrame(AddedAll(s, front), x);
      AddShows(AddedAll(s, front), SetOf(front), x, false);
    }
  }

  /** For adds alone, from any replicas and in any order, the visible ids and their scores depend only on
      the set of adds. */
  lemma AddOrderIsIrrelevant(s: State, xs: seq<Elem>, ys: seq<Elem>)
    requires Empty(s) && s.rems == map[] && (forall x :: x in xs ==> x.ts >= 1)
    requires forall x :: x in xs <==> x in ys
    ensures var a, b := AddedAll(s, xs).elems, AddedAll(s, ys).elems;
            && (forall id :: id in a <==> id in b)
            && (forall id :: id in a ==> a[id].score == b[id].score && a[id].ts == b[id].ts)
  {
    var live := SetOf(xs);
    assert live == SetOf(ys);
    AddsShow(s, xs);
    AddsShow(s, ys);
    ShownIsTop(AddedAll(s, xs), live, false);
    ShownIsTop(AddedAll(s, ys), live, false);
    TopIsUnique(live, AddedAll(s, xs).elems, AddedAll(s, ys).elems, s.maxElems);
  }
}
