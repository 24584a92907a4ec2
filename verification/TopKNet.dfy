/** N replicas of the top-K of TopKRmv: requests are prepared where they are made and applied at once, only
    some of them are sent, applying a received update may send another (what a request generates where it is
    made is dropped, potionDB/components/materializer.go:1094), and what was sent is received anywhere, in any
    order.  When do two replicas show the same top? */
module TopKNet {
  import opened GoMaps
  import opened Clocks
  import opened TopKRmv
  import opened TopKInvariant
  import opened TopK
  import opened TopKConvergence
  import opened TopKLocal

  /** A replica's state, and what it has applied so far. */
  datatype Node = Node(state: State, trail: seq<Step>)

  datatype Net = Net(nodes: seq<Node>, sent: set<Update>)

  /** A local add or remove, or the receipt of an update; h is the element that a remove promotes. */
  datatype Event = AddAt(r: nat, id: int, score: int) | RemoveAt(r: nat, id: int, h: Elem) | Receive(r: nat, u: Update, h: Elem)

  function EmptyTop(ids: seq<int>, k: nat): State {
    State(k, map[], ZERO, map[], map[], map i | i in ids :: 0)
  }

  /** What applying a received step sends: the remove that suppressed an add, or the add that a remove promoted. */
  function Resent(s: State, step: Step): set<Update> {
    match step
    case AddStep(x) => var late := Suppressor(s, x); if late.Some? then {DownstreamRemove(x.id, late.value)} else {}
    case RemoveStep(id, vc, h) => if h == ZERO then {} else {DownstreamAdd(h)}
  }

  ghost function NetStep(net: Net, r: nat, step: Step, sends: set<Update>): Net
    requires r < |net.nodes|
  {
    var node := net.nodes[r];
    Net(net.nodes[r := Node(StepOn(node.state, step), node.trail + [step])], net.sent + sends)
  }

  function StepOf(u: Update, h: Elem): Step
    requires !u.NoOp?
  {
    match u
    case DownstreamAdd(x) => AddStep(x)
    case OptDownstreamAdd(x) => AddStep(x)
    case DownstreamRemove(id, vc) => RemoveStep(id, vc, h)
    case OptDownstreamRemove(id, vc) => RemoveStep(id, vc, h)
  }

  /** The update that an event applies: a prepared request or one that was sent. */
  ghost function UpdateOf(net: Net, ids: seq<int>, e: Event): Update
    requires |net.nodes| == |ids| && e.r < |ids|
  {
    match e
    case AddAt(r, id, score) => PrepareAdd(net.nodes[r].state, ids[r], id, score)
    case RemoveAt(r, id, _) => PrepareRemove(net.nodes[r].state, id)
    case Receive(_, u, _) => u
  }

  function Promoted(e: Event): Elem {
    match e
    case AddAt(_, _, _) => ZERO
    case RemoveAt(_, _, h) => h
    case Receive(_, _, h) => h
  }

  ghost predicate Enabled(net: Net, ids: seq<int>, e: Event) {
    && |net.nodes| == |ids| && e.r < |ids|
    && (e.Receive? ==> e.u in net.sent)
    && !UpdateOf(net, ids, e).NoOp?
    && Possible(net.nodes[e.r].state, StepOf(UpdateOf(net, ids, e), Promoted(e)))
  }

  /** What an event sends: a request itself if it must be replicated, and for an update received what
      applying it generates. */
  ghost function Sends(net: Net, ids: seq<int>, e: Event): set<Update>
    requires Enabled(net, ids, e)
  {
    var u := UpdateOf(net, ids, e);
    if e.Receive? then Resent(net.nodes[e.r].state, StepOf(u, e.h)) else if MustReplicate(u) then {u} else {}
  }

  ghost function Happen(net: Net, ids: seq<int>, e: Event): Net {
    if Enabled(net, ids, e) then NetStep(net, e.r, StepOf(UpdateOf(net, ids, e), Promoted(e)), Sends(net, ids, e)) else net
  }

  ghost function RunNet(ids: seq<int>, k: nat, events: seq<Event>): Net {
    if events == [] then Net(seq(|ids|, _ => Node(EmptyTop(ids, k), [])), {})
    else Happen(RunNet(ids, k, events[..|events| - 1]), ids, events[|events| - 1])
  }

  /** Applying a local add after the clock ticked is applying the add. */
  lemma TickIsPartOfAdd(s: State, self: int, id: int, score: int)
    ensures Added(Ticked(s, self), NewElem(s, self, id, score)) == Added(s, NewElem(s, self, id, score))
  {
    var x := NewElem(s, self, id, score);
    assert s.vc[self := x.ts][self := x.ts] == s.vc[self := x.ts];
    assert SeenBy(Ticked(s, self).vc, x) == SeenBy(s.vc, x);
  }

  // ---------------------------------------------------------------- what a replica knows

  ghost predicate Known(s: State, y: Elem) {
    IsStored(s, y) || (y == s.smallest && y != ZERO)
  }

  lemma InsertKnows(s: State, x: Elem, y: Elem)
    requires WellFormed(s) && x.ts >= 1 && Known(Inserted(s, x), y)
    ensures Known(s, y) || y == x
  {
    if x.id in s.elems {
      InsertConservesVisible(s, x, y);
      MinExists(s.elems[x.id := x]);
    } else if |s.elems| >= s.maxElems && IsHigher(x, s.smallest) {
      if s.smallest != ZERO { HideHides(s.hidden, s.smallest); }
      MinExists((s.elems - {s.smallest.id})[x.id := x]);
    } else if |s.elems| >= s.maxElems {
      HideHides(s.hidden, x);
    }
  }

  lemma AddKnows(s: State, x: Elem, y: Elem)
    requires WellFormed(s) && x.ts >= 1 && Known(Added(s, x), y)
    ensures Known(s, y) || y == x
  {
    var now := s.(vc := SeenBy(s.vc, x));
    if Suppressed(s, x) {
      assert IsStored(now, y) ==> IsStored(s, y);
    } else {
      InsertKnows(now, x, y);
      assert IsStored(now, y) ==> IsStored(s, y);
    }
  }

  lemma TakenMin(s: State, id: int, h: Elem)
    requires WellFormed(s) && id in s.elems && Promotes(s, id, h)
    ensures var m := Taken(s, id, h).smallest;
            m == ZERO || m == s.smallest || IsStored(s, m)
  {
    if h == ZERO {
      MinExists(s.elems - {id});
    } else {
      assert h in HiddenOf(s.hidden, h.id);
    }
  }

  lemma RemoveKnows(s: State, id: int, vc: Clock, h: Elem, y: Elem)
    requires WellFormed(s) && MayPromote(s, id, vc, h) && Known(Removed(s, id, vc, h), y)
    ensures Known(s, y)
  {
    RemoveConserves(s, id, vc, h);
    RecordedHidden(s, id, vc);
    if Takes(s, id, vc) {
      RecordedKeyed(s, id, vc);
      TakenMin(Recorded(s, id, vc), id, h);
    }
  }

  lemma PromotedIsKnown(s: State, id: int, vc: Clock, h: Elem)
    requires WellFormed(s) && MayPromote(s, id, vc, h) && h != ZERO
    ensures Known(s, h)
  {
    RecordedHidden(s, id, vc);
    var r := Recorded(s, id, vc);
    assert h in HiddenOf(r.hidden, h.id) by {
      if !WasFull(r, id) { assert h in HiddenOf(r.hidden, id) && KeyedHidden(r.hidden) by { RecordedKeyed(s, id, vc); } }
    }
    assert IsHidden(r.hidden, h);
  }

  lemma StepWellFormed(s: State, step: Step)
    requires WellFormed(s) && Possible(s, step)
    ensures WellFormed(StepOn(s, step))
  {
    match step
    case AddStep(x) => AddWellFormed(s, x);
    case RemoveStep(id, vc, h) =>
      RecordedKeyed(s, id, vc);
      if Takes(s, id, vc) { TakenIsWellFormed(Recorded(s, id, vc), id, h); }
  }

  lemma AddWellFormed(s: State, x: Elem)
    requires WellFormed(s) && x.ts >= 1
    ensures WellFormed(Added(s, x))
  {
    if !Suppressed(s, x) { InsertWellFormed(s.(vc := SeenBy(s.vc, x)), x); }
  }

  lemma InsertWellFormed(s: State, x: Elem)
    requires WellFormed(s) && x.ts >= 1
    ensures WellFormed(Inserted(s, x))
  {
    HideHides(s.hidden, x);
    if x.id in s.elems {
      ReplaceWellFormed(s, x);
    } else if |s.elems| >= s.maxElems && IsHigher(x, s.smallest) {
      EvictWellFormed(s, x);
    }
  }

  lemma ReplaceWellFormed(s: State, x: Elem)
    requires WellFormed(s) && x.ts >= 1 && x.id in s.elems
    ensures WellFormed(Inserted(s, x))
  {
    MinExists(s.elems[x.id := x]);
    HideHides(s.hidden, s.elems[x.id]);
    HideHides(s.hidden, x);
  }

  lemma EvictWellFormed(s: State, x: Elem)
    requires WellFormed(s) && x.ts >= 1 && x.id !in s.elems && |s.elems| >= s.maxElems && IsHigher(x, s.smallest)
    ensures WellFormed(Inserted(s, x))
  {
    assert s.elems != map[];
    HideHides(s.hidden, s.smallest);
    MinExists((s.elems - {s.smallest.id})[x.id := x]);
  }

  // ---------------------------------------------------------------- the invariant of a network run

  /** An update that may be received: clocks over the ids, positive timestamps. */
  ghost predicate Sound(u: Update, ids: set<int>) {
    match u
    case DownstreamAdd(x) => x.replica in ids && x.ts >= 1
    case DownstreamRemove(_, vc) => vc.Keys == ids
    case _ => false
  }

  ghost predicate SoundStep(step: Step, ids: set<int>) {
    match step
    case AddStep(x) => x.replica in ids && x.ts >= 1
    case RemoveStep(_, vc, _) => vc.Keys == ids
  }

  ghost predicate SoundClock(vc: Clock, ids: set<int>) {
    vc.Keys == ids && forall i :: Get(vc, i) >= 0
  }

  ghost predicate KnowsOnly(s: State, steps: seq<Step>) {
    forall y :: Known(s, y) ==> AddStep(y) in steps
  }

  ghost predicate NodeInv(node: Node, start: State, ids: set<int>) {
    && node.state == Run(start, node.trail) && PossibleRun(start, node.trail) && OverIds(node.trail, ids)
    && WellFormed(node.state) && SoundClock(node.state.vc, ids) && RemsOver(node.state.rems, ids)
    && KnowsOnly(node.state, node.trail)
  }

  ghost predicate NetInv(net: Net, ids: seq<int>, k: nat) {
    && |net.nodes| == |ids|
    && (forall r :: 0 <= r < |ids| ==> NodeInv(net.nodes[r], EmptyTop(ids, k), SetOfIds(ids)))
    && AllSound(net.sent, SetOfIds(ids))
  }

  ghost predicate AllSound(us: set<Update>, ids: set<int>) {
    forall u :: u in us ==> Sound(u, ids)
  }

  function SetOfIds(ids: seq<int>): set<int> {
    set i | i in ids
  }

  lemma StepKnows(s: State, steps: seq<Step>, step: Step)
    requires WellFormed(s) && Possible(s, step) && KnowsOnly(s, steps)
    ensures KnowsOnly(StepOn(s, step), steps + [step])
  {
    forall y | Known(StepOn(s, step), y) ensures AddStep(y) in steps + [step] {
      match step
      case AddStep(x) => AddKnows(s, x, y);
      case RemoveStep(id, vc, h) => RemoveKnows(s, id, vc, h, y);
    }
  }

  lemma StepClock(s: State, step: Step, ids: set<int>)
    requires SoundClock(s.vc, ids) && SoundStep(step, ids)
    ensures SoundClock(StepOn(s, step).vc, ids)
  {
    match step
    case AddStep(x) =>
      AddFrame(s, x);
      assert x.replica in s.vc.Keys;
      SameKeysAfterUpdate(s.vc, x.replica, x.ts);
      forall i ensures Get(SeenBy(s.vc, x), i) >= 0 {
        assert Get(s.vc, i) >= 0;
      }
    case RemoveStep(id, vc, h) => RemoveFrame(s, id, vc, h);
  }

  lemma TrailGrows(start: State, trail: seq<Step>, step: Step, ids: set<int>)
    requires PossibleRun(start, trail) && OverIds(trail, ids) && Possible(Run(start, trail), step) && SoundStep(step, ids)
    ensures var longer := trail + [step];
            && Run(start, longer) == StepOn(Run(start, trail), step)
            && PossibleRun(start, longer) && OverIds(longer, ids)
  {
    var longer := trail + [step];
    assert longer[..|trail|] == trail;
    forall i | 0 <= i < |longer| ensures Possible(Run(start, longer[..i]), longer[i]) {
      if i < |trail| { assert longer[..i] == trail[..i]; }
    }
  }

  lemma NodeGrows(node: Node, start: State, step: Step, ids: set<int>)
    requires NodeInv(node, start, ids) && Possible(node.state, step) && SoundStep(step, ids)
    ensures NodeInv(Node(StepOn(node.state, step), node.trail + [step]), start, ids)
  {
    TrailGrows(start, node.trail, step, ids);
    StepWellFormed(node.state, step);
    StepClock(node.state, step, ids);
    StepRems(node.state, step, ids);
    StepKnows(node.state, node.trail, step);
  }

  lemma ResentIsSound(node: Node, start: State, step: Step, ids: set<int>)
    requires NodeInv(node, start, ids) && Possible(node.state, step)
    ensures AllSound(Resent(node.state, step), ids)
  {
    if step.RemoveStep? && step.h != ZERO {
      PromotedIsKnown(node.state, step.id, step.vc, step.h);
      var i :| 0 <= i < |node.trail| && node.trail[i] == AddStep(step.h);
      assert node.trail[i].AddStep?;
    }
  }

  lemma UpdateIsSound(net: Net, ids: seq<int>, k: nat, e: Event)
    requires NetInv(net, ids, k) && Enabled(net, ids, e)
    ensures SoundStep(StepOf(UpdateOf(net, ids, e), Promoted(e)), SetOfIds(ids))
    ensures !e.Receive? && MustReplicate(UpdateOf(net, ids, e)) ==> Sound(UpdateOf(net, ids, e), SetOfIds(ids))
  {
    var s := net.nodes[e.r].state;
    assert NodeInv(net.nodes[e.r], EmptyTop(ids, k), SetOfIds(ids));
    if e.AddAt? {
      assert ids[e.r] in SetOfIds(ids);
      assert Get(s.vc, ids[e.r]) >= 0;
    }
  }

  lemma StepKeepsNet(net: Net, ids: seq<int>, k: nat, r: nat, step: Step, sends: set<Update>)
    requires NetInv(net, ids, k) && r < |ids|
    requires Possible(net.nodes[r].state, step) && SoundStep(step, SetOfIds(ids)) && AllSound(sends, SetOfIds(ids))
    ensures NetInv(NetStep(net, r, step, sends), ids, k)
  {
    assert NodeInv(net.nodes[r], EmptyTop(ids, k), SetOfIds(ids));
    NodeGrows(net.nodes[r], EmptyTop(ids, k), step, SetOfIds(ids));
  }

  lemma HappenKeepsInv(net: Net, ids: seq<int>, k: nat, e: Event)
    requires NetInv(net, ids, k)
    ensures NetInv(Happen(net, ids, e), ids, k)
  {
    if Enabled(net, ids, e) {
      var step := StepOf(UpdateOf(net, ids, e), Promoted(e));
      UpdateIsSound(net, ids, k, e);
      if e.Receive? {
        assert NodeInv(net.nodes[e.r], EmptyTop(ids, k), SetOfIds(ids));
        ResentIsSound(net.nodes[e.r], EmptyTop(ids, k), step, SetOfIds(ids));
      }
      StepKeepsNet(net, ids, k, e.r, step, Sends(net, ids, e));
    }
  }

  lemma {:induction false} RunKeepsNet(ids: seq<int>, k: nat, events: seq<Event>)
    requires k >= 1
    ensures NetInv(RunNet(ids, k, events), ids, k)
  {
    if events == [] {
      NodeStarts(ids, k);
    } else {
      RunKeepsNet(ids, k, events[..|events| - 1]);
      HappenKeepsInv(RunNet(ids, k, events[..|events| - 1]), ids, k, events[|events| - 1]);
    }
  }

  lemma NodeStarts(ids: seq<int>, k: nat)
    requires k >= 1
    ensures NodeInv(Node(EmptyTop(ids, k), []), EmptyTop(ids, k), SetOfIds(ids))
  {
    assert (map i | i in ids :: 0).Keys == SetOfIds(ids);
  }

  // ---------------------------------------------------------------- when two replicas agree

  /** The add was applied at the node, and no remove applied there has seen it. */
  ghost predicate HasAdd(node: Node, a: Elem) {
    AddStep(a) in node.trail && !SeenByRemove(node.trail, a.id, a.replica, a.ts)
  }

  ghost predicate ShowsOnlyHad(node: Node, other: Node) {
    forall id :: id in node.state.elems ==> HasAdd(other, node.state.elems[id])
  }

  /** At the node, adds of one id by one replica came in order and every remove was safe. */
  ghost predicate Regular(node: Node, start: State) {
    Fifo(node.trail) && FittingRun(start, node.trail)
  }

  /** In every run of the network two regular replicas show the same top if and only if each add that either
      shows was applied at the other, and no remove applied there has seen it: whatever was kept local,
      sent again or delivered in another order makes no other difference. */
  lemma NetAgreesExactly(ids: seq<int>, k: nat, events: seq<Event>, q: nat, r: nat)
    requires k >= 1 && q < |ids| && r < |ids|
    requires var net := RunNet(ids, k, events);
             && |net.nodes| == |ids| && Regular(net.nodes[q], EmptyTop(ids, k)) && Regular(net.nodes[r], EmptyTop(ids, k))
             && Untied(Live(EmptyTop(ids, k), net.nodes[q].trail) + Live(EmptyTop(ids, k), net.nodes[r].trail))
    ensures var net := RunNet(ids, k, events);
            net.nodes[q].state.elems == net.nodes[r].state.elems
            <==> ShowsOnlyHad(net.nodes[q], net.nodes[r]) && ShowsOnlyHad(net.nodes[r], net.nodes[q])
  {
    var net, start := RunNet(ids, k, events), EmptyTop(ids, k);
    RunKeepsNet(ids, k, events);
    assert NodeInv(net.nodes[q], start, SetOfIds(ids)) && NodeInv(net.nodes[r], start, SetOfIds(ids));
    NodesAgreeExactly(net.nodes[q], net.nodes[r], start, SetOfIds(ids));
  }

  lemma NodesAgreeExactly(a: Node, b: Node, start: State, ids: set<int>)
    requires Empty(start) && start.rems == map[] && NodeInv(a, start, ids) && NodeInv(b, start, ids)
    requires Regular(a, start) && Regular(b, start) && Untied(Live(start, a.trail) + Live(start, b.trail))
    ensures a.state.elems == b.state.elems <==> ShowsOnlyHad(a, b) && ShowsOnlyHad(b, a)
  {
    ReplicasAgreeExactly(start, a.trail, b.trail, ids);
    HadIsLive(a, b, start, ids);
    HadIsLive(b, a, start, ids);
  }

  lemma HadIsLive(node: Node, other: Node, start: State, ids: set<int>)
    requires start.rems == map[] && OverIds(other.trail, ids)
    ensures ShowsOnlyHad(node, other) <==> AllIn(node.state.elems, Live(start, other.trail))
  {
    forall id | id in node.state.elems
      ensures HasAdd(other, node.state.elems[id]) <==> node.state.elems[id] in Live(start, other.trail)
    {
      LiveExactly(start, other.trail, ids, node.state.elems[id]);
    }
  }
}
