/** Do replicas of the top-K agree once everything that was sent was applied at both?  Not in general: an add
    that fills free space below the others is shown but not sent.  Without removes, they do if no add is
    made there. */
module TopKQuiescence {
  import opened GoMaps
  import opened TopKRmv
  import opened TopKInvariant
  import opened TopK
  import opened TopKConvergence
  import opened TopKLocal
  import opened TopKNet

  // ---------------------------------------------------------------- what is not shown stays hidden

  ghost predicate ShownIn(elems: Elems, a: Elem) {
    a.id in elems && elems[a.id] == a
  }

  /** An add that the top of some adds does not show is not shown by the top of more adds either. */
  lemma HiddenStaysHidden(live: set<Elem>, elems: Elems, more: set<Elem>, after: Elems, k: nat, a: Elem)
    requires live <= more && AllStamped(more) && Untied(more) && IsTop(live, elems, k) && IsTop(more, after, k)
    requires a in live && !ShownIn(elems, a)
    ensures !ShownIn(after, a)
  {
    if ShownIn(after, a) {
      if a.id !in elems {
        forall id | id in elems ensures id in after.Keys - {a.id} {
          assert IsHigher(elems[id], a) && elems[id] in more;
          assert id !in after ==> AllHigher(after, elems[id]);
        }
        SubsetSize(elems.Keys, after.Keys - {a.id});
      }
    }
  }

  // ---------------------------------------------------------------- trails of adds

  ghost predicate OnlyAdds(trail: seq<Step>) {
    forall i :: 0 <= i < |trail| ==> trail[i].AddStep? && trail[i].x.ts >= 1
  }

  ghost function AddsOf(trail: seq<Step>): set<Elem> {
    set i | 0 <= i < |trail| && trail[i].AddStep? :: trail[i].x
  }

  lemma AddsOfMore(trail: seq<Step>, x: Elem)
    ensures AddsOf(trail + [AddStep(x)]) == AddsOf(trail) + {x}
  {
    var longer := trail + [AddStep(x)];
    assert longer[|trail|] == AddStep(x);
    forall a | a in AddsOf(trail) ensures a in AddsOf(longer) {
      var i :| 0 <= i < |trail| && trail[i].AddStep? && trail[i].x == a;
      assert longer[i] == trail[i];
    }
  }

  lemma {:induction false} TrailShows(s: State, trail: seq<Step>)
    requires Empty(s) && s.rems == map[] && OnlyAdds(trail)
    ensures var now := Run(s, trail); Shows(now, AddsOf(trail), false) && now.rems == map[] && now.maxElems == s.maxElems
  {
    if trail == [] {
      EmptyTopKeepsInv(s);
    } else {
      var front, x := trail[..|trail| - 1], trail[|trail| - 1].x;
      assert trail == front + [AddStep(x)];
      TrailShows(s, front);
      AddsOfMore(front, x);
      AddFrame(Run(s, front), x);
      AddShows(Run(s, front), AddsOf(front), x, false);
    }
  }

  // ---------------------------------------------------------------- networks without removes

  ghost predicate AddsOnly(events: seq<Event>) {
    forall i :: 0 <= i < |events| ==> !events[i].RemoveAt?
  }

  /** Only adds were applied and sent so far. */
  ghost predicate PureNet(net: Net, ids: seq<int>, k: nat) {
    && |net.nodes| == |ids|
    && (forall r :: 0 <= r < |ids| ==> PureNode(net.nodes[r], k, ids))
    && forall u :: u in net.sent ==> u.DownstreamAdd? && u.x.ts >= 1
  }

  ghost predicate PureNode(node: Node, k: nat, ids: seq<int>) {
    node.state == Run(EmptyTop(ids, k), node.trail) && OnlyAdds(node.trail) && forall i :: Get(node.state.vc, i) >= 0
  }

  lemma PureTop(node: Node, k: nat, ids: seq<int>)
    requires k >= 1 && PureNode(node, k, ids)
    ensures Inv(node.state) && node.state.rems == map[] && node.state.maxElems == k
    ensures AllStamped(AddsOf(node.trail)) && IsTop(AddsOf(node.trail), node.state.elems, k)
  {
    TrailShows(EmptyTop(ids, k), node.trail);
    ShownIsTop(node.state, AddsOf(node.trail), false);
  }

  /** The add that an event applies. */
  ghost function AddOf(net: Net, ids: seq<int>, e: Event): Elem
    requires Enabled(net, ids, e) && StepOf(UpdateOf(net, ids, e), Promoted(e)).AddStep?
  {
    StepOf(UpdateOf(net, ids, e), Promoted(e)).x
  }

  lemma EventAdds(net: Net, ids: seq<int>, k: nat, e: Event)
    requires k >= 1 && PureNet(net, ids, k) && Enabled(net, ids, e) && !e.RemoveAt?
    ensures StepOf(UpdateOf(net, ids, e), Promoted(e)) == AddStep(AddOf(net, ids, e)) && AddOf(net, ids, e).ts >= 1
    ensures Sends(net, ids, e) <= {DownstreamAdd(AddOf(net, ids, e))}
    ensures DownstreamAdd(AddOf(net, ids, e)) in net.sent + Sends(net, ids, e) || (e.AddAt? && !MustReplicate(UpdateOf(net, ids, e)))
  {
    var node := net.nodes[e.r];
    assert PureNode(node, k, ids);
    PureTop(node, k, ids);
  }

  lemma PureStep(node: Node, k: nat, ids: seq<int>, x: Elem)
    requires PureNode(node, k, ids) && x.ts >= 1
    ensures PureNode(Node(StepOn(node.state, AddStep(x)), node.trail + [AddStep(x)]), k, ids)
  {
    var trail := node.trail + [AddStep(x)];
    assert trail[..|node.trail|] == node.trail;
    AddFrame(node.state, x);
    forall i ensures Get(SeenBy(node.state.vc, x), i) >= 0 {
      assert Get(node.state.vc, i) >= 0;
    }
  }

  lemma PureHappen(net: Net, ids: seq<int>, k: nat, e: Event)
    requires k >= 1 && PureNet(net, ids, k) && !e.RemoveAt?
    ensures PureNet(Happen(net, ids, e), ids, k)
  {
    if Enabled(net, ids, e) {
      EventAdds(net, ids, k, e);
      assert PureNode(net.nodes[e.r], k, ids);
      PureStep(net.nodes[e.r], k, ids, AddOf(net, ids, e));
    }
  }

  lemma {:induction false} PureRun(ids: seq<int>, k: nat, events: seq<Event>)
    requires k >= 1 && AddsOnly(events)
    ensures PureNet(RunNet(ids, k, events), ids, k)
  {
    if events != [] {
      PureRun(ids, k, events[..|events| - 1]);
      PureHappen(RunNet(ids, k, events[..|events| - 1]), ids, k, events[|events| - 1]);
    }
  }

  // ---------------------------------------------------------------- everything shown was sent

  /** The replica sends the add or it has no free space for it: its top is full or shows the id already. */
  ghost predicate SentOrNoSpace(net: Net, ids: seq<int>, e: Event) {
    e.AddAt? && |net.nodes| == |ids| && e.r < |ids| ==>
      var s := net.nodes[e.r].state;
      MustReplicate(UpdateOf(net, ids, e)) || e.id in s.elems || |s.elems| >= s.maxElems
  }

  ghost predicate AllSentOrNoSpace(ids: seq<int>, k: nat, events: seq<Event>) {
    forall i :: 0 <= i < |events| ==> SentOrNoSpace(RunNet(ids, k, events[..i]), ids, events[i])
  }

  ghost predicate ShownAreSent(net: Net, q: nat)
    requires q < |net.nodes|
  {
    forall id :: id in net.nodes[q].state.elems ==> DownstreamAdd(net.nodes[q].state.elems[id]) in net.sent
  }

  lemma PureIsTop(node: Node, k: nat, ids: seq<int>)
    requires k >= 1 && PureNode(node, k, ids)
    ensures AllStamped(AddsOf(node.trail)) && IsTop(AddsOf(node.trail), node.state.elems, k)
  {
    PureTop(node, k, ids);
  }

  /** After one more add, only that add is newly shown. */
  lemma ShownAfter(node: Node, k: nat, ids: seq<int>, x: Elem, y: Elem)
    requires k >= 1 && PureNode(node, k, ids) && x.ts >= 1 && Untied(AddsOf(node.trail + [AddStep(x)]))
    requires ShownIn(StepOn(node.state, AddStep(x)).elems, y)
    ensures y == x || ShownIn(node.state.elems, y)
  {
    var after := Node(StepOn(node.state, AddStep(x)), node.trail + [AddStep(x)]);
    PureStep(node, k, ids, x);
    PureIsTop(node, k, ids);
    PureIsTop(after, k, ids);
    AddsOfMore(node.trail, x);
    ShownBefore(AddsOf(node.trail), node.state.elems, AddsOf(after.trail), after.state.elems, k, x, y);
  }

  lemma ShownBefore(live: set<Elem>, elems: Elems, more: set<Elem>, after: Elems, k: nat, x: Elem, y: Elem)
    requires more == live + {x} && AllStamped(more) && Untied(more) && IsTop(live, elems, k) && IsTop(more, after, k)
    requires ShownIn(after, y)
    ensures y == x || ShownIn(elems, y)
  {
    assert y in more;
    if y != x && !ShownIn(elems, y) {
      HiddenStaysHidden(live, elems, more, after, k, y);
    }
  }

  /** An add that is neither sent nor has free space changes nothing that is shown. */
  lemma UnsentChangesNothing(net: Net, ids: seq<int>, k: nat, e: Event)
    requires k >= 1 && PureNet(net, ids, k) && Enabled(net, ids, e) && e.AddAt? && SentOrNoSpace(net, ids, e)
    requires !MustReplicate(UpdateOf(net, ids, e))
    ensures AddOf(net, ids, e) == NewElem(net.nodes[e.r].state, ids[e.r], e.id, e.score)
    ensures StepOn(net.nodes[e.r].state, AddStep(AddOf(net, ids, e))).elems == net.nodes[e.r].state.elems
  {
    var node := net.nodes[e.r];
    assert PureNode(node, k, ids);
    PureTop(node, k, ids);
    VisibleAddIsReplicatedExactly(node.state, ids[e.r], e.id, e.score);
    TickIsPartOfAdd(node.state, ids[e.r], e.id, e.score);
  }

  lemma StepShowsSent(net: Net, ids: seq<int>, k: nat, e: Event, id: int)
    requires k >= 1 && PureNet(net, ids, k) && Enabled(net, ids, e) && !e.RemoveAt? && SentOrNoSpace(net, ids, e)
    requires ShownAreSent(net, e.r) && Untied(AddsOf(Happen(net, ids, e).nodes[e.r].trail))
    requires id in Happen(net, ids, e).nodes[e.r].state.elems
    ensures DownstreamAdd(Happen(net, ids, e).nodes[e.r].state.elems[id]) in Happen(net, ids, e).sent
  {
    var node, after, x := net.nodes[e.r], Happen(net, ids, e).nodes[e.r], AddOf(net, ids, e);
    assert PureNode(node, k, ids);
    EventAdds(net, ids, k, e);
    assert after == Node(StepOn(node.state, AddStep(x)), node.trail + [AddStep(x)]);
    PureStep(node, k, ids, x);
    PureTop(after, k, ids);
    var y := after.state.elems[id];
    assert y.id == id;
    ShownAfter(node, k, ids, x, y);
    if DownstreamAdd(x) !in net.sent + Sends(net, ids, e) {
      UnsentChangesNothing(net, ids, k, e);
    }
  }

  lemma {:induction false} RunShowsSent(ids: seq<int>, k: nat, events: seq<Event>, q: nat)
    requires k >= 1 && AddsOnly(events) && AllSentOrNoSpace(ids, k, events) && q < |ids|
    requires |RunNet(ids, k, events).nodes| == |ids| && Untied(AddsOf(RunNet(ids, k, events).nodes[q].trail))
    ensures ShownAreSent(RunNet(ids, k, events), q)
  {
    if events != [] {
      var n := |events| - 1;
      var net, e := RunNet(ids, k, events[..n]), events[n];
      PureRun(ids, k, events[..n]);
      ShorterTrail(net, ids, k, e, q);
      ShorterIsSent(ids, k, events);
      RunShowsSent(ids, k, events[..n], q);
      if Enabled(net, ids, e) && e.r == q {
        forall id | id in Happen(net, ids, e).nodes[q].state.elems
          ensures DownstreamAdd(Happen(net, ids, e).nodes[q].state.elems[id]) in Happen(net, ids, e).sent
        {
          StepShowsSent(net, ids, k, e, id);
        }
      }
    }
  }

  lemma ShorterTrail(net: Net, ids: seq<int>, k: nat, e: Event, q: nat)
    requires k >= 1 && PureNet(net, ids, k) && !e.RemoveAt? && q < |ids| && Untied(AddsOf(Happen(net, ids, e).nodes[q].trail))
    ensures Untied(AddsOf(net.nodes[q].trail))
  {
    if Enabled(net, ids, e) && e.r == q {
      EventAdds(net, ids, k, e);
      AddsOfMore(net.nodes[q].trail, AddOf(net, ids, e));
    }
  }

  lemma ShorterIsSent(ids: seq<int>, k: nat, events: seq<Event>)
    requires events != [] && AllSentOrNoSpace(ids, k, events)
    ensures AllSentOrNoSpace(ids, k, events[..|events| - 1])
    ensures SentOrNoSpace(RunNet(ids, k, events[..|events| - 1]), ids, events[|events| - 1])
  {
    var front := events[..|events| - 1];
    forall i | 0 <= i < |front| ensures SentOrNoSpace(RunNet(ids, k, front[..i]), ids, front[i]) {
      assert front[..i] == events[..i];
    }
  }

  // ---------------------------------------------------------------- everything sent was applied

  ghost predicate AppliedAt(node: Node, u: Update) {
    match u
    case DownstreamAdd(x) => AddStep(x) in node.trail
    case DownstreamRemove(id, vc) => HasRemove(node.trail, id, vc)
    case _ => true
  }

  ghost predicate AllApplied(net: Net, q: nat)
    requires q < |net.nodes|
  {
    forall u :: u in net.sent ==> AppliedAt(net.nodes[q], u)
  }

  /** In a run without removes in which every add is sent or has no free space, two replicas at which
      everything sent was applied, in whatever order, show the same top. */
  lemma QuiescentReplicasAgree(ids: seq<int>, k: nat, events: seq<Event>, q: nat, r: nat)
    requires k >= 1 && q < |ids| && r < |ids| && AddsOnly(events) && AllSentOrNoSpace(ids, k, events)
    requires var net := RunNet(ids, k, events);
             && |net.nodes| == |ids| && AllApplied(net, q) && AllApplied(net, r)
             && Untied(AddsOf(net.nodes[q].trail) + AddsOf(net.nodes[r].trail))
    ensures RunNet(ids, k, events).nodes[q].state.elems == RunNet(ids, k, events).nodes[r].state.elems
  {
    var net := RunNet(ids, k, events);
    PureRun(ids, k, events);
    RunShowsSent(ids, k, events, q);
    RunShowsSent(ids, k, events, r);
    assert PureNode(net.nodes[q], k, ids) && PureNode(net.nodes[r], k, ids);
    PureTop(net.nodes[q], k, ids);
    PureTop(net.nodes[r], k, ids);
    ShownWasApplied(net, q, r);
    ShownWasApplied(net, r, q);
    SameTopExactly(AddsOf(net.nodes[q].trail), net.nodes[q].state.elems, AddsOf(net.nodes[r].trail), net.nodes[r].state.elems, k);
  }

  lemma ShownWasApplied(net: Net, q: nat, r: nat)
    requires q < |net.nodes| && r < |net.nodes| && ShownAreSent(net, q) && AllApplied(net, r)
    ensures AllIn(net.nodes[q].state.elems, AddsOf(net.nodes[r].trail))
  {
    forall id | id in net.nodes[q].state.elems ensures net.nodes[q].state.elems[id] in AddsOf(net.nodes[r].trail) {
      var x := net.nodes[q].state.elems[id];
      assert AppliedAt(net.nodes[r], DownstreamAdd(x));
      var i :| 0 <= i < |net.nodes[r].trail| && net.nodes[r].trail[i] == AddStep(x);
      assert net.nodes[r].trail[i].AddStep? && net.nodes[r].trail[i].x == x;
    }
  }

  // ---------------------------------------------------------------- a run that does not agree

  lemma RunNetMore(ids: seq<int>, k: nat, events: seq<Event>, e: Event)
    ensures RunNet(ids, k, events + [e]) == Happen(RunNet(ids, k, events), ids, e)
  {
    assert (events + [e])[..|events|] == events;
  }

  lemma RunOfThree(ids: seq<int>, k: nat, e1: Event, e2: Event, e3: Event)
    ensures RunNet(ids, k, [e1, e2, e3]) == Happen(Happen(Happen(RunNet(ids, k, []), ids, e1), ids, e2), ids, e3)
  {
    assert [] + [e1] == [e1] && [e1] + [e2] == [e1, e2] && [e1, e2] + [e3] == [e1, e2, e3];
    RunNetMore(ids, k, [], e1);
    RunNetMore(ids, k, [e1], e2);
    RunNetMore(ids, k, [e1, e2], e3);
  }

  lemma StartsEmpty(ids: seq<int>, k: nat)
    requires |ids| >= 2 && k >= 1
    ensures Nodes(RunNet(ids, k, []), ids, Node(EmptyTop(ids, k), []), Node(EmptyTop(ids, k), []), {})
    ensures Get(EmptyTop(ids, k).vc, ids[0]) == 0 && Empty(EmptyTop(ids, k))
  {
    assert ids[0] in ids;
  }

  ghost predicate Nodes(net: Net, ids: seq<int>, a: Node, b: Node, sent: set<Update>) {
    |net.nodes| == |ids| >= 2 && net.nodes[0] == a && net.nodes[1] == b && net.sent == sent
  }

  lemma FirstEvent(net: Net, ids: seq<int>, s: State, x: Elem)
    requires Nodes(net, ids, Node(s, []), Node(s, []), {}) && s.elems == map[] && s.smallest == ZERO && Get(s.vc, ids[0]) >= 0
    requires x == NewElem(s, ids[0], x.id, x.score)
    ensures Nodes(Happen(net, ids, AddAt(0, x.id, x.score)), ids, Node(Added(s, x), [AddStep(x)]), Node(s, []), {DownstreamAdd(x)})
  {
    var e := AddAt(0, x.id, x.score);
    assert UpdateOf(net, ids, e) == DownstreamAdd(x);
    assert Enabled(net, ids, e) && Sends(net, ids, e) == {DownstreamAdd(x)};
  }

  lemma SecondEvent(net: Net, ids: seq<int>, a: Node, s: State, x: Elem)
    requires Nodes(net, ids, a, Node(s, []), {DownstreamAdd(x)}) && x.ts >= 1 && s.rems == map[]
    ensures Nodes(Happen(net, ids, Receive(1, DownstreamAdd(x), ZERO)), ids, a, Node(Added(s, x), [AddStep(x)]), {DownstreamAdd(x)})
  {
    assert Enabled(net, ids, Receive(1, DownstreamAdd(x), ZERO));
  }

  lemma ThirdEvent(net: Net, ids: seq<int>, a: Node, b: Node, sent: set<Update>, id: int, score: int)
    requires Nodes(net, ids, a, b, sent) && Get(a.state.vc, ids[0]) >= 0
    requires !MustReplicate(PrepareAdd(a.state, ids[0], id, score))
    ensures var y := NewElem(a.state, ids[0], id, score);
            Nodes(Happen(net, ids, AddAt(0, id, score)), ids, Node(Added(a.state, y), a.trail + [AddStep(y)]), b, sent)
  {
    assert Enabled(net, ids, AddAt(0, id, score));
  }

  lemma TwoEntries(k: nat, s: State, x: Elem, self: int, other: int, lower: int)
    requires k >= 2 && Empty(s) && s.maxElems == k && s.rems == map[] && Get(s.vc, self) == 0
    requires x == NewElem(s, self, x.id, x.score) && x.id != other && lower < x.score
    ensures var s1 := Added(s, x);
            var y := NewElem(s1, self, other, lower);
            && Get(s1.vc, self) >= 0 && !MustReplicate(PrepareAdd(s1, self, other, lower))
            && other in Added(s1, y).elems && other !in s1.elems
  {
    var s1 := Added(s, x);
    assert s1.elems == map[x.id := x] && s1.smallest == x && |s1.elems| == 1;
  }

  /** The first replica adds an id, the second one receives it, and then the first adds another id with a
      lower score while its top has space: all that was sent was applied at both, and they differ. */
  lemma QuiescentReplicasDiffer(ids: seq<int>, k: nat, id: int, score: int, other: int, lower: int)
    requires |ids| >= 2 && ids[0] != ids[1] && k >= 2 && id != other && lower < score
    ensures var x := Elem(id, score, 1, ids[0]);
            var net := RunNet(ids, k, [AddAt(0, id, score), Receive(1, DownstreamAdd(x), ZERO), AddAt(0, other, lower)]);
            && |net.nodes| == |ids| && net.sent == {DownstreamAdd(x)} && AllApplied(net, 0) && AllApplied(net, 1)
            && other in net.nodes[0].state.elems && other !in net.nodes[1].state.elems
  {
    var x := Elem(id, score, 1, ids[0]);
    StartsEmpty(ids, k);
    RunOfThree(ids, k, AddAt(0, id, score), Receive(1, DownstreamAdd(x), ZERO), AddAt(0, other, lower));
    ThreeEvents(RunNet(ids, k, []), ids, k, EmptyTop(ids, k), x, other, lower);
  }

  lemma ThreeEvents(net: Net, ids: seq<int>, k: nat, s: State, x: Elem, other: int, lower: int)
    requires Nodes(net, ids, Node(s, []), Node(s, []), {})
    requires k >= 2 && Empty(s) && s.maxElems == k && s.rems == map[] && Get(s.vc, ids[0]) == 0
    requires x == NewElem(s, ids[0], x.id, x.score) && x.id != other && lower < x.score
    ensures var net1 := Happen(net, ids, AddAt(0, x.id, x.score));
            var net3 := Happen(Happen(net1, ids, Receive(1, DownstreamAdd(x), ZERO)), ids, AddAt(0, other, lower));
            && |net3.nodes| == |ids| && net3.sent == {DownstreamAdd(x)} && AllApplied(net3, 0) && AllApplied(net3, 1)
            && other in net3.nodes[0].state.elems && other !in net3.nodes[1].state.elems
  {
    var net1 := Happen(net, ids, AddAt(0, x.id, x.score));
    var net2 := Happen(net1, ids, Receive(1, DownstreamAdd(x), ZERO));
    var net3 := Happen(net2, ids, AddAt(0, other, lower));
    var s1 := Added(s, x);
    var y := NewElem(s1, ids[0], other, lower);
    var node := Node(s1, [AddStep(x)]);
    FirstEvent(net, ids, s, x);
    SecondEvent(net1, ids, node, s, x);
    TwoEntries(k, s, x, ids[0], other, lower);
    ThirdEvent(net2, ids, node, node, {DownstreamAdd(x)}, other, lower);
    OnlySentIsApplied(net3, ids, Node(Added(s1, y), node.trail + [AddStep(y)]), node, x);
  }

  lemma OnlySentIsApplied(net: Net, ids: seq<int>, a: Node, b: Node, x: Elem)
    requires Nodes(net, ids, a, b, {DownstreamAdd(x)}) && AddStep(x) in a.trail && AddStep(x) in b.trail
    ensures AllApplied(net, 0) && AllApplied(net, 1)
  {
  }
}
