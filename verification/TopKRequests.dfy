/** What a request does to the replica of the top-K that makes it, in every run of the network of TopKNet: an
    add is stored there, a remove leaves no add of its id there, and takes from every other replica the adds
    that its source had seen. */
module TopKRequests {
  import opened GoMaps
  import opened Clocks
  import opened TopKRmv
  import opened TopKInvariant
  import opened TopK
  import opened TopKNet

  // ---------------------------------------------------------------- a replica's clock has seen what it stores

  /** The clock has seen every add of the trail. */
  ghost predicate SeesAll(vc: Clock, trail: seq<Step>) {
    forall i :: 0 <= i < |trail| && trail[i].AddStep? ==> trail[i].x.ts <= Get(vc, trail[i].x.replica)
  }

  lemma StepSees(s: State, step: Step)
    ensures forall i :: Get(s.vc, i) <= Get(StepOn(s, step).vc, i)
    ensures step.AddStep? ==> step.x.ts <= Get(StepOn(s, step).vc, step.x.replica)
  {
    match step
    case AddStep(x) => AddFrame(s, x);
    case RemoveStep(id, vc, h) => RemoveFrame(s, id, vc, h);
  }

  lemma SeesMore(vc: Clock, after: Clock, trail: seq<Step>)
    requires trail != [] && SeesAll(vc, trail[..|trail| - 1]) && forall i :: Get(vc, i) <= Get(after, i)
    requires var last := trail[|trail| - 1]; last.AddStep? ==> last.x.ts <= Get(after, last.x.replica)
    ensures SeesAll(after, trail)
  {
    forall i | 0 <= i < |trail| && trail[i].AddStep? ensures trail[i].x.ts <= Get(after, trail[i].x.replica) {
      if i < |trail| - 1 { assert trail[i] == trail[..|trail| - 1][i]; }
    }
  }

  lemma {:induction false} RunSeesAll(s: State, trail: seq<Step>)
    ensures SeesAll(Run(s, trail).vc, trail)
    decreases |trail|
  {
    if trail != [] {
      var front := trail[..|trail| - 1];
      RunSeesAll(s, front);
      StepSees(Run(s, front), trail[|trail| - 1]);
      SeesMore(Run(s, front).vc, Run(s, trail).vc, trail);
    }
  }

  lemma NodeOf(ids: seq<int>, k: nat, events: seq<Event>, r: nat) returns (node: Node)
    requires k >= 1 && r < |ids|
    ensures |RunNet(ids, k, events).nodes| == |ids| && node == RunNet(ids, k, events).nodes[r]
    ensures NodeInv(node, EmptyTop(ids, k), SetOfIds(ids))
  {
    RunKeepsNet(ids, k, events);
    node := RunNet(ids, k, events).nodes[r];
  }

  /** At every replica of every run, the clock has seen every add stored there. */
  lemma StoredIsSeen(ids: seq<int>, k: nat, events: seq<Event>, r: nat, y: Elem)
    requires k >= 1 && r < |ids|
    ensures var net := RunNet(ids, k, events);
            |net.nodes| == |ids| && (IsStored(net.nodes[r].state, y) ==> y.ts <= Get(net.nodes[r].state.vc, y.replica))
  {
    var node := NodeOf(ids, k, events, r);
    if IsStored(node.state, y) { NodeSees(node, EmptyTop(ids, k), SetOfIds(ids), y); }
  }

  lemma NodeSees(node: Node, start: State, ids: set<int>, y: Elem)
    requires NodeInv(node, start, ids) && Known(node.state, y)
    ensures y.ts <= Get(node.state.vc, y.replica)
  {
    RunSeesAll(start, node.trail);
    var i :| 0 <= i < |node.trail| && node.trail[i] == AddStep(y);
    assert node.trail[i].AddStep?;
  }

  // ---------------------------------------------------------------- a remove request

  lemma PreparedRemove(s: State, id: int)
    ensures var u := PrepareRemove(s, id);
            && (u.NoOp? <==> id !in s.elems && id !in s.hidden)
            && (!u.NoOp? ==> StepOf(u, ZERO) == RemoveStep(id, s.vc, ZERO))
  {
  }

  /** Wherever a remove request is made, applying the prepared update leaves no add of the id and every add of
      another; nothing is prepared only if no add of the id is stored. */
  lemma RemoveRequestTakesAll(ids: seq<int>, k: nat, events: seq<Event>, r: nat, id: int, h: Elem, y: Elem)
    requires k >= 1 && r < |ids|
    requires var net := RunNet(ids, k, events);
             |net.nodes| == |ids| && (Enabled(net, ids, RemoveAt(r, id, h)) || PrepareRemove(net.nodes[r].state, id).NoOp?)
    ensures var net := RunNet(ids, k, events);
            var after := Happen(net, ids, RemoveAt(r, id, h));
            && |after.nodes| == |ids|
            && (IsStored(after.nodes[r].state, y) <==> IsStored(net.nodes[r].state, y) && y.id != id)
  {
    var net := RunNet(ids, k, events);
    var node := NodeOf(ids, k, events, r);
    PreparedRemove(node.state, id);
    if PrepareRemove(node.state, id).NoOp? {
      assert IsStored(node.state, y) ==> y.id != id;
    } else {
      RemoveConserves(node.state, id, node.state.vc, h);
      if IsStored(node.state, y) { NodeSees(node, EmptyTop(ids, k), SetOfIds(ids), y); }
    }
  }

  /** What it does where it is received: of the adds stored there, exactly those of the id stay that the clock
      of its source had not seen, and so none that was stored at the source. */
  lemma RemoveRequestReaches(ids: seq<int>, k: nat, events: seq<Event>, r: nat, id: int, s: State, h: Elem, y: Elem)
    requires k >= 1 && r < |ids| && |RunNet(ids, k, events).nodes| == |ids|
    requires var u := PrepareRemove(RunNet(ids, k, events).nodes[r].state, id);
             !u.NoOp? && WellFormed(s) && Possible(s, StepOf(u, h))
    ensures var source := RunNet(ids, k, events).nodes[r].state;
            var after := StepOn(s, StepOf(PrepareRemove(source, id), h));
            && (IsStored(after, y) <==> IsStored(s, y) && (y.id == id ==> y.ts > Get(source.vc, y.replica)))
            && (y.id == id && IsStored(source, y) ==> !IsStored(after, y))
  {
    var node := NodeOf(ids, k, events, r);
    PreparedRemove(node.state, id);
    RemoveConserves(s, id, node.state.vc, h);
    if IsStored(node.state, y) { NodeSees(node, EmptyTop(ids, k), SetOfIds(ids), y); }
  }

  // ---------------------------------------------------------------- an add request

  /** Nothing that the state stores or remembers is newer at the replica than m. */
  ghost predicate Within(s: State, replica: int, m: int) {
    && Get(s.vc, replica) <= m
    && forall id :: id in s.rems ==> Get(s.rems[id], replica) <= m
  }

  ghost predicate SentWithin(us: set<Update>, replica: int, m: int) {
    forall u :: u in us ==> UpdateWithin(u, replica, m)
  }

  ghost predicate UpdateWithin(u: Update, replica: int, m: int) {
    match u
    case DownstreamAdd(x) => x.replica == replica ==> x.ts <= m
    case OptDownstreamAdd(x) => x.replica == replica ==> x.ts <= m
    case DownstreamRemove(_, vc) => Get(vc, replica) <= m
    case OptDownstreamRemove(_, vc) => Get(vc, replica) <= m
    case NoOp => true
  }

  /** Nobody knows of a newer add of replica number r than it does itself. */
  ghost predicate OwnIsNewest(net: Net, ids: seq<int>, r: nat)
    requires r < |ids| == |net.nodes|
  {
    var m := Get(net.nodes[r].state.vc, ids[r]);
    SentWithin(net.sent, ids[r], m) && forall q :: 0 <= q < |ids| ==> Within(net.nodes[q].state, ids[r], m)
  }

  lemma StepWithin(s: State, u: Update, h: Elem, replica: int, m: int)
    requires !u.NoOp? && Within(s, replica, m) && UpdateWithin(u, replica, m)
    ensures Within(StepOn(s, StepOf(u, h)), replica, m)
  {
    match StepOf(u, h)
    case AddStep(x) => AddFrame(s, x);
    case RemoveStep(id, vc, h) => RemoveFrame(s, id, vc, h); MergedWithin(s.rems, id, vc, replica, m);
  }

  lemma MergedWithin(rems: map<int, Clock>, id: int, vc: Clock, replica: int, m: int)
    requires (forall i :: i in rems ==> Get(rems[i], replica) <= m) && Get(vc, replica) <= m
    ensures var after := rems[id := if id in rems then Merged(rems[id], vc) else vc];
            forall i :: i in after ==> Get(after[i], replica) <= m
  {
    if id in rems && replica !in rems[id] { assert Get(rems[id], replica) == 0; }
  }

  lemma ResentWithin(node: Node, start: State, ids: set<int>, step: Step, replica: int, m: int)
    requires NodeInv(node, start, ids) && Possible(node.state, step) && Within(node.state, replica, m)
    ensures SentWithin(Resent(node.state, step), replica, m)
  {
    if step.RemoveStep? && step.h != ZERO {
      PromotedIsKnown(node.state, step.id, step.vc, step.h);
      NodeSees(node, start, ids, step.h);
    }
  }

  ghost predicate DistinctIds(ids: seq<int>) {
    forall i, j :: 0 <= i < j < |ids| ==> ids[i] != ids[j]
  }

  /** An update of an event is no newer than what its own replica knows afterwards. */
  lemma UpdateIsWithin(net: Net, ids: seq<int>, e: Event, r: nat, m: int)
    requires r < |ids| == |net.nodes| && DistinctIds(ids) && OwnIsNewest(net, ids, r) && Enabled(net, ids, e)
    requires Get(net.nodes[r].state.vc, ids[r]) <= m
    requires e.r == r ==> m == Get(StepOn(net.nodes[r].state, StepOf(UpdateOf(net, ids, e), Promoted(e))).vc, ids[r])
    ensures UpdateWithin(UpdateOf(net, ids, e), ids[r], m)
  {
    var s, u := net.nodes[e.r].state, UpdateOf(net, ids, e);
    match e
    case AddAt(_, id, score) => StepSees(s, StepOf(u, Promoted(e)));
    case RemoveAt(_, id, _) => PreparedRemove(s, id); assert Within(s, ids[r], Get(net.nodes[r].state.vc, ids[r]));
    case Receive(_, _, _) => assert UpdateWithin(u, ids[r], Get(net.nodes[r].state.vc, ids[r]));
  }

  lemma HappenKeepsNewest(net: Net, ids: seq<int>, k: nat, e: Event, r: nat)
    requires NetInv(net, ids, k) && DistinctIds(ids) && r < |ids| && OwnIsNewest(net, ids, r) && Enabled(net, ids, e)
    ensures |Happen(net, ids, e).nodes| == |ids| && OwnIsNewest(Happen(net, ids, e), ids, r)
  {
    var after, u := Happen(net, ids, e), UpdateOf(net, ids, e);
    var m, m' := Get(net.nodes[r].state.vc, ids[r]), Get(after.nodes[r].state.vc, ids[r]);
    assert |after.nodes| == |ids|;
    NodesStayWithin(net, ids, e, r);
    assert NodeInv(net.nodes[e.r], EmptyTop(ids, k), SetOfIds(ids));
    assert Within(net.nodes[e.r].state, ids[r], m);
    var step := StepOf(u, Promoted(e));
    ResentWithin(net.nodes[e.r], EmptyTop(ids, k), SetOfIds(ids), step, ids[r], m);
    SendsWithin(net.sent, Sends(net, ids, e), u, Resent(net.nodes[e.r].state, step), ids[r], m, m');
  }

  lemma NodesStayWithin(net: Net, ids: seq<int>, e: Event, r: nat)
    requires r < |ids| == |net.nodes| && DistinctIds(ids) && OwnIsNewest(net, ids, r) && Enabled(net, ids, e)
    ensures var after, replica := Happen(net, ids, e), ids[r];
            var m' := Get(after.nodes[r].state.vc, replica);
            && Get(net.nodes[r].state.vc, replica) <= m' && UpdateWithin(UpdateOf(net, ids, e), replica, m')
            && forall q :: 0 <= q < |ids| ==> Within(after.nodes[q].state, replica, m')
  {
    var after, u, s := Happen(net, ids, e), UpdateOf(net, ids, e), net.nodes[e.r].state;
    var m, m' := Get(net.nodes[r].state.vc, ids[r]), Get(after.nodes[r].state.vc, ids[r]);
    StepSees(s, StepOf(u, Promoted(e)));
    assert m <= m';
    UpdateIsWithin(net, ids, e, r, m');
    assert Within(s, ids[r], m);
    StepWithin(s, u, Promoted(e), ids[r], m');
    forall q | 0 <= q < |ids| ensures Within(after.nodes[q].state, ids[r], m') {
      assert Within(net.nodes[q].state, ids[r], m);
    }
  }

  lemma SendsWithin(sent: set<Update>, sends: set<Update>, u: Update, resent: set<Update>, replica: int, m: int, m': int)
    requires SentWithin(sent, replica, m) && SentWithin(resent, replica, m) && UpdateWithin(u, replica, m') && m <= m'
    requires forall v :: v in sends ==> v == u || v in resent
    ensures SentWithin(sent + sends, replica, m')
  {
    forall v | v in sent + sends ensures UpdateWithin(v, replica, m') {
      assert v == u || UpdateWithin(v, replica, m);
    }
  }

  lemma {:induction false} RunKeepsNewest(ids: seq<int>, k: nat, events: seq<Event>, r: nat)
    requires k >= 1 && DistinctIds(ids) && r < |ids|
    ensures |RunNet(ids, k, events).nodes| == |ids| && OwnIsNewest(RunNet(ids, k, events), ids, r)
    decreases |events|
  {
    if events == [] {
      assert ids[r] in ids;
    } else {
      var net, e := RunNet(ids, k, events[..|events| - 1]), events[|events| - 1];
      RunKeepsNewest(ids, k, events[..|events| - 1], r);
      RunKeepsNet(ids, k, events[..|events| - 1]);
      if Enabled(net, ids, e) { HappenKeepsNewest(net, ids, k, e, r); }
    }
  }

  /** The prepared add has the id and the score requested and the next stamp of its replica, and applying it
      stores it. */
  ghost predicate StoresRequested(net: Net, ids: seq<int>, r: nat, id: int, score: int) {
    var after := Happen(net, ids, AddAt(r, id, score));
    && r < |ids| == |net.nodes| == |after.nodes|
    && var x := Elem(id, score, Get(net.nodes[r].state.vc, ids[r]) + 1, ids[r]);
       NewlyStored(net.nodes[r].state, after.nodes[r].state, x)
  }

  ghost predicate NewlyStored(s: State, after: State, x: Elem) {
    IsStored(after, x) && !IsStored(s, x)
  }

  /** Wherever an add request is made, in every run, the add requested is stored there. */
  lemma AddRequestIsStored(ids: seq<int>, k: nat, events: seq<Event>, r: nat, id: int, score: int)
    requires k >= 1 && DistinctIds(ids) && r < |ids|
    ensures StoresRequested(RunNet(ids, k, events), ids, r, id, score)
  {
    RunKeepsNet(ids, k, events);
    RunKeepsNewest(ids, k, events, r);
    AddAtNode(RunNet(ids, k, events), ids, k, r, id, score);
  }

  /** The next add of the replica is not stored yet, and adding it stores it. */
  ghost predicate AddsFresh(s: State, self: int, id: int, score: int) {
    var x := Elem(id, score, Get(s.vc, self) + 1, self);
    NewlyStored(s, Added(s, x), x)
  }

  lemma AddAtNode(net: Net, ids: seq<int>, k: nat, r: nat, id: int, score: int)
    ensures NetInv(net, ids, k) && r < |ids| && OwnIsNewest(net, ids, r) ==> StoresRequested(net, ids, r, id, score)
  {
    if NetInv(net, ids, k) && r < |ids| && OwnIsNewest(net, ids, r) {
      assert NodeInv(net.nodes[r], EmptyTop(ids, k), SetOfIds(ids));
      assert Within(net.nodes[r].state, ids[r], Get(net.nodes[r].state.vc, ids[r]));
      assert Get(net.nodes[r].state.vc, ids[r]) >= 0;
      FreshAtNode(net.nodes[r], EmptyTop(ids, k), SetOfIds(ids), ids[r], id, score);
      FreshHappens(net, ids, r, id, score);
    }
  }

  lemma FreshAtNode(node: Node, start: State, ids: set<int>, self: int, id: int, score: int)
    requires NodeInv(node, start, ids) && Within(node.state, self, Get(node.state.vc, self)) && Get(node.state.vc, self) >= 0
    ensures AddsFresh(node.state, self, id, score)
  {
    var x := Elem(id, score, Get(node.state.vc, self) + 1, self);
    NextAddIsStored(node.state, self, id, score);
    if IsStored(node.state, x) { NodeSees(node, start, ids, x); }
  }

  lemma FreshHappens(net: Net, ids: seq<int>, r: nat, id: int, score: int)
    requires |net.nodes| == |ids| && r < |ids| && Get(net.nodes[r].state.vc, ids[r]) >= 0
    ensures AddsFresh(net.nodes[r].state, ids[r], id, score) ==> StoresRequested(net, ids, r, id, score)
  {
    var s, after := net.nodes[r].state, Happen(net, ids, AddAt(r, id, score));
    var x := Elem(id, score, Get(s.vc, ids[r]) + 1, ids[r]);
    AddHappens(net, ids, r, id, score);
    SameStored(s, Added(s, x), after.nodes[r].state, x);
  }

  lemma SameStored(s: State, after: State, other: State, x: Elem)
    ensures after == other ==> NewlyStored(s, after, x) == NewlyStored(s, other, x)
  {
  }

  lemma PreparedAdd(s: State, self: int, id: int, score: int)
    ensures var u := PrepareAdd(s, self, id, score);
            !u.NoOp? && StepOf(u, ZERO) == AddStep(Elem(id, score, Get(s.vc, self) + 1, self))
  {
  }

  lemma AddHappens(net: Net, ids: seq<int>, r: nat, id: int, score: int)
    requires |net.nodes| == |ids| && r < |ids| && Get(net.nodes[r].state.vc, ids[r]) >= 0
    ensures var after, s := Happen(net, ids, AddAt(r, id, score)), net.nodes[r].state;
            |after.nodes| == |ids| && after.nodes[r].state == Added(s, Elem(id, score, Get(s.vc, ids[r]) + 1, ids[r]))
  {
    var e, s := AddAt(r, id, score), net.nodes[r].state;
    PreparedAdd(s, ids[r], id, score);
    assert UpdateOf(net, ids, e) == PrepareAdd(s, ids[r], id, score);
    assert Enabled(net, ids, e);
  }

  /** No recorded remove is newer at the replica than its own clock, so its next add is not suppressed. */
  lemma NextAddIsStored(s: State, self: int, id: int, score: int)
    requires WellFormed(s) && Within(s, self, Get(s.vc, self)) && Get(s.vc, self) >= 0
    ensures var x := Elem(id, score, Get(s.vc, self) + 1, self); IsStored(Added(s, x), x)
  {
    var x := Elem(id, score, Get(s.vc, self) + 1, self);
    assert !Suppressed(s, x);
    InsertStores(s.(vc := SeenBy(s.vc, x)), x);
  }

  lemma InsertStores(s: State, x: Elem)
    requires WellFormed(s) && x.ts >= 1
    ensures IsStored(Inserted(s, x), x)
  {
    if x.id in s.elems {
      InsertConservesVisible(s, x, x);
    } else if |s.elems| >= s.maxElems && !IsHigher(x, s.smallest) {
      HideHides(s.hidden, x);
    } else {
      assert x.id in Inserted(s, x).elems && Inserted(s, x).elems[x.id] == x;
    }
  }

  // ---------------------------------------------------------------- what is sent

  /** A remove request is sent exactly if it changes what its replica shows. */
  lemma RemoveIsSentExactly(ids: seq<int>, k: nat, events: seq<Event>, r: nat, id: int, h: Elem)
    requires k >= 1 && r < |ids| && |RunNet(ids, k, events).nodes| == |ids|
    requires Enabled(RunNet(ids, k, events), ids, RemoveAt(r, id, h))
    ensures var net := RunNet(ids, k, events);
            MustReplicate(PrepareRemove(net.nodes[r].state, id))
            <==> Happen(net, ids, RemoveAt(r, id, h)).nodes[r].state.elems != net.nodes[r].state.elems
  {
    var node := NodeOf(ids, k, events, r);
    PreparedRemove(node.state, id);
    if id in node.state.elems {
      RemoveRequestTakesAll(ids, k, events, r, id, h, node.state.elems[id]);
      assert IsStored(node.state, node.state.elems[id]);
    }
  }

  /** An add that is received is stored, or a remove is sent that takes it out wherever it is stored. */
  lemma ReceivedAddIsStoredOrRemoved(net: Net, ids: seq<int>, k: nat, r: nat, x: Elem, s: State, h: Elem)
    requires NetInv(net, ids, k) && r < |ids| && Enabled(net, ids, Receive(r, DownstreamAdd(x), ZERO))
    ensures var after := Happen(net, ids, Receive(r, DownstreamAdd(x), ZERO));
            && |after.nodes| == |ids|
            && (IsStored(after.nodes[r].state, x) ||
                exists vc :: DownstreamRemove(x.id, vc) in after.sent
                          && (WellFormed(s) && MayPromote(s, x.id, vc, h) ==> !IsStored(Removed(s, x.id, vc, h), x)))
  {
    var state := net.nodes[r].state;
    assert NodeInv(net.nodes[r], EmptyTop(ids, k), SetOfIds(ids));
    if Suppressed(state, x) {
      var vc := state.rems[x.id];
      assert DownstreamRemove(x.id, vc) in Resent(state, AddStep(x));
      if WellFormed(s) && MayPromote(s, x.id, vc, h) { RemoveConserves(s, x.id, vc, h); }
    } else {
      InsertStores(state.(vc := SeenBy(state.vc, x)), x);
    }
  }

  /** An add that a received remove promotes is shown there and sent. */
  lemma PromotedIsShownAndSent(net: Net, ids: seq<int>, k: nat, r: nat, id: int, vc: Clock, h: Elem)
    requires NetInv(net, ids, k) && r < |ids| && h != ZERO && Enabled(net, ids, Receive(r, DownstreamRemove(id, vc), h))
    ensures var after := Happen(net, ids, Receive(r, DownstreamRemove(id, vc), h));
            && |after.nodes| == |ids| && DownstreamAdd(h) in after.sent
            && h.id in after.nodes[r].state.elems && after.nodes[r].state.elems[h.id] == h
  {
    assert NodeInv(net.nodes[r], EmptyTop(ids, k), SetOfIds(ids));
  }
}
