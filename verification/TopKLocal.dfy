/** One replica of the top-K at work on its own, what it keeps from the others, and a remove that spoils
    the cached minimum. */
module TopKLocal {
  import opened GoMaps
  import opened Clocks
  import opened TopKRmv
  import opened TopKInvariant
  import opened TopK

  datatype Request = AddReq(id: int, score: int) | RemoveReq(id: int)

  /** Applying an update; h is the element that a remove promotes. */
  ghost function Applied(s: State, u: Update, h: Elem): State {
    match u
    case DownstreamAdd(x) => Added(s, x)
    case OptDownstreamAdd(x) => Added(s, x)
    case DownstreamRemove(id, vc) => Removed(s, id, vc, h)
    case OptDownstreamRemove(id, vc) => Removed(s, id, vc, h)
    case NoOp => s
  }

  /** Prepare a request and apply it at once. */
  ghost function LocalOn(s: State, self: int, req: Request, h: Elem): State {
    match req
    case AddReq(id, score) => Applied(Ticked(s, self), PrepareAdd(s, self, id, score), h)
    case RemoveReq(id) => Applied(s, PrepareRemove(s, id), h)
  }

  function Ticked(s: State, self: int): State {
    s.(vc := s.vc[self := Get(s.vc, self) + 1])
  }

  ghost function LocalRun(s: State, self: int, reqs: seq<Request>, hs: seq<Elem>): State
    requires |reqs| == |hs|
  {
    if reqs == [] then s
    else LocalOn(LocalRun(s, self, reqs[..|reqs| - 1], hs[..|hs| - 1]), self, reqs[|reqs| - 1], hs[|hs| - 1])
  }

  ghost predicate LocalStep(s: State, req: Request, h: Elem) {
    req.RemoveReq? ==>
      match PrepareRemove(s, req.id)
      case DownstreamRemove(id, vc) => MayPromote(s, id, vc, h)
      case OptDownstreamRemove(id, vc) => MayPromote(s, id, vc, h)
      case _ => true
  }

  ghost predicate PossibleLocalRun(s: State, self: int, reqs: seq<Request>, hs: seq<Elem>)
    requires |reqs| == |hs|
  {
    forall i :: 0 <= i < |reqs| ==> LocalStep(LocalRun(s, self, reqs[..i], hs[..i]), reqs[i], hs[i])
  }

  function Adds(reqs: seq<Request>): nat {
    if reqs == [] then 0 else Adds(reqs[..|reqs| - 1]) + (if reqs[|reqs| - 1].AddReq? then 1 else 0)
  }

  /** The adds since the last remove of their id, numbered from ts on. */
  function LiveReqs(self: int, ts: int, reqs: seq<Request>): set<Elem> {
    if reqs == [] then {}
    else
      var live := LiveReqs(self, ts, reqs[..|reqs| - 1]);
      match reqs[|reqs| - 1]
      case AddReq(id, score) => live + {Elem(id, score, ts + Adds(reqs), self)}
      case RemoveReq(id) => set a | a in live && a.id != id
  }

  ghost predicate IsLiveReq(self: int, ts: int, reqs: seq<Request>, a: Elem, i: int) {
    && 0 <= i < |reqs| && reqs[i] == AddReq(a.id, a.score)
    && a.ts == ts + Adds(reqs[..i + 1]) && a.replica == self
    && forall j :: i < j < |reqs| ==> reqs[j] != RemoveReq(a.id)
  }

  lemma LiveReqBefore(self: int, ts: int, reqs: seq<Request>, a: Elem, i: nat)
    requires i < |reqs| - 1
    ensures IsLiveReq(self, ts, reqs, a, i)
       <==> IsLiveReq(self, ts, reqs[..|reqs| - 1], a, i) && reqs[|reqs| - 1] != RemoveReq(a.id)
  {
    assert reqs[..|reqs| - 1][..i + 1] == reqs[..i + 1];
  }

  /** An add is live exactly if it was requested and no remove of its id came later. */
  lemma {:induction false} LiveReqsMeaning(self: int, ts: int, reqs: seq<Request>, a: Elem)
    ensures a in LiveReqs(self, ts, reqs) <==> exists i :: IsLiveReq(self, ts, reqs, a, i)
  {
    if reqs != [] {
      var n := |reqs| - 1;
      LiveReqsMeaning(self, ts, reqs[..n], a);
      assert reqs[..n + 1] == reqs;
      forall i: nat | i < n { LiveReqBefore(self, ts, reqs, a, i); }
      if i :| IsLiveReq(self, ts, reqs[..n], a, i) {
        assert IsLiveReq(self, ts, reqs, a, i) || reqs[n] == RemoveReq(a.id);
      }
      assert IsLiveReq(self, ts, reqs, a, n) <==> reqs[n] == AddReq(a.id, a.score) && a.ts == ts + Adds(reqs) && a.replica == self;
    }
  }

  // ---------------------------------------------------------------- one replica shows the best of its live adds

  /** Everything live and everything removed was seen by the replica's own clock. */
  ghost predicate OwnClock(vc: Clock, rems: map<int, Clock>, self: int, live: set<Elem>) {
    && Get(vc, self) >= 0
    && (forall a :: a in live ==> a.replica == self && a.ts <= Get(vc, self))
    && (forall id :: id in rems ==> Get(rems[id], self) <= Get(vc, self))
  }

  ghost predicate LocalInv(s: State, self: int, live: set<Elem>) {
    Shows(s, live, true) && OwnClock(s.vc, s.rems, self, live)
  }

  lemma TickedCovers(s: State, self: int, a: Elem)
    requires Covered(s, a, true)
    ensures Covered(Ticked(s, self), a, true)
  {
    var y :| IsStored(s, y) && Dominates(y, a, true);
    assert IsStored(Ticked(s, self), y);
  }

  lemma TickedShows(s: State, self: int, live: set<Elem>)
    requires Shows(s, live, true)
    ensures Shows(Ticked(s, self), live, true)
  {
    TickedKeepsInv(s, self);
    forall y | IsStored(Ticked(s, self), y) ensures y in live {
      assert IsStored(s, y);
    }
    forall a | a in live ensures Covered(Ticked(s, self), a, true) {
      TickedCovers(s, self, a);
    }
  }

  lemma TickedKeepsInv(s: State, self: int)
    requires Inv(s)
    ensures Inv(Ticked(s, self))
  {
  }

  /** A local add is never suppressed: its timestamp is above every remove recorded so far. */
  lemma LocalAddIsNotSuppressed(s: State, self: int, live: set<Elem>, id: int, score: int)
    requires LocalInv(s, self, live)
    ensures !Suppressed(s, NewElem(s, self, id, score)) && !Suppressed(Ticked(s, self), NewElem(s, self, id, score))
  {
  }

  lemma LocalAdd(s: State, self: int, live: set<Elem>, id: int, score: int)
    requires LocalInv(s, self, live)
    ensures var s', x := Added(Ticked(s, self), NewElem(s, self, id, score)), NewElem(s, self, id, score);
            Shows(s', live + {x}, true) && OwnClock(s'.vc, s'.rems, self, live + {x}) && Get(s'.vc, self) == Get(s.vc, self) + 1
  {
    var x := NewElem(s, self, id, score);
    LocalAddIsNotSuppressed(s, self, live, id, score);
    TickedShows(s, self, live);
    LocalAddShows(Ticked(s, self), live, x);
    AddFrame(Ticked(s, self), x);
    OwnClockTicks(s.vc, s.rems, self, live, x);
  }

  lemma OwnClockTicks(vc: Clock, rems: map<int, Clock>, self: int, live: set<Elem>, x: Elem)
    requires OwnClock(vc, rems, self, live) && x.replica == self && x.ts == Get(vc, self) + 1
    ensures var vc' := SeenBy(vc[self := Get(vc, self) + 1], x);
            OwnClock(vc', rems, self, live + {x}) && Get(vc', self) == Get(vc, self) + 1
  {
  }

  lemma LocalAddShows(s: State, live: set<Elem>, x: Elem)
    requires Shows(s, live, true) && x.ts >= 1 && !Suppressed(s, x) && forall a :: a in live ==> a.ts <= x.ts
    ensures Shows(Added(s, x), live + {x}, true)
  {
    AddShows(s, live, x, true);
  }

  /** A remove that finds nothing to remove has nothing live to remove. */
  lemma NothingToRemove(s: State, self: int, live: set<Elem>, id: int)
    requires LocalInv(s, self, live) && PrepareRemove(s, id).NoOp?
    ensures (set a | a in live && a.id != id) == live
  {
    forall a | a in live ensures a.id != id {
      assert Covered(s, a, true);
      var y :| IsStored(s, y) && Dominates(y, a, true);
    }
  }

  /** The replica's own clock has seen every hidden add. */
  lemma LocalRemoveFits(s: State, self: int, live: set<Elem>, id: int, h: Elem)
    requires LocalInv(s, self, live) && MayPromote(s, id, s.vc, h)
    ensures SafeRemove(s, id, s.vc)
  {
    assert Survivors(s, id, s.vc) == {} by {
      forall x | id in s.hidden && x in s.hidden[id] ensures x.ts <= Get(s.vc, x.replica) {
        assert IsHidden(s.hidden, x) && IsStored(s, x);
      }
    }
  }

  lemma LocalRemove(s: State, self: int, live: set<Elem>, id: int, h: Elem)
    requires LocalInv(s, self, live) && MayPromote(s, id, s.vc, h)
    ensures var s', rest := Removed(s, id, s.vc, h), set a | a in live && a.id != id;
            Shows(s', rest, true) && OwnClock(s'.vc, s'.rems, self, rest) && s'.vc == s.vc
  {
    LocalRemoveFits(s, self, live, id, h);
    RemoveShows(s, live, id, s.vc, h);
    UnseenByOwn(s.vc, s.rems, self, live, id);
    RemoveFrame(s, id, s.vc, h);
  }

  lemma UnseenByOwn(vc: Clock, rems: map<int, Clock>, self: int, live: set<Elem>, id: int)
    requires OwnClock(vc, rems, self, live)
    ensures Unseen(live, id, vc) == set a | a in live && a.id != id
    ensures OwnClock(vc, rems[id := if id in rems then Merged(rems[id], vc) else vc], self, set a | a in live && a.id != id)
  {
  }

  lemma {:induction false} LocalRunInv(s: State, self: int, reqs: seq<Request>, hs: seq<Elem>)
    requires |reqs| == |hs| && Empty(s) && s.rems == map[] && Get(s.vc, self) >= 0 && PossibleLocalRun(s, self, reqs, hs)
    ensures LocalInv(LocalRun(s, self, reqs, hs), self, LiveReqs(self, Get(s.vc, self), reqs))
    ensures Get(LocalRun(s, self, reqs, hs).vc, self) == Get(s.vc, self) + Adds(reqs)
    ensures LocalRun(s, self, reqs, hs).maxElems == s.maxElems
  {
    if reqs == [] {
      EmptyTopKeepsInv(s);
    } else {
      var n := |reqs| - 1;
      PossiblePrefix(s, self, reqs, hs);
      LocalRunInv(s, self, reqs[..n], hs[..n]);
      LocalStepInv(LocalRun(s, self, reqs[..n], hs[..n]), self, LiveReqs(self, Get(s.vc, self), reqs[..n]), reqs[n], hs[n]);
      LiveReqsStep(LocalRun(s, self, reqs[..n], hs[..n]), self, Get(s.vc, self), reqs);
    }
  }

  function LiveNext(s: State, self: int, live: set<Elem>, req: Request): set<Elem> {
    if req.AddReq? then live + {NewElem(s, self, req.id, req.score)} else set a | a in live && a.id != req.id
  }

  lemma LiveReqsStep(s: State, self: int, ts: int, reqs: seq<Request>)
    requires reqs != [] && Get(s.vc, self) == ts + Adds(reqs[..|reqs| - 1])
    ensures LiveReqs(self, ts, reqs) == LiveNext(s, self, LiveReqs(self, ts, reqs[..|reqs| - 1]), reqs[|reqs| - 1])
  {
  }

  lemma PossiblePrefix(s: State, self: int, reqs: seq<Request>, hs: seq<Elem>)
    requires |reqs| == |hs| > 0 && PossibleLocalRun(s, self, reqs, hs)
    ensures PossibleLocalRun(s, self, reqs[..|reqs| - 1], hs[..|hs| - 1])
    ensures LocalStep(LocalRun(s, self, reqs[..|reqs| - 1], hs[..|hs| - 1]), reqs[|reqs| - 1], hs[|hs| - 1])
  {
    forall i | 0 <= i < |reqs| - 1 ensures reqs[..|reqs| - 1][..i] == reqs[..i] && hs[..|hs| - 1][..i] == hs[..i] {
    }
  }

  /** What the prepared update of a request does at its source. */
  lemma LocalIs(s: State, self: int, req: Request, h: Elem)
    ensures req.AddReq? ==> LocalOn(s, self, req, h) == Added(Ticked(s, self), NewElem(s, self, req.id, req.score))
    ensures req.RemoveReq? && PrepareRemove(s, req.id).NoOp? ==> LocalOn(s, self, req, h) == s
    ensures req.RemoveReq? && !PrepareRemove(s, req.id).NoOp? ==> LocalOn(s, self, req, h) == Removed(s, req.id, s.vc, h)
    ensures req.RemoveReq? && !PrepareRemove(s, req.id).NoOp? && LocalStep(s, req, h) ==> MayPromote(s, req.id, s.vc, h)
  {
  }

  lemma LocalStepInv(s: State, self: int, live: set<Elem>, req: Request, h: Elem)
    requires LocalInv(s, self, live) && LocalStep(s, req, h)
    ensures LocalOn(s, self, req, h).maxElems == s.maxElems
    ensures Get(LocalOn(s, self, req, h).vc, self) == Get(s.vc, self) + (if req.AddReq? then 1 else 0)
    ensures LocalInv(LocalOn(s, self, req, h), self, LiveNext(s, self, live, req))
  {
    LocalKeepsSize(s, self, req, h);
    LocalIs(s, self, req, h);
    if req.AddReq? {
      LocalAdd(s, self, live, req.id, req.score);
    } else {
      LocalRemoveInv(s, self, live, req.id, LocalOn(s, self, req, h), h);
    }
  }

  lemma LocalRemoveInv(s: State, self: int, live: set<Elem>, id: int, after: State, h: Elem)
    requires LocalInv(s, self, live)
    requires if PrepareRemove(s, id).NoOp? then after == s else after == Removed(s, id, s.vc, h) && MayPromote(s, id, s.vc, h)
    ensures LocalInv(after, self, set a | a in live && a.id != id) && after.vc == s.vc
  {
    if PrepareRemove(s, id).NoOp? { NothingToRemove(s, self, live, id); } else { LocalRemove(s, self, live, id, h); }
  }

  lemma LocalKeepsSize(s: State, self: int, req: Request, h: Elem)
    ensures LocalOn(s, self, req, h).maxElems == s.maxElems
  {
    LocalIs(s, self, req, h);
    match req
    case AddReq(id, score) => AddFrame(Ticked(s, self), NewElem(s, self, id, score));
    case RemoveReq(id) => RemoveFrame(s, id, s.vc, h);
  }

  /** Single-replica refinement: after any requests, each prepared and applied in turn, the top shows
      exactly the best of the live adds, and the next local add will not be suppressed. */
  lemma SingleReplicaTopK(s: State, self: int, reqs: seq<Request>, hs: seq<Elem>)
    requires |reqs| == |hs| && Empty(s) && s.rems == map[] && Get(s.vc, self) >= 0 && PossibleLocalRun(s, self, reqs, hs)
    ensures var s' := LocalRun(s, self, reqs, hs);
            && IsTop(LiveReqs(self, Get(s.vc, self), reqs), s'.elems, s.maxElems)
            && forall id, score :: !Suppressed(s', NewElem(s', self, id, score))
  {
    var s', live := LocalRun(s, self, reqs, hs), LiveReqs(self, Get(s.vc, self), reqs);
    LocalRunInv(s, self, reqs, hs);
    ShownIsTop(s', live, true);
    forall id, score ensures !Suppressed(s', NewElem(s', self, id, score)) {
      LocalAddIsNotSuppressed(s', self, live, id, score);
    }
  }

  // ---------------------------------------------------------------- what stays local

  /** A local add that changes the visible top is replicated, unless it only fills free space below the
      smallest visible one: preparing an add does not look at free space. */
  lemma VisibleAddIsReplicatedExactly(s: State, self: int, id: int, score: int)
    requires Inv(s) && Get(s.vc, self) >= 0
    requires var x := NewElem(s, self, id, score); !Suppressed(s, x)
    ensures var x := NewElem(s, self, id, score);
            (Added(Ticked(s, self), x).elems != s.elems && !MustReplicate(PrepareAdd(s, self, id, score)))
            <==> (id !in s.elems && |s.elems| < s.maxElems && !IsHigher(x, s.smallest))
  {
    var x := NewElem(s, self, id, score);
    var after := Added(Ticked(s, self), x).elems;
    assert !Suppressed(Ticked(s, self), x);
    if id in s.elems {
      if IsHigher(x, s.elems[id]) { assert after[id] == x; }
    } else if |s.elems| < s.maxElems || IsHigher(x, s.smallest) {
      assert id in after;
    }
  }

  /** And one that changes nothing visible stays local, unless it has exactly the score that its id shows and no
      later stamp than the one shown. */
  lemma InvisibleAddStaysLocalExactly(s: State, self: int, id: int, score: int)
    requires Inv(s) && Get(s.vc, self) >= 0
    requires var x := NewElem(s, self, id, score); !Suppressed(s, x)
    ensures var x := NewElem(s, self, id, score);
            (Added(Ticked(s, self), x).elems == s.elems && MustReplicate(PrepareAdd(s, self, id, score)))
            <==> (id in s.elems && s.elems[id].score == score && s.elems[id].ts > Get(s.vc, self))
  {
    var x := NewElem(s, self, id, score);
    var after := Added(Ticked(s, self), x).elems;
    assert !Suppressed(Ticked(s, self), x);
    if id in s.elems {
      assert s.elems[id].ts >= 1;
      if IsHigher(x, s.elems[id]) { assert after[id] == x; }
    } else if |s.elems| < s.maxElems || IsHigher(x, s.smallest) {
      assert id in after;
    }
  }

  /** That happens: after one add to an empty top with room for two, an add of another id with a lower
      score becomes visible but is not sent, and a replica that only receives what is sent never shows it. */
  lemma UnsentAddIsVisible(k: nat, self: int, id: int, score: int, other: int, lower: int, vc: Clock)
    requires k >= 2 && id != other && lower < score && Get(vc, self) == 0
    ensures var s := State(k, map[], ZERO, map[], map[], vc);
            var first, sent := NewElem(s, self, id, score), PrepareAdd(s, self, id, score);
            var s1 := Added(Ticked(s, self), first);
            var second, unsent := NewElem(s1, self, other, lower), PrepareAdd(s1, self, other, lower);
            && sent == DownstreamAdd(first) && Inv(s1) && |s1.elems| < k
            && unsent == OptDownstreamAdd(second) && !MustReplicate(unsent)
            && other in Added(Ticked(s1, self), second).elems && other !in Added(s, first).elems
  {
    var s := State(k, map[], ZERO, map[], map[], vc);
    var first := NewElem(s, self, id, score);
    var s1 := Added(Ticked(s, self), first);
    EmptyTopKeepsInv(Ticked(s, self));
    AddKeepsInv(Ticked(s, self), first);
    assert s1.elems == map[id := first] && s1.smallest == first;
    var second := NewElem(s1, self, other, lower);
    assert !Suppressed(Ticked(s1, self), second);
    assert |s1.elems| == 1;
  }

  /** A local remove that changes the visible top is replicated. */
  lemma VisibleRemoveIsReplicated(s: State, id: int, h: Elem)
    requires MayPromote(s, id, s.vc, h) && Removed(s, id, s.vc, h).elems != s.elems
    ensures MustReplicate(PrepareRemove(s, id))
  {
  }

  // ---------------------------------------------------------------- a remove that does not fit

  const VISIBLE := Elem(1, 10, 1, 1)
  const LOW := Elem(2, 3, 2, 1)
  const HIDDEN := Elem(1, 5, 1, 2)

  /** A full top of two, with a hidden add of the visible id 1 by replica 2. */
  function FullTop(): State {
    State(2, map[1 := VISIBLE, 2 := LOW], LOW, map[], map[1 := {HIDDEN}], map[1 := 2, 2 := 1])
  }

  const START := State(2, map[], ZERO, map[], map[], map[1 := 0, 2 := 0])

  /** It is what three adds lead to. */
  lemma FullTopIsReached()
    ensures AddedAll(START, [VISIBLE, HIDDEN, LOW]) == FullTop()
  {
    assert [VISIBLE, HIDDEN, LOW][..2] == [VISIBLE, HIDDEN] && [VISIBLE, HIDDEN][..1] == [VISIBLE] && [VISIBLE][..0] == [];
    var s1 := START.(elems := map[1 := VISIBLE], smallest := VISIBLE, vc := map[1 := 1, 2 := 0]);
    var s2 := s1.(hidden := map[1 := {HIDDEN}], vc := map[1 := 1, 2 := 1]);
    FirstAdd(s1);
    SecondAdd(s1, s2);
    ThirdAdd(s2);
    assert AddedAll(START, [VISIBLE]) == s1;
    assert AddedAll(START, [VISIBLE, HIDDEN]) == s2;
  }

  lemma FirstAdd(s1: State)
    requires s1 == START.(elems := map[1 := VISIBLE], smallest := VISIBLE, vc := map[1 := 1, 2 := 0])
    ensures Added(START, VISIBLE) == s1
  {
    assert SeenBy(START.vc, VISIBLE) == s1.vc;
  }

  lemma SecondAdd(s1: State, s2: State)
    requires s1 == START.(elems := map[1 := VISIBLE], smallest := VISIBLE, vc := map[1 := 1, 2 := 0])
    requires s2 == s1.(hidden := map[1 := {HIDDEN}], vc := map[1 := 1, 2 := 1])
    ensures Added(s1, HIDDEN) == s2
  {
    assert SeenBy(s1.vc, HIDDEN) == s2.vc;
    var none: set<Elem> := {};
    assert none + {HIDDEN} == {HIDDEN};
  }

  lemma ThirdAdd(s2: State)
    requires s2.maxElems == 2 && s2.elems == map[1 := VISIBLE] && s2.smallest == VISIBLE && s2.rems == map[]
    requires s2.hidden == map[1 := {HIDDEN}] && s2.vc == map[1 := 1, 2 := 1]
    ensures Added(s2, LOW) == FullTop()
  {
    assert SeenBy(s2.vc, LOW) == FullTop().vc;
    assert s2.elems[2 := LOW] == FullTop().elems;
  }

  lemma FullTopKeepsInv()
    ensures Inv(FullTop()) && |FullTop().elems - {1}| == 1
  {
    SizeWithout(FullTop().elems, 1);
    assert HIDDEN in FullTop().hidden[1];
    assert forall x :: IsHidden(FullTop().hidden, x) ==> x == HIDDEN;
  }

  /** Replica 1 removes its own add of id 1: the hidden add of replica 2 survives, moves up and becomes
      the cached minimum although id 2 is lower.  An add between the two is then hidden where it should
      have taken the place of id 2. */
  lemma PromotionSpoilsMinimum(h: Elem)
    requires MayPromote(FullTop(), 1, map[1 := 2, 2 := 0], h)
    ensures Inv(FullTop())
    ensures var s', x := Removed(FullTop(), 1, map[1 := 2, 2 := 0], h), Elem(3, 4, 3, 1);
            && h == HIDDEN && !Inv(s')
            && Added(s', x).elems == s'.elems && 2 in s'.elems && IsHigher(x, s'.elems[2])
  {
    var vc: Clock := map[1 := 2, 2 := 0];
    var s := FullTop();
    FullTopKeepsInv();
    SurvivorMovesUp(vc, h);
    RemoveKeepsInvExactly(s, 1, vc, h);
    SurvivorIsNotSafe(vc);
    BetweenIsHidden(Removed(s, 1, vc, h), h);
  }

  lemma SurvivorIsNotSafe(vc: Clock)
    requires vc == map[1 := 2, 2 := 0] && Takes(FullTop(), 1, vc)
    ensures !SafeRemove(FullTop(), 1, vc)
  {
    FullTopKeepsInv();
    assert HIDDEN in Survivors(FullTop(), 1, vc);
    assert !IsHigher(FullTop().elems[2], HIDDEN);
  }

  lemma BetweenIsHidden(s: State, h: Elem)
    requires h == HIDDEN && s.elems == (FullTop().elems - {1})[1 := h] && s.smallest == h && s.maxElems == 2 && 3 !in s.rems
    ensures var x := Elem(3, 4, 3, 1); Added(s, x).elems == s.elems && 2 in s.elems && IsHigher(x, s.elems[2])
  {
    assert s.elems.Keys == {1, 2};
    assert |s.elems| == 2;
  }

  lemma SurvivorMovesUp(vc: Clock, h: Elem)
    requires vc == map[1 := 2, 2 := 0] && MayPromote(FullTop(), 1, vc, h)
    ensures Takes(FullTop(), 1, vc) && h == HIDDEN
  {
    var s := FullTop();
    FullTopKeepsInv();
    RecordedHidden(s, 1, vc);
    var r := Recorded(s, 1, vc);
    assert IsHidden(s.hidden, HIDDEN) && IsHidden(r.hidden, HIDDEN);
    assert IsCandidate(r.hidden, r.elems - {1}, HIDDEN);
    assert IsHidden(r.hidden, h);
    assert IsHidden(s.hidden, h);
  }
}
