/** The top-K with removes of crdt/crdt/topKRmv.go: at most maxElems visible ids, one add each; adds that
    do not fit are hidden and may be promoted when a visible one is removed.  The smallest visible add is
    cached, and every id remembers the clock of its removes. */
module TopKRmv {
  import opened GoMaps
  import opened Clocks
  import opened Options

  datatype Elem = Elem(id: int, score: int, ts: int, replica: int)

  /** The zero value, which the code uses for "no element". */
  const ZERO := Elem(0, 0, 0, 0)

  type Elems = map<int, Elem>
  type Hidden = map<int, set<Elem>>

  predicate IsHigher(a: Elem, b: Elem) {
    b == ZERO || a.score > b.score || (a.score == b.score && (a.id > b.id || (a.id == b.id && a.ts > b.ts)))
  }

  predicate IsSmaller(a: Elem, b: Elem) {
    b == ZERO || IsHigher(b, a)
  }

  datatype State = State(maxElems: nat, elems: Elems, smallest: Elem, rems: map<int, Clock>, hidden: Hidden, vc: Clock)

  // ---------------------------------------------------------------- states

  predicate Keyed(elems: Elems) {
    forall id :: id in elems ==> elems[id].id == id && elems[id].ts >= 1
  }

  predicate KeyedHidden(hidden: Hidden) {
    forall id, x :: id in hidden && x in hidden[id] ==> x.id == id && x.ts >= 1
  }

  /** What every state satisfies: elements are stored under their id, and only an empty top has no
      smallest element. */
  predicate WellFormed(s: State) {
    && s.maxElems >= 1 && Keyed(s.elems) && KeyedHidden(s.hidden)
    && (s.smallest == ZERO || s.smallest.ts >= 1)
    && (s.elems != map[] ==> s.smallest != ZERO)
  }

  ghost predicate IsMinOf(elems: Elems, x: Elem) {
    if elems == map[] then x == ZERO
    else x.id in elems && elems[x.id] == x && forall id :: id in elems && id != x.id ==> IsHigher(elems[id], x)
  }

  ghost function MinOf(elems: Elems): Elem {
    if exists x :: IsMinOf(elems, x) then var x :| IsMinOf(elems, x); x else ZERO
  }

  lemma MinIsUnique(elems: Elems, x: Elem)
    requires Keyed(elems) && IsMinOf(elems, x)
    ensures MinOf(elems) == x
  {
    var y := MinOf(elems);
    assert IsMinOf(elems, y);
  }

  // ---------------------------------------------------------------- add

  function Hide(hidden: Hidden, x: Elem): Hidden {
    hidden[x.id := (if x.id in hidden then hidden[x.id] else {}) + {x}]
  }

  /** A recorded remove of the id has already seen this add. */
  predicate Suppressed(s: State, x: Elem) {
    x.id in s.rems && Get(s.rems[x.id], x.replica) >= x.ts
  }

  function SeenBy(vc: Clock, x: Elem): Clock {
    if Get(vc, x.replica) < x.ts then vc[x.replica := x.ts] else vc
  }

  ghost function Inserted(s: State, x: Elem): State {
    if x.id in s.elems then
      var e := s.elems[x.id];
      if IsHigher(x, e) then
        var elems := s.elems[x.id := x];
        s.(elems := elems,
           hidden := if e.replica != x.replica then Hide(s.hidden, e) else s.hidden,
           smallest := if s.smallest == e then MinOf(elems) else s.smallest)
      else s.(hidden := Hide(s.hidden, x))
    else if |s.elems| < s.maxElems then
      s.(elems := s.elems[x.id := x],
         smallest := if s.smallest == ZERO || IsHigher(s.smallest, x) then x else s.smallest)
    else if IsHigher(x, s.smallest) then
      var elems := (s.elems - {s.smallest.id})[x.id := x];
      s.(elems := elems, hidden := Hide(s.hidden, s.smallest), smallest := MinOf(elems))
    else s.(hidden := Hide(s.hidden, x))
  }

  ghost function Added(s: State, x: Elem): State {
    var s' := s.(vc := SeenBy(s.vc, x));
    if Suppressed(s, x) then s' else Inserted(s', x)
  }

  /** The remove to pass on when the add comes too late. */
  function Suppressor(s: State, x: Elem): Option<Clock> {
    if Suppressed(s, x) then Some(s.rems[x.id]) else None
  }

  // ---------------------------------------------------------------- remove

  function Survivors(s: State, id: int, vc: Clock): set<Elem> {
    if id in s.hidden then set x | x in s.hidden[id] && x.ts > Get(vc, x.replica) else {}
  }

  function HiddenAfter(s: State, id: int, vc: Clock): Hidden {
    if id !in s.hidden then s.hidden
    else if Survivors(s, id, vc) == {} then s.hidden - {id}
    else s.hidden[id := Survivors(s, id, vc)]
  }

  /** The remove is recorded for later adds, and the hidden adds it has seen are dropped. */
  function Recorded(s: State, id: int, vc: Clock): State {
    s.(rems := s.rems[id := if id in s.rems then Merged(s.rems[id], vc) else vc], hidden := HiddenAfter(s, id, vc))
  }

  /** The remove takes the visible add of the id. */
  predicate Takes(s: State, id: int, vc: Clock) {
    id in s.elems && s.elems[id].ts <= Get(vc, s.elems[id].replica)
  }

  predicate IsCandidate(hidden: Hidden, elems: Elems, x: Elem) {
    x.id in hidden && x.id !in elems && x in hidden[x.id]
  }

  /** h is a highest hidden add of an id that is not visible, or ZERO if there is none; adds that differ
      only in their replica tie, and the map order decides. */
  ghost predicate IsHighestCandidate(hidden: Hidden, elems: Elems, h: Elem) {
    if h == ZERO then forall x :: !IsCandidate(hidden, elems, x)
    else IsCandidate(hidden, elems, h) && forall x :: IsCandidate(hidden, elems, x) ==> !IsHigher(x, h)
  }

  ghost predicate IsHighestIn(xs: set<Elem>, h: Elem) {
    if xs == {} then h == ZERO else h in xs && forall x :: x in xs ==> !IsHigher(x, h)
  }

  function HiddenOf(hidden: Hidden, id: int): set<Elem> {
    if id in hidden then hidden[id] else {}
  }

  function Unhide(hidden: Hidden, x: Elem): Hidden {
    if HiddenOf(hidden, x.id) - {x} == {} then hidden - {x.id} else hidden[x.id := HiddenOf(hidden, x.id) - {x}]
  }

  predicate WasFull(s: State, id: int) {
    |s.elems - {id}| == s.maxElems - 1
  }

  /** The element promoted for the visible add of the id; ZERO when there is none. */
  ghost predicate Promotes(s: State, id: int, h: Elem) {
    if WasFull(s, id) then IsHighestCandidate(s.hidden, s.elems - {id}, h) else IsHighestIn(HiddenOf(s.hidden, id), h)
  }

  /** The visible add of the id leaves and h, if any, takes a place. */
  ghost function Taken(s: State, id: int, h: Elem): State
    requires id in s.elems
  {
    var e, elems := s.elems[id], s.elems - {id};
    if h == ZERO then s.(elems := elems, smallest := if e == s.smallest then MinOf(elems) else s.smallest)
    else
      s.(elems := elems[h.id := h], hidden := Unhide(s.hidden, h),
         smallest := if WasFull(s, id) || e == s.smallest then h else s.smallest)
  }

  ghost predicate MayPromote(s: State, id: int, vc: Clock, h: Elem) {
    if Takes(s, id, vc) then Promotes(Recorded(s, id, vc), id, h) else h == ZERO
  }

  ghost function Removed(s: State, id: int, vc: Clock, h: Elem): State {
    if Takes(s, id, vc) then Taken(Recorded(s, id, vc), id, h) else Recorded(s, id, vc)
  }

  // ---------------------------------------------------------------- what no step touches

  lemma AddFrame(s: State, x: Elem)
    ensures var s' := Added(s, x); s'.maxElems == s.maxElems && s'.rems == s.rems && s'.vc == SeenBy(s.vc, x)
  {
    var now := s.(vc := SeenBy(s.vc, x));
    InsertFrame(now, x);
  }

  lemma InsertFrame(s: State, x: Elem)
    ensures var s' := Inserted(s, x); s'.maxElems == s.maxElems && s'.rems == s.rems && s'.vc == s.vc
  {
    if x.id in s.elems {
      if IsHigher(x, s.elems[x.id]) {
      } else {
      }
    } else if |s.elems| < s.maxElems {
    } else if IsHigher(x, s.smallest) {
    } else {
    }
  }

  lemma TakenFrame(s: State, id: int, h: Elem)
    requires id in s.elems
    ensures var s' := Taken(s, id, h); s'.maxElems == s.maxElems && s'.rems == s.rems && s'.vc == s.vc
  {
  }

  lemma RemoveFrame(s: State, id: int, vc: Clock, h: Elem)
    ensures var s' := Removed(s, id, vc, h);
            && s'.maxElems == s.maxElems && s'.vc == s.vc
            && s'.rems == s.rems[id := if id in s.rems then Merged(s.rems[id], vc) else vc]
  {
    if Takes(s, id, vc) { TakenFrame(Recorded(s, id, vc), id, h); }
  }

  // ---------------------------------------------------------------- batches

  /** The adds applied one by one. */
  ghost function AddedAll(s: State, xs: seq<Elem>): State {
    if xs == [] then s else Added(AddedAll(s, xs[..|xs| - 1]), xs[|xs| - 1])
  }

  datatype Remove = Remove(id: int, vc: Clock)

  /** The removes that the adds, applied one by one, ask to pass on. */
  ghost function SuppressorsOf(s: State, xs: seq<Elem>): seq<Remove> {
    if xs == [] then []
    else
      var front, x := xs[..|xs| - 1], xs[|xs| - 1];
      SuppressorsOf(s, front) +
      match Suppressor(AddedAll(s, front), x)
      case None => []
      case Some(vc) => [Remove(x.id, vc)]
  }

  /** All adds of a batch carry the timestamp and the replica of one transaction. */
  ghost predicate OneStamp(xs: seq<Elem>) {
    forall x :: x in xs ==> x.ts >= 1 && x.ts == xs[0].ts && x.replica == xs[0].replica
  }

  ghost function ClockSeen(s: State, xs: seq<Elem>): State {
    if xs == [] then s else s.(vc := SeenBy(s.vc, xs[0]))
  }

  /** Seeing the clock of a batch before its first add makes no difference. */
  lemma {:induction false} ClockSeenFirst(s: State, xs: seq<Elem>, n: nat)
    requires OneStamp(xs) && 0 < n <= |xs|
    ensures AddedAll(ClockSeen(s, xs), xs[..n]) == AddedAll(s, xs[..n])
  {
    assert xs[..n][..n - 1] == xs[..n - 1];
    if n == 1 {
      assert AddedAll(s, xs[..0]) == s && AddedAll(ClockSeen(s, xs), xs[..0]) == ClockSeen(s, xs);
    } else {
      ClockSeenFirst(s, xs, n - 1);
    }
  }

  lemma {:induction false} AddsKeepRems(s: State, xs: seq<Elem>)
    ensures AddedAll(s, xs).rems == s.rems
  {
    if xs != [] {
      AddsKeepRems(s, xs[..|xs| - 1]);
      AddFrame(AddedAll(s, xs[..|xs| - 1]), xs[|xs| - 1]);
    }
  }

  /** One more add of a batch, after the clock of the batch was seen. */
  lemma BatchAdd(s: State, xs: seq<Elem>, i: nat)
    requires OneStamp(xs) && i < |xs|
    ensures var now := AddedAll(ClockSeen(s, xs), xs[..i]);
            && now.rems == s.rems
            && AddedAll(ClockSeen(s, xs), xs[..i + 1]) == (if Suppressed(now, xs[i]) then now else Inserted(now, xs[i]))
    ensures SuppressorsOf(s, xs[..i + 1]) == SuppressorsOf(s, xs[..i]) +
      (if xs[i].id in s.rems && Get(s.rems[xs[i].id], xs[i].replica) >= xs[i].ts then [Remove(xs[i].id, s.rems[xs[i].id])] else [])
  {
    assert xs[..i + 1][..i] == xs[..i];
    AddsKeepRems(ClockSeen(s, xs), xs[..i]);
    AddsKeepRems(s, xs[..i]);
    ClockStays(ClockSeen(s, xs), xs, i);
  }

  lemma {:induction false} ClockStays(s: State, xs: seq<Elem>, i: nat)
    requires OneStamp(xs) && i <= |xs| && xs != [] && Get(s.vc, xs[0].replica) >= xs[0].ts
    ensures AddedAll(s, xs[..i]).vc == s.vc
  {
    if i > 0 {
      assert xs[..i][..i - 1] == xs[..i - 1];
      ClockStays(s, xs, i - 1);
      AddFrame(AddedAll(s, xs[..i - 1]), xs[i - 1]);
    }
  }

  /** The removes applied one by one; hs are the elements they promote. */
  ghost function RemovedAll(s: State, rs: seq<Remove>, hs: seq<Elem>): State
    requires |rs| == |hs|
  {
    if rs == [] then s
    else
      var r := rs[|rs| - 1];
      Removed(RemovedAll(s, rs[..|rs| - 1], hs[..|hs| - 1]), r.id, r.vc, hs[|hs| - 1])
  }

  ghost predicate MayPromoteAll(s: State, rs: seq<Remove>, hs: seq<Elem>)
    requires |rs| == |hs|
  {
    rs != [] ==>
      var r := rs[|rs| - 1];
      && MayPromoteAll(s, rs[..|rs| - 1], hs[..|hs| - 1])
      && MayPromote(RemovedAll(s, rs[..|rs| - 1], hs[..|hs| - 1]), r.id, r.vc, hs[|hs| - 1])
  }

  function NotZero(hs: seq<Elem>): seq<Elem> {
    if hs == [] then []
    else NotZero(hs[..|hs| - 1]) + (if hs[|hs| - 1] == ZERO then [] else [hs[|hs| - 1]])
  }

  /** The removes of a batch, each with its clock: one clock for all, or one each. */
  function RemovesOf(ids: seq<int>, vcs: seq<Clock>): seq<Remove>
    requires ids != [] ==> vcs != []
  {
    seq(|ids|, j requires 0 <= j < |ids| => Remove(ids[j], vcs[j % |vcs|]))
  }

  /** Add number i comes after a remove of its id that has seen it was recorded, and r is that remove. */
  ghost predicate TooLate(s: State, xs: seq<Elem>, i: nat, r: Remove) {
    i < |xs| && xs[i].id == r.id && r.id in s.rems && r.vc == s.rems[r.id] && xs[i].ts <= Get(r.vc, xs[i].replica)
  }

  /** The adds of a batch that come too late return one remove each, with the clock recorded for their id. */
  lemma {:induction false} SuppressorsExactly(s: State, xs: seq<Elem>, r: Remove)
    ensures r in SuppressorsOf(s, xs) <==> exists i: nat :: TooLate(s, xs, i, r)
  {
    if xs != [] {
      var front, last := xs[..|xs| - 1], xs[|xs| - 1];
      SuppressorsExactly(s, front, r);
      AddsKeepRems(s, front);
      assert TooLate(s, xs, |xs| - 1, r) <==> Suppressed(AddedAll(s, front), last) && r == Remove(last.id, s.rems[last.id]);
      forall i: nat | i < |front| ensures TooLate(s, front, i, r) <==> TooLate(s, xs, i, r) {}
    }
  }

  function IdsOf(rs: seq<Remove>): seq<int> {
    seq(|rs|, j requires 0 <= j < |rs| => rs[j].id)
  }

  function ClocksOf(rs: seq<Remove>): seq<Clock> {
    seq(|rs|, j requires 0 <= j < |rs| => rs[j].vc)
  }

  /** Ids and clocks listed side by side give each remove its own clock back, and a single clock goes to all. */
  lemma RemovesRoundTrip(rs: seq<Remove>, ids: seq<int>, vc: Clock)
    ensures RemovesOf(IdsOf(rs), ClocksOf(rs)) == rs
    ensures forall j :: 0 <= j < |ids| ==> RemovesOf(ids, [vc])[j] == Remove(ids[j], vc)
  {
    forall j: nat | j < |rs| ensures RemovesOf(IdsOf(rs), ClocksOf(rs))[j] == rs[j] {
      RemoveAt(IdsOf(rs), ClocksOf(rs), j);
      SmallRemainder(j, |rs|);
    }
    forall j: nat | j < |ids| ensures RemovesOf(ids, [vc])[j] == Remove(ids[j], vc) {
      RemoveAt(ids, [vc], j);
    }
  }

  lemma RemoveAt(ids: seq<int>, vcs: seq<Clock>, j: nat)
    requires j < |ids| && vcs != []
    ensures RemovesOf(ids, vcs)[j] == Remove(ids[j], vcs[j % |vcs|])
  {
  }

  lemma SmallRemainder(j: nat, n: nat)
    requires j < n
    ensures j % n == j
  {
  }

  /** The adds passed on are the promoted ones, as often as they were promoted. */
  lemma {:induction false} NotZeroExactly(hs: seq<Elem>, x: Elem)
    ensures multiset(NotZero(hs))[x] == if x == ZERO then 0 else multiset(hs)[x]
  {
    if hs != [] {
      NotZeroExactly(hs[..|hs| - 1], x);
      assert hs == hs[..|hs| - 1] + [hs[|hs| - 1]];
    }
  }

  // ---------------------------------------------------------------- the object

  datatype Update = DownstreamAdd(x: Elem) | OptDownstreamAdd(x: Elem)
                  | DownstreamRemove(id: int, vc: Clock) | OptDownstreamRemove(id: int, vc: Clock) | NoOp

  predicate MustReplicate(u: Update) {
    u.DownstreamAdd? || u.DownstreamRemove?
  }

  /** The add that a local request stands for. */
  function NewElem(s: State, self: int, id: int, score: int): Elem {
    Elem(id, score, Get(s.vc, self) + 1, self)
  }

  function PrepareAdd(s: State, self: int, id: int, score: int): Update {
    var x := NewElem(s, self, id, score);
    if (id in s.elems && s.elems[id].score <= score) || (id !in s.elems && IsHigher(x, s.smallest))
    then DownstreamAdd(x) else OptDownstreamAdd(x)
  }

  function PrepareRemove(s: State, id: int): Update {
    if id in s.elems then DownstreamRemove(id, s.vc)
    else if id in s.hidden then OptDownstreamRemove(id, s.vc)
    else NoOp
  }

  class TopKRmvCrdt {
    const replicaID: int
    var maxElems: nat
    var elems: Elems
    var smallestScore: Elem
    var rems: map<int, Clock>
    var notInTop: Hidden
    var vc: Clock

    ghost function Value(): State
      reads this
    {
      State(maxElems, elems, smallestScore, rems, notInTop, vc)
    }

    ghost predicate Valid()
      reads this
    {
      WellFormed(Value())
    }

    constructor (replicaID: int, size: nat, ids: seq<int>)
      requires size >= 1
      ensures Valid() && this.replicaID == replicaID
      ensures Value() == State(size, map[], ZERO, map[], map[], map i | i in ids :: 0)
    {
      this.replicaID := replicaID;
      maxElems := size;
      elems, smallestScore, rems, notInTop := map[], ZERO, map[], map[];
      vc := map i | i in ids :: 0;
    }

    method GetTopKAddDownstreamArgs(id: int, score: int) returns (args: Update)
      requires Valid()
      modifies this`vc
      ensures vc == old(vc)[replicaID := Get(old(vc), replicaID) + 1]
      ensures args == PrepareAdd(old(Value()), replicaID, id, score)
    {
      vc := vc[replicaID := Get(vc, replicaID) + 1];
      var localArgs := Elem(id, score, vc[replicaID], replicaID);
      if id in elems && elems[id].score <= score {
        args := DownstreamAdd(localArgs);
      } else if id in elems {
        args := OptDownstreamAdd(localArgs);
      } else {
        if IsHigher(localArgs, smallestScore) {
          args := DownstreamAdd(localArgs);
        } else {
          args := OptDownstreamAdd(localArgs);
        }
      }
    }

    method GetTopKRemoveDownstreamArgs(id: int) returns (args: Update)
      ensures args == PrepareRemove(Value(), id)
    {
      var inElems, inNotTop := id in elems, id in notInTop;
      if !inElems && !inNotTop {
        args := NoOp;
      } else if inElems {
        args := DownstreamRemove(id, vc);
      } else {
        args := OptDownstreamRemove(id, vc);
      }
    }

    method FindAndUpdateMin()
      requires Keyed(elems)
      modifies this`smallestScore
      ensures smallestScore == MinOf(elems) && IsMinOf(elems, smallestScore)
    {
      var minSoFar := ZERO;
      var todo := elems.Keys;
      while todo != {}
        invariant todo <= elems.Keys
        invariant minSoFar == ZERO ==> todo == elems.Keys
        invariant minSoFar != ZERO ==> minSoFar.id in elems && elems[minSoFar.id] == minSoFar
        invariant minSoFar != ZERO ==> forall id :: id in elems && id !in todo && id != minSoFar.id ==> IsHigher(elems[id], minSoFar)
      {
        var id := Pick(todo);
        todo := todo - {id};
        if IsSmaller(elems[id], minSoFar) {
          minSoFar := elems[id];
        }
      }
      MinIsUnique(elems, minSoFar);
      smallestScore := minSoFar;
    }

    method AddToNotInTop(x: Elem)
      modifies this`notInTop
      ensures notInTop == Hide(old(notInTop), x)
    {
      if x.id !in notInTop {
        notInTop := notInTop[x.id := {}];
      }
      notInTop := notInTop[x.id := notInTop[x.id] + {x}];
    }

    /** The branches of applyAdd and of the loop body of applyAddAll for an add that is not suppressed. */
    method Insert(x: Elem)
      requires Valid() && x.ts >= 1
      modifies this`elems, this`smallestScore, this`notInTop
      ensures Valid() && Value() == Inserted(old(Value()), x)
    {
      if x.id in elems {
        var elem := elems[x.id];
        if IsHigher(x, elem) {
          elems := elems[x.id := x];
          if elem.replica != x.replica {
            AddToNotInTop(elem);
          }
          if smallestScore == elem {
            FindAndUpdateMin();
          }
        } else {
          AddToNotInTop(x);
        }
      } else {
        if |elems| < maxElems {
          elems := elems[x.id := x];
          if smallestScore == ZERO || IsHigher(smallestScore, x) {
            smallestScore := x;
          }
        } else if IsHigher(x, smallestScore) {
          AddToNotInTop(smallestScore);
          elems := elems - {smallestScore.id};
          elems := elems[x.id := x];
          FindAndUpdateMin();
        } else {
          AddToNotInTop(x);
        }
      }
    }

    method UpdatePos(x: Elem)
      modifies this`vc
      ensures vc == SeenBy(old(vc), x)
    {
      if Get(vc, x.replica) < x.ts {
        vc := vc[x.replica := x.ts];
      }
    }

    method ApplyAdd(x: Elem) returns (otherDownstreamArgs: Option<Clock>)
      requires Valid() && x.ts >= 1
      modifies this
      ensures Valid() && Value() == Added(old(Value()), x)
      ensures otherDownstreamArgs == Suppressor(old(Value()), x)
    {
      UpdatePos(x);
      if x.id !in rems || Get(rems[x.id], x.replica) < x.ts {
        Insert(x);
        otherDownstreamArgs := None;
      } else {
        otherDownstreamArgs := Some(rems[x.id]);
      }
    }

    /** Drop the hidden adds that the remove has seen. */
    method FilterNotInTop(id: int, remVc: Clock)
      requires Valid()
      modifies this`notInTop
      ensures notInTop == HiddenAfter(old(Value()), id, remVc)
    {
      if id in notInTop {
        ghost var before := notInTop[id];
        var hiddenForId, todo := notInTop[id], notInTop[id];
        while todo != {}
          invariant todo <= before && notInTop == old(notInTop)
          invariant hiddenForId == set x | x in before && (x in todo || x.ts > Get(remVc, x.replica))
        {
          var elem := Pick(todo);
          todo := todo - {elem};
          if elem.ts <= Get(remVc, elem.replica) {
            hiddenForId := hiddenForId - {elem};
          }
        }
        assert hiddenForId == Survivors(old(Value()), id, remVc);
        if hiddenForId == {} {
          notInTop := notInTop - {id};
        } else {
          notInTop := notInTop[id := hiddenForId];
        }
      }
    }

    /** The inner loops that look for an element to promote. */
    method HigherOf(highest: Elem, xs: set<Elem>) returns (h: Elem)
      requires highest == ZERO || highest.ts >= 1
      requires forall x :: x in xs ==> x.ts >= 1
      ensures h == highest || h in xs
      ensures highest != ZERO ==> !IsHigher(highest, h) || h == highest
      ensures forall x :: x in xs ==> h != ZERO && !IsHigher(x, h)
    {
      h := highest;
      var todo := xs;
      while todo != {}
        invariant todo <= xs
        invariant h == highest || h in xs
        invariant highest != ZERO ==> !IsHigher(highest, h) || h == highest
        invariant forall x :: x in xs && x !in todo ==> h != ZERO && !IsHigher(x, h)
      {
        var x := Pick(todo);
        todo := todo - {x};
        if IsHigher(x, h) {
          h := x;
        }
      }
    }

    /** The highest hidden add of an id that is not visible. */
    method HighestCandidate() returns (h: Elem)
      requires KeyedHidden(notInTop)
      ensures IsHighestCandidate(notInTop, elems, h)
    {
      h := ZERO;
      var todo := notInTop.Keys;
      while todo != {}
        invariant todo <= notInTop.Keys
        invariant h != ZERO ==> h.ts >= 1 && IsCandidate(notInTop, elems, h)
        invariant forall x :: IsCandidate(notInTop, elems, x) && x.id !in todo ==> h != ZERO && !IsHigher(x, h)
      {
        var id := Pick(todo);
        todo := todo - {id};
        if id !in elems {
          var best := h;
          h := HigherOf(best, notInTop[id]);
          forall x | IsCandidate(notInTop, elems, x) && x.id !in todo ensures h != ZERO && !IsHigher(x, h) {
            if x.id != id { assert !IsHigher(x, best); }
          }
        }
      }
    }

    method TakeFromNotInTop(x: Elem)
      requires x.id in notInTop
      modifies this`notInTop
      ensures notInTop == Unhide(old(notInTop), x)
    {
      var notTop := notInTop[x.id] - {x};
      if notTop == {} {
        notInTop := notInTop - {x.id};
      } else {
        notInTop := notInTop[x.id := notTop];
      }
    }

    /** After taking elem out of a top that was full: the best hidden add of an invisible id moves up. */
    method PromoteCandidate(elem: Elem) returns (h: Elem)
      requires Keyed(elems) && KeyedHidden(notInTop)
      modifies this`elems, this`notInTop, this`smallestScore
      ensures IsHighestCandidate(old(notInTop), old(elems), h)
      ensures h != ZERO ==> h.id in old(notInTop) && elems == old(elems)[h.id := h] && notInTop == Unhide(old(notInTop), h) && smallestScore == h
      ensures h == ZERO ==> elems == old(elems) && notInTop == old(notInTop)
      ensures h == ZERO ==> smallestScore == if elem == old(smallestScore) then MinOf(elems) else old(smallestScore)
      ensures h == ZERO && elem == old(smallestScore) ==> IsMinOf(elems, smallestScore)
    {
      h := HighestCandidate();
      if h != ZERO {
        elems := elems[h.id := h];
        smallestScore := h;
        TakeFromNotInTop(h);
      } else if elem == smallestScore {
        FindAndUpdateMin();
      }
    }

    /** Otherwise the best hidden add of the same id that the remove has not seen moves up, if any. */
    method PromoteSurvivor(elem: Elem, hiddenForId: set<Elem>) returns (h: Elem)
      requires Keyed(elems)
      requires forall x :: x in hiddenForId ==> x.id in notInTop && x.ts >= 1
      modifies this`elems, this`notInTop, this`smallestScore
      ensures IsHighestIn(hiddenForId, h)
      ensures h != ZERO ==> h.id in old(notInTop) && elems == old(elems)[h.id := h] && notInTop == Unhide(old(notInTop), h)
      ensures h != ZERO ==> smallestScore == if elem == old(smallestScore) then h else old(smallestScore)
      ensures h == ZERO ==> elems == old(elems) && notInTop == old(notInTop)
      ensures h == ZERO ==> smallestScore == if elem == old(smallestScore) then MinOf(elems) else old(smallestScore)
      ensures h == ZERO && elem == old(smallestScore) ==> IsMinOf(elems, smallestScore)
    {
      h := HigherOf(ZERO, hiddenForId);
      if hiddenForId != {} {
        TakeFromNotInTop(h);
        elems := elems[h.id := h];
        if elem == smallestScore {
          smallestScore := h;
        }
      } else if elem == smallestScore {
        FindAndUpdateMin();
      }
    }

    /** The part of applyRemove for a visible add that the remove has seen. */
    method TakeVisible(id: int) returns (h: Elem)
      requires Valid() && id in elems
      modifies this`elems, this`notInTop, this`smallestScore
      ensures Promotes(old(Value()), id, h) && Value() == Taken(old(Value()), id, h)
    {
      var hiddenForId := if id in notInTop then notInTop[id] else {};
      var elem := elems[id];
      elems := elems - {id};
      if |elems| == maxElems - 1 {
        h := PromoteCandidate(elem);
      } else {
        h := PromoteSurvivor(elem, hiddenForId);
      }
    }

    method RecordRemove(id: int, remVc: Clock)
      requires Valid()
      modifies this`rems, this`notInTop
      ensures Valid() && Value() == Recorded(old(Value()), id, remVc)
    {
      rems := rems[id := if id in rems then Merged(rems[id], remVc) else remVc];
      FilterNotInTop(id, remVc);
    }

    method ApplyRemove(id: int, remVc: Clock) returns (otherDownstreamArgs: Option<Elem>, ghost h: Elem)
      requires Valid()
      modifies this
      ensures Valid() && MayPromote(old(Value()), id, remVc, h) && Value() == Removed(old(Value()), id, remVc, h)
      ensures otherDownstreamArgs == if h == ZERO then None else Some(h)
    {
      RecordRemove(id, remVc);
      var promoted := ZERO;
      if id in elems && elems[id].ts <= Get(remVc, elems[id].replica) {
        ghost var s := Value();
        promoted := TakeVisible(id);
        TakenIsWellFormed(s, id, promoted);
      }
      h := promoted;
      otherDownstreamArgs := if promoted == ZERO then None else Some(promoted);
    }

    /** The branches of applyAddAll for an add that is not suppressed, as the batch writes them. */
    method InsertInBatch(newElem: Elem)
      requires Valid() && newElem.ts >= 1
      modifies this`elems, this`smallestScore, this`notInTop
      ensures Valid() && Value() == Inserted(old(Value()), newElem)
    {
      if newElem.id in elems {
        ReplaceInBatch(newElem);
      } else {
        EnterInBatch(newElem);
      }
    }

    method ReplaceInBatch(newElem: Elem)
      requires Valid() && newElem.ts >= 1 && newElem.id in elems
      modifies this`elems, this`smallestScore, this`notInTop
      ensures Valid() && Value() == Inserted(old(Value()), newElem)
    {
      var elem := elems[newElem.id];
      if IsHigher(newElem, elem) {
        elems := elems[newElem.id := newElem];
        if elem.replica != newElem.replica {
          var entry := if newElem.id in notInTop then notInTop[newElem.id] else {};
          notInTop := notInTop[newElem.id := entry + {elem}];
        }
        if smallestScore == elem {
          FindAndUpdateMin();
        }
      } else {
        var entry := if newElem.id in notInTop then notInTop[newElem.id] else {};
        notInTop := notInTop[newElem.id := entry + {newElem}];
      }
    }

    method EnterInBatch(newElem: Elem)
      requires Valid() && newElem.ts >= 1 && newElem.id !in elems
      modifies this`elems, this`smallestScore, this`notInTop
      ensures Valid() && Value() == Inserted(old(Value()), newElem)
    {
      if |elems| < maxElems {
        elems := elems[newElem.id := newElem];
        if smallestScore == ZERO || IsHigher(smallestScore, newElem) {
          smallestScore := newElem;
        }
      } else if IsHigher(newElem, smallestScore) {
        EvictInBatch(newElem);
      } else {
        var entry := if newElem.id in notInTop then notInTop[newElem.id] else {};
        notInTop := notInTop[newElem.id := entry + {newElem}];
      }
    }

    method EvictInBatch(newElem: Elem)
      requires Valid() && newElem.ts >= 1 && newElem.id !in elems && |elems| >= maxElems && IsHigher(newElem, smallestScore)
      modifies this`elems, this`smallestScore, this`notInTop
      ensures Valid() && Value() == Inserted(old(Value()), newElem)
    {
      assert elems != map[] && smallestScore != ZERO;
      var entry := if smallestScore.id in notInTop then notInTop[smallestScore.id] else {};
      notInTop := notInTop[smallestScore.id := entry + {smallestScore}];
      assert notInTop == Hide(old(notInTop), smallestScore);
      KeyedAfterHide(old(notInTop), smallestScore);
      elems := elems - {smallestScore.id};
      elems := elems[newElem.id := newElem];
      FindAndUpdateMin();
      assert newElem.id in elems;
    }

    /** The loop of applyAddAll over its two lists, one after the other.  The list of removes to pass on
        has room for as many as there are adds in the first list; one more is a panic. */
    method ApplyAdds(xs: seq<Elem>, room: nat, ghost s: State) returns (ok: bool, downRemoves: seq<Remove>)
      requires Valid() && OneStamp(xs) && Value() == ClockSeen(s, xs)
      modifies this`elems, this`smallestScore, this`notInTop
      ensures Valid()
      ensures ok <==> |SuppressorsOf(s, xs)| <= room
      ensures ok ==> downRemoves == SuppressorsOf(s, xs) && Value() == AddedAll(ClockSeen(s, xs), xs)
    {
      downRemoves := [];
      for i := 0 to |xs|
        invariant Valid() && Value() == AddedAll(ClockSeen(s, xs), xs[..i])
        invariant downRemoves == SuppressorsOf(s, xs[..i]) && |downRemoves| <= room
      {
        BatchAdd(s, xs, i);
        var newElem := xs[i];
        if newElem.id !in rems || Get(rems[newElem.id], newElem.replica) < newElem.ts {
          InsertInBatch(newElem);
        } else {
          if |downRemoves| == room {
            SuppressorsGrow(s, xs, i + 1);
            return false, downRemoves;
          }
          downRemoves := downRemoves + [Remove(newElem.id, rems[newElem.id])];
        }
      }
      assert xs[..|xs|] == xs;
      ok := true;
    }

    /** A batch of adds does what its adds do one by one and returns the same removes; it fails on an
        empty batch and when too many adds come too late. */
    method ApplyAddAll(downstreamAdds: seq<Elem>, optDownstreamAdds: seq<Elem>) returns (ok: bool, downRemoves: seq<Remove>)
      requires Valid() && OneStamp(downstreamAdds + optDownstreamAdds)
      modifies this
      ensures Valid()
      ensures ok <==> (downstreamAdds + optDownstreamAdds != []
                       && |SuppressorsOf(old(Value()), downstreamAdds + optDownstreamAdds)| <= |downstreamAdds|)
      ensures ok ==> Value() == AddedAll(old(Value()), downstreamAdds + optDownstreamAdds)
      ensures ok ==> downRemoves == SuppressorsOf(old(Value()), downstreamAdds + optDownstreamAdds)
    {
      ghost var s := Value();
      var adds := downstreamAdds + optDownstreamAdds;
      if |adds| == 0 {
        return false, [];
      }
      UpdatePos(adds[0]);
      ok, downRemoves := ApplyAdds(adds, |downstreamAdds|, s);
      ClockSeenFirst(s, adds, |adds|);
      assert adds[..|adds|] == adds;
    }

    /** The first part of a turn of applyRemoveAll: record the remove and drop the hidden adds it has seen. */
    method RecordInBatch(remID: int, remVc: Clock)
      requires Valid()
      modifies this`rems, this`notInTop
      ensures Valid() && Value() == Recorded(old(Value()), remID, remVc)
    {
      if remID !in rems {
        rems := rems[remID := remVc];
      } else {
        rems := rems[remID := Merged(rems[remID], remVc)];
      }
      if remID in notInTop {
        ghost var all := notInTop[remID];
        var hiddenForId, todo := notInTop[remID], notInTop[remID];
        while todo != {}
          invariant todo <= all && notInTop == old(notInTop)
          invariant rems == old(rems)[remID := if remID in old(rems) then Merged(old(rems)[remID], remVc) else remVc]
          invariant hiddenForId == set x | x in all && (x in todo || x.ts > Get(remVc, x.replica))
        {
          var elem := Pick(todo);
          todo := todo - {elem};
          if elem.ts <= Get(remVc, elem.replica) {
            hiddenForId := hiddenForId - {elem};
          }
        }
        assert hiddenForId == Survivors(old(Value()), remID, remVc);
        notInTop := if hiddenForId == {} then notInTop - {remID} else notInTop[remID := hiddenForId];
      }
    }

    /** The second part: the visible add leaves and the best hidden one, if any, takes its place. */
    method TakeInBatch(remID: int) returns (promoted: Elem)
      requires Valid() && remID in elems
      modifies this`elems, this`notInTop, this`smallestScore
      ensures Promotes(old(Value()), remID, promoted) && Value() == Taken(old(Value()), remID, promoted)
    {
      var elem := elems[remID];
      var hiddenForId := if remID in notInTop then notInTop[remID] else {};
      elems := elems - {remID};
      promoted := ZERO;
      if |elems| == maxElems - 1 {
        promoted := ScanInvisible();
        if promoted != ZERO {
          elems := elems[promoted.id := promoted];
          smallestScore := promoted;
          var notTop := notInTop[promoted.id] - {promoted};
          notInTop := if notTop == {} then notInTop - {promoted.id} else notInTop[promoted.id := notTop];
        } else if elem == smallestScore {
          FindAndUpdateMin();
        }
      } else if hiddenForId != {} {
        promoted := ScanHidden(hiddenForId);
        var rest := hiddenForId - {promoted};
        notInTop := if rest == {} then notInTop - {promoted.id} else notInTop[promoted.id := rest];
        elems := elems[promoted.id := promoted];
        if elem == smallestScore {
          smallestScore := promoted;
        }
      } else if elem == smallestScore {
        FindAndUpdateMin();
      }
    }

    /** The nested scan of the batch over all hidden adds of ids that are not visible. */
    method ScanInvisible() returns (highestElem: Elem)
      requires KeyedHidden(notInTop)
      ensures IsHighestCandidate(notInTop, elems, highestElem)
    {
      highestElem := ZERO;
      var ids := notInTop.Keys;
      while ids != {}
        invariant ids <= notInTop.Keys
        invariant highestElem != ZERO ==> highestElem.ts >= 1 && IsCandidate(notInTop, elems, highestElem)
        invariant forall x :: IsCandidate(notInTop, elems, x) && x.id !in ids ==> highestElem != ZERO && !IsHigher(x, highestElem)
      {
        var id := Pick(ids);
        if id !in elems {
          var setElems := notInTop[id];
          while setElems != {}
            invariant setElems <= notInTop[id]
            invariant highestElem != ZERO ==> highestElem.ts >= 1 && IsCandidate(notInTop, elems, highestElem)
            invariant forall x :: IsCandidate(notInTop, elems, x) && (x.id !in ids || (x.id == id && x !in setElems)) ==>
              highestElem != ZERO && !IsHigher(x, highestElem)
          {
            var elemNotTop := Pick(setElems);
            setElems := setElems - {elemNotTop};
            if IsHigher(elemNotTop, highestElem) {
              highestElem := elemNotTop;
            }
          }
        }
        ids := ids - {id};
      }
    }

    /** The scan of the batch over the hidden adds of one id. */
    method ScanHidden(hiddenForId: set<Elem>) returns (highest: Elem)
      requires hiddenForId != {} && forall x :: x in hiddenForId ==> x.ts >= 1
      ensures IsHighestIn(hiddenForId, highest)
    {
      highest := ZERO;
      var todo := hiddenForId;
      while todo != {}
        invariant todo <= hiddenForId
        invariant if highest == ZERO then todo == hiddenForId else highest in hiddenForId
        invariant forall x :: x in hiddenForId && x !in todo ==> !IsHigher(x, highest)
      {
        var elemNotTop := Pick(todo);
        todo := todo - {elemNotTop};
        if IsHigher(elemNotTop, highest) {
          highest := elemNotTop;
        }
      }
    }

    method RemoveInBatch(remID: int, remVc: Clock) returns (promoted: Elem)
      requires Valid()
      modifies this
      ensures Valid() && MayPromote(old(Value()), remID, remVc, promoted) && Value() == Removed(old(Value()), remID, remVc, promoted)
    {
      RecordInBatch(remID, remVc);
      promoted := ZERO;
      if remID in elems && elems[remID].ts <= Get(remVc, elems[remID].replica) {
        ghost var recorded := Value();
        promoted := TakeInBatch(remID);
        TakenIsWellFormed(recorded, remID, promoted);
      }
    }

    /** One of the two passes of applyRemoveAll. */
    method ApplyRemoves(rs: seq<Remove>) returns (downAdds: seq<Elem>, ghost hs: seq<Elem>)
      requires Valid()
      modifies this
      ensures Valid() && |hs| == |rs| && downAdds == NotZero(hs)
      ensures MayPromoteAll(old(Value()), rs, hs) && Value() == RemovedAll(old(Value()), rs, hs)
    {
      downAdds, hs := [], [];
      for j := 0 to |rs|
        invariant Valid() && |hs| == j && downAdds == NotZero(hs)
        invariant MayPromoteAll(old(Value()), rs[..j], hs) && Value() == RemovedAll(old(Value()), rs[..j], hs)
      {
        var promoted := RemoveInBatch(rs[j].id, rs[j].vc);
        RemoveOneMore(old(Value()), rs, j, hs, promoted);
        if promoted != ZERO {
          downAdds := downAdds + [promoted];
        }
        hs := hs + [promoted];
      }
      assert rs[..|rs|] == rs;
    }

    /** A batch of removes does what its removes do one by one, and returns the promoted adds in order. */
    method ApplyRemoveAll(downRems: seq<int>, optDownRems: seq<int>, vcs: seq<Clock>)
      returns (downAdds: seq<Elem>, ghost hs: seq<Elem>)
      requires Valid() && vcs != []
      modifies this
      ensures Valid() && |hs| == |downRems| + |optDownRems|
      ensures MayPromoteAll(old(Value()), RemovesOf(downRems, vcs) + RemovesOf(optDownRems, vcs), hs)
      ensures Value() == RemovedAll(old(Value()), RemovesOf(downRems, vcs) + RemovesOf(optDownRems, vcs), hs)
      ensures downAdds == NotZero(hs)
    {
      ghost var s := Value();
      ghost var hs1, hs2;
      var more;
      downAdds, hs1 := ApplyRemoves(RemovesOf(downRems, vcs));
      more, hs2 := ApplyRemoves(RemovesOf(optDownRems, vcs));
      RemovesConcat(s, RemovesOf(downRems, vcs), hs1, RemovesOf(optDownRems, vcs), hs2);
      downAdds, hs := downAdds + more, hs1 + hs2;
    }
  }

  lemma KeyedAfterHide(hidden: Hidden, x: Elem)
    requires KeyedHidden(hidden) && x.ts >= 1
    ensures KeyedHidden(Hide(hidden, x))
  {
  }

  lemma {:induction false} SuppressorsGrow(s: State, xs: seq<Elem>, n: nat)
    requires n <= |xs|
    ensures |SuppressorsOf(s, xs[..n])| <= |SuppressorsOf(s, xs)|
    decreases |xs| - n
  {
    if n < |xs| {
      SuppressorsGrow(s, xs, n + 1);
      assert xs[..n + 1][..n] == xs[..n];
    } else {
      assert xs[..n] == xs;
    }
  }

  lemma RemoveOneMore(s: State, rs: seq<Remove>, j: nat, hs: seq<Elem>, h: Elem)
    requires j < |rs| && |hs| == j
    ensures RemovedAll(s, rs[..j + 1], hs + [h]) == Removed(RemovedAll(s, rs[..j], hs), rs[j].id, rs[j].vc, h)
    ensures MayPromoteAll(s, rs[..j + 1], hs + [h])
       <==> MayPromoteAll(s, rs[..j], hs) && MayPromote(RemovedAll(s, rs[..j], hs), rs[j].id, rs[j].vc, h)
    ensures NotZero(hs + [h]) == NotZero(hs) + (if h == ZERO then [] else [h])
  {
    assert rs[..j + 1] == rs[..j] + [rs[j]];
    RemovedSnoc(s, rs[..j], hs, rs[j], h);
    PromoteSnoc(s, rs[..j], hs, rs[j], h);
    assert rs[..j + 1][..j] == rs[..j] && (hs + [h])[..j] == hs;
  }

  lemma RemovesConcat(s: State, rs1: seq<Remove>, hs1: seq<Elem>, rs2: seq<Remove>, hs2: seq<Elem>)
    requires |rs1| == |hs1| && |rs2| == |hs2|
    ensures RemovedAll(s, rs1 + rs2, hs1 + hs2) == RemovedAll(RemovedAll(s, rs1, hs1), rs2, hs2)
    ensures MayPromoteAll(s, rs1 + rs2, hs1 + hs2) <==> MayPromoteAll(s, rs1, hs1) && MayPromoteAll(RemovedAll(s, rs1, hs1), rs2, hs2)
    ensures NotZero(hs1 + hs2) == NotZero(hs1) + NotZero(hs2)
  {
    RemovedConcat(s, rs1, hs1, rs2, hs2);
    PromoteConcat(s, rs1, hs1, rs2, hs2);
    NotZeroConcat(hs1, hs2);
  }

  lemma {:induction false} NotZeroConcat(hs1: seq<Elem>, hs2: seq<Elem>)
    ensures NotZero(hs1 + hs2) == NotZero(hs1) + NotZero(hs2)
    decreases |hs2|
  {
    if hs2 == [] {
      assert hs1 + hs2 == hs1;
    } else {
      NotZeroConcat(hs1, hs2[..|hs2| - 1]);
      assert (hs1 + hs2)[..|hs1 + hs2| - 1] == hs1 + hs2[..|hs2| - 1];
    }
  }

  lemma RemovedSnoc(s: State, rs: seq<Remove>, hs: seq<Elem>, r: Remove, h: Elem)
    requires |rs| == |hs|
    ensures RemovedAll(s, rs + [r], hs + [h]) == Removed(RemovedAll(s, rs, hs), r.id, r.vc, h)
  {
    assert (rs + [r])[..|rs|] == rs && (hs + [h])[..|hs|] == hs;
  }

  lemma {:induction false} RemovedConcat(s: State, rs1: seq<Remove>, hs1: seq<Elem>, rs2: seq<Remove>, hs2: seq<Elem>)
    requires |rs1| == |hs1| && |rs2| == |hs2|
    ensures RemovedAll(s, rs1 + rs2, hs1 + hs2) == RemovedAll(RemovedAll(s, rs1, hs1), rs2, hs2)
    decreases |rs2|
  {
    if rs2 == [] {
      assert rs1 + rs2 == rs1 && hs1 + hs2 == hs1;
    } else {
      var n := |rs2| - 1;
      var rs, hs, r, h := rs2[..n], hs2[..n], rs2[n], hs2[n];
      assert rs2 == rs + [r] && hs2 == hs + [h];
      RemovedConcat(s, rs1, hs1, rs, hs);
      RemovedConcatSnoc(s, rs1, hs1, rs, hs, r, h);
    }
  }

  lemma RemovedConcatSnoc(s: State, rs1: seq<Remove>, hs1: seq<Elem>, rs: seq<Remove>, hs: seq<Elem>, r: Remove, h: Elem)
    requires |rs1| == |hs1| && |rs| == |hs|
    requires RemovedAll(s, rs1 + rs, hs1 + hs) == RemovedAll(RemovedAll(s, rs1, hs1), rs, hs)
    ensures RemovedAll(s, rs1 + (rs + [r]), hs1 + (hs + [h])) == RemovedAll(RemovedAll(s, rs1, hs1), rs + [r], hs + [h])
  {
    assert rs1 + (rs + [r]) == (rs1 + rs) + [r] && hs1 + (hs + [h]) == (hs1 + hs) + [h];
    RemovedSnoc(s, rs1 + rs, hs1 + hs, r, h);
    RemovedSnoc(RemovedAll(s, rs1, hs1), rs, hs, r, h);
  }

  lemma PromoteSnoc(s: State, rs: seq<Remove>, hs: seq<Elem>, r: Remove, h: Elem)
    requires |rs| == |hs|
    ensures MayPromoteAll(s, rs + [r], hs + [h]) <==> MayPromoteAll(s, rs, hs) && MayPromote(RemovedAll(s, rs, hs), r.id, r.vc, h)
  {
    assert (rs + [r])[..|rs|] == rs && (hs + [h])[..|hs|] == hs;
  }

  lemma {:induction false} PromoteConcat(s: State, rs1: seq<Remove>, hs1: seq<Elem>, rs2: seq<Remove>, hs2: seq<Elem>)
    requires |rs1| == |hs1| && |rs2| == |hs2|
    ensures MayPromoteAll(s, rs1 + rs2, hs1 + hs2) <==> MayPromoteAll(s, rs1, hs1) && MayPromoteAll(RemovedAll(s, rs1, hs1), rs2, hs2)
    decreases |rs2|
  {
    if rs2 == [] {
      assert rs1 + rs2 == rs1 && hs1 + hs2 == hs1;
    } else {
      var n := |rs2| - 1;
      var rs, hs, r, h := rs2[..n], hs2[..n], rs2[n], hs2[n];
      assert rs2 == rs + [r] && hs2 == hs + [h];
      PromoteConcat(s, rs1, hs1, rs, hs);
      PromoteConcatSnoc(s, rs1, hs1, rs, hs, r, h);
    }
  }

  lemma PromoteConcatSnoc(s: State, rs1: seq<Remove>, hs1: seq<Elem>, rs: seq<Remove>, hs: seq<Elem>, r: Remove, h: Elem)
    requires |rs1| == |hs1| && |rs| == |hs|
    requires MayPromoteAll(s, rs1 + rs, hs1 + hs) <==> MayPromoteAll(s, rs1, hs1) && MayPromoteAll(RemovedAll(s, rs1, hs1), rs, hs)
    ensures MayPromoteAll(s, rs1 + (rs + [r]), hs1 + (hs + [h]))
       <==> MayPromoteAll(s, rs1, hs1) && MayPromoteAll(RemovedAll(s, rs1, hs1), rs + [r], hs + [h])
  {
    assert rs1 + (rs + [r]) == (rs1 + rs) + [r] && hs1 + (hs + [h]) == (hs1 + hs) + [h];
    PromoteSnoc(s, rs1 + rs, hs1 + hs, r, h);
    PromoteSnoc(RemovedAll(s, rs1, hs1), rs, hs, r, h);
    RemovedConcat(s, rs1, hs1, rs, hs);
  }

  lemma TakenIsWellFormed(s: State, id: int, h: Elem)
    requires WellFormed(s) && id in s.elems && Promotes(s, id, h)
    ensures WellFormed(Taken(s, id, h))
  {
    if h == ZERO {
      MinExists(s.elems - {id});
    } else {
      assert h in HiddenOf(s.hidden, h.id);
    }
  }

  /** A top that stores its elements under their ids has a smallest element, and only one. */
  lemma {:induction false} MinExists(elems: Elems)
    requires Keyed(elems)
    ensures IsMinOf(elems, MinOf(elems))
    decreases |elems|
  {
    if elems == map[] {
      assert IsMinOf(elems, ZERO);
    } else {
      var id := SomeKey(elems);
      var rest := elems - {id};
      assert |rest| < |elems| by { assert rest.Keys == elems.Keys - {id}; assert |rest.Keys| < |elems.Keys|; }
      MinExists(rest);
      var m := MinOf(rest);
      forall j | j in elems && j != id ensures j in rest && (j == m.id || IsHigher(elems[j], m)) {
        assert rest[j] == elems[j];
      }
      if rest == map[] || IsHigher(m, elems[id]) {
        assert IsMinOf(elems, elems[id]);
      } else {
        assert IsMinOf(elems, m);
      }
    }
  }

  lemma SomeKey<K, V>(m: map<K, V>) returns (k: K)
    requires m != map[]
    ensures k in m
  {
    k :| k in m;
  }
}
