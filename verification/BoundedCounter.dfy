/** The bounded counter of crdt/crdt/boundedCounter.go: an escrow counter whose value may not
    fall below a limit.  Every replica keeps a map of rights (`permissions`); a decrement or a
    transfer must be paid from the rights of the replica that issued it.

    `BC` is the value of one replica, `Prepare` and `Apply` are the two steps as functions on
    it, and the class `BoundedCounterCrdt` is the object that changes its fields in place;
    each of its methods is proved against those functions. */
module BoundedCounter {
  import opened GoMaps
  import opened Options

  datatype Upd =
    | Increment(change: int)
    | Decrement(change: int)
    | SetCounterBound(bound: int, compEq: bool, initialValue: int)
    | TransferCounter(toTransfer: int, fromID: int, toID: int)

  datatype Op =
    | DownInc(change: int, replicaID: int)
    | DownDec(change: int, replicaID: int)
    | DownInit(bound: int, compEq: bool, initialValue: int)
    | DownTransfer(toTransfer: int, fromID: int, toID: int)

  datatype BC = BC(self: int, perms: map<int, int>, limit: int, value: int)

  /** The ids of the replicas in the order of GetSortedKeys. */
  ghost predicate SortedIds(ids: seq<int>) {
    |ids| > 0 && forall i, j :: 0 <= i < j < |ids| ==> ids[i] < ids[j]
  }

  function Initial(ids: seq<int>, self: int): BC {
    BC(self, map id | id in ids :: 0, 0, 0)
  }

  /** What replica number j receives: the even split, and one more while the remainder lasts. */
  function Share(split: int, rest: int, j: int): int {
    split + (if j < rest then 1 else 0)
  }

  /** The rights after the first k replicas, in id order, have received their share. */
  function Spread(perms: map<int, int>, ids: seq<int>, split: int, rest: int, k: nat): map<int, int>
    requires k <= |ids|
  {
    if k == 0 then perms
    else
      var before := Spread(perms, ids, split, rest, k - 1);
      before[ids[k - 1] := Get(before, ids[k - 1]) + Share(split, rest, k - 1)]
  }

  /** Split `diff` rights between all the replicas. */
  function SplitRights(perms: map<int, int>, ids: seq<int>, diff: int): map<int, int>
    requires |ids| > 0
  {
    Spread(perms, ids, Quo(diff, |ids|), Rem(diff, |ids|), |ids|)
  }

  /** The guards of decrement and transfer: the value they leave in ToReplicate. */
  predicate Accepted(s: BC, op: Op) {
    match op
    case DownDec(c, id) => c <= Get(s.perms, id)
    case DownTransfer(t, from, to) => from != s.self || t <= Quo(Get(s.perms, from), 2)
    case _ => true
  }

  function Apply(ids: seq<int>, s: BC, op: Op): BC
    requires |ids| > 0
  {
    match op
    case DownInc(c, id) =>
      s.(perms := s.perms[id := Get(s.perms, id) + c], value := s.value + c)
    case DownDec(c, id) =>
      if !Accepted(s, op) then s
      else s.(perms := s.perms[id := Get(s.perms, id) - c], value := s.value - c)
    case DownInit(b, eq, v) =>
      s.(perms := SplitRights(s.perms, ids, v - b), limit := if eq then b else b + 1, value := v)
    case DownTransfer(t, from, to) =>
      if !Accepted(s, op) then s
      else
        var paid := s.perms[from := Get(s.perms, from) - t];
        s.(perms := paid[to := Get(paid, to) + t])
  }

  /** Update: translate the request; too large a transfer becomes a NoOp. */
  function Translate(s: BC, upd: Upd): Option<Op> {
    match upd
    case Increment(c) => Some(DownInc(c, s.self))
    case Decrement(c) => Some(DownDec(c, s.self))
    case SetCounterBound(b, eq, v) => Some(DownInit(b, eq, v))
    case TransferCounter(t, from, to) =>
      if t > Quo(Get(s.perms, s.self), 2) then None else Some(DownTransfer(t, from, to))
  }

  /** Update followed by the source's own application: an operation that clears ToReplicate at
      its source is not sent. */
  function Prepare(s: BC, upd: Upd): Option<Op> {
    match Translate(s, upd)
    case None => None
    case Some(op) => if Accepted(s, op) then Some(op) else None
  }

  /** Rights are backed by the distance to `floor`. */
  ghost predicate Balanced(s: BC, floor: int) {
    Sum(s.perms) == s.value - floor
  }

  // ---------------------------------------------------------------- what a request does

  /** The counter after a request was prepared and, unless refused, applied. */
  function Requested(ids: seq<int>, s: BC, upd: Upd): BC
    requires |ids| > 0
  {
    var op := Prepare(s, upd);
    if op.Some? then Apply(ids, s, op.value) else s
  }

  /** An increment is never refused: the value and the replica's own right grow by it. */
  lemma IncrementRequest(ids: seq<int>, s: BC, c: int)
    requires |ids| > 0
    ensures var s' := Requested(ids, s, Increment(c));
            && Prepare(s, Increment(c)).Some?
            && s'.value == s.value + c && s'.limit == s.limit && s'.self == s.self
            && forall x :: Get(s'.perms, x) == Get(s.perms, x) + if x == s.self then c else 0
  {
  }

  /** A decrement is refused exactly if the replica's own right does not cover it; otherwise the value and
      that right shrink by it. */
  lemma DecrementRequest(ids: seq<int>, s: BC, c: int)
    requires |ids| > 0
    ensures var s', refused := Requested(ids, s, Decrement(c)), c > Get(s.perms, s.self);
            && (Prepare(s, Decrement(c)).None? <==> refused)
            && (refused ==> s' == s)
            && (!refused ==> s'.value == s.value - c && s'.limit == s.limit && s'.self == s.self)
            && (!refused ==> forall x :: Get(s'.perms, x) == Get(s.perms, x) - if x == s.self then c else 0)
  {
  }

  /** Setting the bound sets value and limit, and hands every replica its share of the difference. */
  lemma SetBoundRequest(ids: seq<int>, s: BC, b: int, eq: bool, v: int)
    requires SortedIds(ids)
    ensures var s' := Requested(ids, s, SetCounterBound(b, eq, v));
            && Prepare(s, SetCounterBound(b, eq, v)).Some?
            && s'.value == v && s'.limit == (if eq then b else b + 1) && s'.self == s.self
            && (forall x :: x !in ids ==> Get(s'.perms, x) == Get(s.perms, x))
            && forall j :: 0 <= j < |ids| ==>
                 Get(s'.perms, ids[j]) == Get(s.perms, ids[j]) + Quo(v - b, |ids|) + if j < Rem(v - b, |ids|) then 1 else 0
  {
    forall x | x !in ids ensures Get(SplitRights(s.perms, ids, v - b), x) == Get(s.perms, x) {
      SplitIsFair(s.perms, ids, v - b, x);
    }
    forall j | 0 <= j < |ids|
      ensures Get(SplitRights(s.perms, ids, v - b), ids[j])
           == Get(s.perms, ids[j]) + Quo(v - b, |ids|) + if j < Rem(v - b, |ids|) then 1 else 0
    {
      SplitIsFair(s.perms, ids, v - b, ids[j]);
      ReceivedAt(ids, Quo(v - b, |ids|), Rem(v - b, |ids|), |ids|, j);
    }
  }

  /** A transfer is refused exactly if it exceeds half of the requester's own rights, whoever gives; otherwise
      it moves rights from one id to the other and changes nothing else. */
  lemma TransferRequest(ids: seq<int>, s: BC, t: int, from: int, to: int)
    requires |ids| > 0
    ensures var s', refused := Requested(ids, s, TransferCounter(t, from, to)), t > Quo(Get(s.perms, s.self), 2);
            && (Prepare(s, TransferCounter(t, from, to)).None? <==> refused)
            && (refused ==> s' == s)
            && (!refused ==> s'.value == s.value && s'.limit == s.limit && s'.self == s.self)
            && (!refused ==> forall x ::
                  Get(s'.perms, x) == Get(s.perms, x) - (if x == from then t else 0) + (if x == to then t else 0))
  {
  }

  // ---------------------------------------------------------------- splitting the initial rights

  /** What the first k shares add to the rights of x. */
  function Received(ids: seq<int>, split: int, rest: int, k: nat, x: int): int
    requires k <= |ids|
  {
    if k == 0 then 0
    else Received(ids, split, rest, k - 1, x) + if ids[k - 1] == x then Share(split, rest, k - 1) else 0
  }

  lemma {:induction false} SpreadAt(perms: map<int, int>, ids: seq<int>, split: int, rest: int, k: nat, x: int)
    requires k <= |ids|
    ensures Get(Spread(perms, ids, split, rest, k), x) == Get(perms, x) + Received(ids, split, rest, k, x)
    ensures x in Spread(perms, ids, split, rest, k) <==> x in perms || x in ids[..k]
  {
    if k > 0 {
      SpreadAt(perms, ids, split, rest, k - 1, x);
      assert ids[..k] == ids[..k - 1] + [ids[k - 1]];
    }
  }

  /** With distinct ids everyone receives one share, and strangers none. */
  lemma {:induction false} ReceivedOnce(ids: seq<int>, split: int, rest: int, k: nat, x: int)
    requires k <= |ids| && SortedIds(ids)
    ensures x !in ids[..k] ==> Received(ids, split, rest, k, x) == 0
    ensures x in ids[..k] ==> split <= Received(ids, split, rest, k, x) <= split + 1
  {
    if k > 0 {
      ReceivedOnce(ids, split, rest, k - 1, x);
      assert ids[..k] == ids[..k - 1] + [ids[k - 1]];
      assert ids[k - 1] !in ids[..k - 1];
    }
  }

  lemma {:induction false} ReceivedAt(ids: seq<int>, split: int, rest: int, k: nat, j: nat)
    requires SortedIds(ids) && j < k <= |ids|
    ensures Received(ids, split, rest, k, ids[j]) == Share(split, rest, j)
  {
    if j == k - 1 {
      ReceivedOnce(ids, split, rest, k - 1, ids[j]);
      assert ids[j] !in ids[..k - 1];
    } else {
      ReceivedAt(ids, split, rest, k - 1, j);
    }
  }

  function Given(split: int, rest: int, k: nat): int {
    if k == 0 then 0 else Given(split, rest, k - 1) + Share(split, rest, k - 1)
  }

  lemma {:induction false} GivenClosed(split: int, rest: int, k: nat)
    ensures Given(split, rest, k) == k * split + (if rest < 0 then 0 else if k < rest then k else rest)
  {
    if k > 0 {
      GivenClosed(split, rest, k - 1);
      assert k * split == (k - 1) * split + split;
    }
  }

  lemma {:induction false} SpreadSum(perms: map<int, int>, ids: seq<int>, split: int, rest: int, k: nat)
    requires k <= |ids|
    ensures Sum(Spread(perms, ids, split, rest, k)) == Sum(perms) + Given(split, rest, k)
  {
    if k > 0 {
      SpreadSum(perms, ids, split, rest, k - 1);
      var before := Spread(perms, ids, split, rest, k - 1);
      SumUpdate(before, ids[k - 1], Get(before, ids[k - 1]) + Share(split, rest, k - 1));
    }
  }

  /** What the two loops of counterInitOp hand out beyond `diff`: a negative remainder is not taken back. */
  function Surplus(ids: seq<int>, diff: int): int
    requires |ids| > 0
  {
    if Rem(diff, |ids|) < 0 then -Rem(diff, |ids|) else 0
  }

  lemma SplitGives(perms: map<int, int>, ids: seq<int>, diff: int)
    requires |ids| > 0
    ensures Sum(SplitRights(perms, ids, diff)) == Sum(perms) + diff + Surplus(ids, diff)
    ensures Surplus(ids, diff) >= 0 && (diff >= 0 ==> Surplus(ids, diff) == 0)
  {
    QuoRem(diff, |ids|);
    GivenClosed(Quo(diff, |ids|), Rem(diff, |ids|), |ids|);
    SpreadSum(perms, ids, Quo(diff, |ids|), Rem(diff, |ids|), |ids|);
  }

  /** The two loops hand out exactly `diff` rights if and only if diff is not negative or divides evenly. */
  lemma SplitIsExact(perms: map<int, int>, ids: seq<int>, diff: int)
    requires |ids| > 0
    ensures Sum(SplitRights(perms, ids, diff)) == Sum(perms) + diff <==> diff >= 0 || Rem(diff, |ids|) == 0
  {
    QuoRem(diff, |ids|);
    SplitGives(perms, ids, diff);
  }

  /** The part of the initial rights that replica x receives. */
  ghost function ShareOf(ids: seq<int>, diff: int, x: int): int
    requires |ids| > 0
  {
    Received(ids, Quo(diff, |ids|), Rem(diff, |ids|), |ids|, x)
  }

  /** Splitting adds each replica's share to what it had and gives nobody else anything; the share
      is the even one or one more, and so not negative when diff is not. */
  lemma SplitIsFair(perms: map<int, int>, ids: seq<int>, diff: int, x: int)
    requires SortedIds(ids)
    ensures Get(SplitRights(perms, ids, diff), x) == Get(perms, x) + ShareOf(ids, diff, x)
    ensures x in SplitRights(perms, ids, diff) <==> x in perms || x in ids
    ensures x !in ids ==> ShareOf(ids, diff, x) == 0
    ensures x in ids ==> Quo(diff, |ids|) <= ShareOf(ids, diff, x) <= Quo(diff, |ids|) + 1
    ensures diff >= 0 ==> ShareOf(ids, diff, x) >= 0
  {
    QuoRem(diff, |ids|);
    SpreadAt(perms, ids, Quo(diff, |ids|), Rem(diff, |ids|), |ids|, x);
    ReceivedOnce(ids, Quo(diff, |ids|), Rem(diff, |ids|), |ids|, x);
    assert ids[..|ids|] == ids;
  }

  /** SetCounterBound leaves the rights backed by the distance to the new limit exactly when the rights held
      before, the surplus of an infeasible initial value, and one for a strict bound add up to zero: the
      limit of a strict bound is raised after the rights were split, and an increment applied before the
      bound is set keeps its right but loses its value. */
  lemma InitBalances(ids: seq<int>, s: BC, b: int, eq: bool, v: int)
    requires |ids| > 0
    ensures var s' := Apply(ids, s, DownInit(b, eq, v));
            && (Balanced(s', s'.limit) <==> Sum(s.perms) + Surplus(ids, v - b) + (if eq then 0 else 1) == 0)
            && (Balanced(s', b) <==> Sum(s.perms) + Surplus(ids, v - b) == 0)
  {
    SplitGives(s.perms, ids, v - b);
  }

  /** Conservation: every operation but SetCounterBound keeps the rights backed, accepted or not. */
  lemma ApplyConserves(ids: seq<int>, s: BC, op: Op, floor: int)
    requires |ids| > 0 && !op.DownInit?
    ensures Balanced(Apply(ids, s, op), floor) <==> Balanced(s, floor)
    ensures Apply(ids, s, op).limit == s.limit && Apply(ids, s, op).self == s.self
  {
    match op
    case DownInc(c, id) => SumUpdate(s.perms, id, Get(s.perms, id) + c);
    case DownDec(c, id) => SumUpdate(s.perms, id, Get(s.perms, id) - c);
    case DownTransfer(t, from, to) =>
      var paid := s.perms[from := Get(s.perms, from) - t];
      SumUpdate(s.perms, from, Get(s.perms, from) - t);
      SumUpdate(paid, to, Get(paid, to) + t);
  }

  // ---------------------------------------------------------------- the object

  class BoundedCounterCrdt {
    const ids: seq<int>
    const replicaID: int
    var permissions: map<int, int>
    var limit: int
    var value: int

    ghost predicate Valid()
      reads this
    {
      SortedIds(ids)
    }

    function State(): BC
      reads this
    {
      BC(replicaID, permissions, limit, value)
    }

    constructor (known: seq<int>, self: int)
      requires SortedIds(known)
      ensures Valid() && State() == Initial(known, self) && ids == known
    {
      ids, replicaID := known, self;
      permissions := map id | id in known :: 0;
      limit, value := 0, 0;
    }

    method Update(args: Upd) returns (down: Option<Op>)
      ensures down == Translate(State(), args)
    {
      match args
      case Increment(c) => down := Some(DownInc(c, replicaID));
      case Decrement(c) => down := Some(DownDec(c, replicaID));
      case SetCounterBound(b, eq, v) => down := Some(DownInit(b, eq, v));
      case TransferCounter(t, from, to) =>
        if t > Quo(Get(permissions, replicaID), 2) {
          return None;
        }
        down := Some(DownTransfer(t, from, to));
    }

    method ApplyIncrement(change: int, id: int)
      requires Valid()
      modifies this
      ensures State() == Apply(ids, old(State()), DownInc(change, id))
    {
      permissions := permissions[id := Get(permissions, id) + change];
      value := value + change;
    }

    method ApplyDecrement(change: int, id: int) returns (toReplicate: bool)
      requires Valid()
      modifies this
      ensures toReplicate == Accepted(old(State()), DownDec(change, id))
      ensures State() == Apply(ids, old(State()), DownDec(change, id))
    {
      if change > Get(permissions, id) {
        toReplicate := false;
      } else {
        toReplicate := true;
        permissions := permissions[id := Get(permissions, id) - change];
        value := value - change;
      }
    }

    method CounterInitOp(bound: int, compEq: bool, initialValue: int)
      requires Valid()
      modifies this
      ensures State() == Apply(ids, old(State()), DownInit(bound, compEq, initialValue))
    {
      limit := bound;
      value := initialValue;
      if !compEq {
        limit := limit + 1;
      }
      var n := |ids|;
      var diff := initialValue - bound;
      var splitValue, remaining := Quo(diff, n), Rem(diff, n);
      QuoRem(diff, n);
      var bonus := if remaining < 0 then 0 else remaining;
      GiveEach(0, bonus, splitValue + 1, splitValue, remaining, permissions);
      GiveEach(bonus, n, splitValue, splitValue, remaining, old(permissions));
    }

    /** One of the two loops: the same share for the replicas from number `from` to `to`. */
    method GiveEach(from: nat, to: nat, share: int, ghost split: int, ghost rest: int, ghost before: map<int, int>)
      requires Valid() && from <= to <= |ids| && permissions == Spread(before, ids, split, rest, from)
      requires forall j :: from <= j < to ==> share == Share(split, rest, j)
      modifies `permissions
      ensures permissions == Spread(before, ids, split, rest, to)
    {
      var i := from;
      while i < to
        invariant from <= i <= to
        invariant permissions == Spread(before, ids, split, rest, i)
      {
        permissions := permissions[ids[i] := Get(permissions, ids[i]) + share];
        i := i + 1;
      }
    }

    method ApplyTransfer(toTransfer: int, fromID: int, toID: int) returns (toReplicate: bool)
      requires Valid()
      modifies this
      ensures toReplicate == Accepted(old(State()), DownTransfer(toTransfer, fromID, toID))
      ensures State() == Apply(ids, old(State()), DownTransfer(toTransfer, fromID, toID))
    {
      if fromID == replicaID && toTransfer > Quo(Get(permissions, fromID), 2) {
        toReplicate := false;
      } else {
        toReplicate := true;
        permissions := permissions[fromID := Get(permissions, fromID) - toTransfer];
        permissions := permissions[toID := Get(permissions, toID) + toTransfer];
      }
    }

    /** Ask the replica with the most rights for more, in any order of the map. */
    method RequestTransfer() returns (toAsk: int, askID: int)
      requires |permissions| > 0
      ensures Asked(State(), toAsk, askID)
    {
      if Get(permissions, replicaID) < Quo(Quo(value, |permissions|), 2) {
        var maxID := FindRichest();
        var own := Get(permissions, replicaID);
        var gap, missing := Quo(Get(permissions, maxID) - own, 2), value - own;
        return if gap < missing then gap else missing, maxID;
      }
      return -1, -1;
    }

    method FindRichest() returns (maxID: int)
      ensures Richest(State(), maxID)
    {
      var maxP := 0;
      maxID := 0;
      var todo := permissions.Keys;
      while todo != {}
        invariant todo <= permissions.Keys
        invariant forall k :: k in permissions.Keys - todo ==> permissions[k] <= maxP
        invariant if maxP == 0 then maxID == 0 else maxP > 0 && maxID in permissions && permissions[maxID] == maxP
      {
        var id := Pick(todo);
        todo := todo - {id};
        if permissions[id] > maxP {
          maxP, maxID := permissions[id], id;
        }
      }
    }
  }

  ghost predicate Poor(s: BC)
    requires |s.perms| > 0
  {
    Get(s.perms, s.self) < Quo(Quo(s.value, |s.perms|), 2)
  }

  /** askID holds the most rights, or nobody holds any and the zero id stands for "nobody". */
  ghost predicate Richest(s: BC, askID: int) {
    && (forall k :: k in s.perms ==> s.perms[k] <= Get(s.perms, askID) || s.perms[k] <= 0)
    && ((askID in s.perms && s.perms[askID] > 0) || (askID == 0 && forall k :: k in s.perms ==> s.perms[k] <= 0))
  }

  ghost predicate Asked(s: BC, toAsk: int, askID: int)
    requires |s.perms| > 0
  {
    if Poor(s) then
      && Richest(s, askID)
      && var own := Get(s.perms, s.self);
         var gap := Quo(Get(s.perms, askID) - own, 2);
         toAsk == if gap < s.value - own then gap else s.value - own
    else toAsk == -1 && askID == -1
  }

  /** With rights that are not negative, a request asks for at least one right exactly when some
      replica holds two more rights than the asker, and then it names another replica, takes at
      most half of its rights and leaves it at least as well off as the asker. */
  lemma RequestIsFair(s: BC, toAsk: int, askID: int)
    requires |s.perms| > 0 && (forall k :: k in s.perms ==> s.perms[k] >= 0)
    requires Poor(s) && Asked(s, toAsk, askID)
    ensures var own := Get(s.perms, s.self);
            && (toAsk >= 1 <==> exists k :: k in s.perms && s.perms[k] >= own + 2)
            && (toAsk >= 1 ==>
                  && askID != s.self && askID in s.perms
                  && toAsk <= Quo(s.perms[askID], 2) && s.perms[askID] - toAsk >= own + toAsk)
  {
    PoorOwnsLess(s);
  }

  /** When rights are asked for: with a value that is not negative, exactly if two more rights than the replica
      owns, twice over and at every replica, would not exceed the value. */
  lemma PoorExactly(s: BC)
    requires |s.perms| > 0 && s.value >= 0 && Get(s.perms, s.self) >= 0
    ensures Poor(s) <==> |s.perms| * (2 * Get(s.perms, s.self) + 2) <= s.value
  {
    var n, own := |s.perms|, Get(s.perms, s.self);
    var q := s.value / n;
    assert s.value == n * q + s.value % n;
    if 2 * own + 2 <= q {
      TimesAtMost(n, 2 * own + 2, q);
    } else {
      TimesAtMost(n, q + 1, 2 * own + 2);
      assert n * (q + 1) == n * q + n;
    }
  }

  lemma TimesAtMost(n: nat, a: int, b: int)
    requires a <= b
    ensures n * a <= n * b
  {
    assert n * b == n * a + n * (b - a);
  }

  /** What is asked for: the asker ends with no more than the value, and unless it ends with exactly the value,
      the two replicas end level, or with one right more at the one asked. */
  lemma RequestLevels(s: BC, toAsk: int, askID: int)
    requires |s.perms| > 0 && (forall k :: k in s.perms ==> s.perms[k] >= 0)
    requires Poor(s) && Asked(s, toAsk, askID)
    ensures var own, other := Get(s.perms, s.self) + toAsk, Get(s.perms, askID) - toAsk;
            own <= s.value && (own == s.value || own <= other <= own + 1)
  {
  }

  lemma PoorOwnsLess(s: BC)
    requires |s.perms| > 0 && (forall k :: k in s.perms ==> s.perms[k] >= 0) && Poor(s)
    ensures 2 * Get(s.perms, s.self) + 2 <= Quo(s.value, |s.perms|) <= s.value
    ensures |s.perms| * Quo(s.value, |s.perms|) <= s.value
  {
    QuoRem(s.value, |s.perms|);
    QuoShrinks(s.value, |s.perms|);
  }

  /** A limit of at most zero is enough for every request to be a proper one. */
  lemma RequestAsksSomething(s: BC, toAsk: int, askID: int)
    requires |s.perms| > 0 && (forall k :: k in s.perms ==> s.perms[k] >= 0)
    requires Balanced(s, s.limit) && s.limit <= 0
    requires Poor(s) && Asked(s, toAsk, askID)
    ensures toAsk >= 1
  {
    var own, n := Get(s.perms, s.self), |s.perms|;
    PoorOwnsLess(s);
    RequestIsFair(s, toAsk, askID);
    if forall k :: k in s.perms ==> s.perms[k] <= own + 1 {
      SumAtMost(s.perms, own + 1);
      TimesLess(n, own + 1, Quo(s.value, n));
      assert false;
    }
  }

  lemma TimesLess(n: nat, a: int, b: int)
    requires n > 0 && a < b
    ensures n * a < n * b
  {
    assert n * b == n * a + n * (b - a);
  }

  /** A positive limit makes the value outgrow the rights: here the poorest replica asks for nothing. */
  lemma RequestMayAskNothing()
    ensures var s := BC(1, map[1 := 0, 2 := 0], 100, 100);
            Balanced(s, s.limit) && Poor(s) && Asked(s, 0, 0) && forall a, b :: Asked(s, a, b) ==> a == 0
  {
    var m := map[1 := 0, 2 := 0];
    SumAtMost(m, 0);
    SumNonNegative(m);
    assert |m| == 2 by { assert m.Keys == {1, 2}; }
  }
}
