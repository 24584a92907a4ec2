/** The array of counters of crdt/crdt/counterArrayCrdt.go: operations that grow the array commute,
    and every recorded effect can be undone, last first. */
module CounterArray {
  import opened Options

  datatype Op =
    | Increment(change: int, position: int)
    | Decrement(change: int, position: int)
    | IncrementSub(changes: seq<int>, positions: seq<int>)
    | DecrementSub(changes: seq<int>, positions: seq<int>)
    | IncrementAll(change: int)
    | DecrementAll(change: int)
    | IncrementMulti(changes: seq<int>)
    | DecrementMulti(changes: seq<int>)
    | SetSize(size: int)

  datatype Effect =
    | NoEffect
    | IncEffect(change: int, position: int)
    | DecEffect(change: int, position: int)
    | IncSubEffect(changes: seq<int>, positions: seq<int>)
    | DecSubEffect(changes: seq<int>, positions: seq<int>)
    | IncSubWithSizeEffect(changes: seq<int>, positions: seq<int>, oldSize: nat)
    | DecSubWithSizeEffect(changes: seq<int>, positions: seq<int>, oldSize: nat)
    | IncAllEffect(change: int)
    | DecAllEffect(change: int)
    | IncMultiEffect(changes: seq<int>)
    | IncMultiWithSizeEffect(changes: seq<int>, oldSize: nat)
    | DecMultiWithSizeEffect(changes: seq<int>, oldSize: nat)
    | SetSizeEffect(oldSize: nat)

  /** Positions are not negative, and there is one change for all of them or one for each. */
  predicate SubOk(changes: seq<int>, positions: seq<int>) {
    && (|changes| == 1 || |positions| <= |changes|)
    && forall k :: 0 <= k < |positions| ==> positions[k] >= 0
  }

  predicate Ok(op: Op) {
    match op
    case Increment(_, p) => p >= 0
    case Decrement(_, p) => p >= 0
    case IncrementSub(cs, ps) => SubOk(cs, ps)
    case DecrementSub(cs, ps) => SubOk(cs, ps)
    case _ => true
  }

  // ---------------------------------------------------------------- the steps as functions

  /** A position past the end reads as 0. */
  function At(c: seq<int>, i: nat): int {
    if i < |c| then c[i] else 0
  }

  function Grow(c: seq<int>, n: int): seq<int> {
    if n <= |c| then c else c + seq(n - |c|, _ => 0)
  }

  function AddAt(c: seq<int>, p: nat, d: int): seq<int> {
    var g := Grow(c, p + 1);
    g[p := g[p] + d]
  }

  function ChangeOf(changes: seq<int>, k: nat): int
    requires |changes| == 1 || k < |changes|
  {
    if |changes| == 1 then changes[0] else changes[k]
  }

  function Signed(up: bool, d: int): int {
    if up then d else -d
  }

  /** The first k positions, each raised or lowered by its change. */
  function AddSub(c: seq<int>, changes: seq<int>, positions: seq<int>, up: bool, k: nat): seq<int>
    requires SubOk(changes, positions) && k <= |positions|
  {
    if k == 0 then c
    else AddAt(AddSub(c, changes, positions, up, k - 1), positions[k - 1], Signed(up, ChangeOf(changes, k - 1)))
  }

  function AddEverywhere(c: seq<int>, d: int): seq<int> {
    seq(|c|, (i: nat) requires i < |c| => c[i] + d)
  }

  function AddPrefix(c: seq<int>, changes: seq<int>, up: bool): seq<int>
    requires |changes| <= |c|
  {
    seq(|c|, (i: nat) requires i < |c| => c[i] + if i < |changes| then Signed(up, changes[i]) else 0)
  }

  function Apply(c: seq<int>, op: Op): seq<int>
    requires Ok(op)
  {
    match op
    case Increment(d, p) => AddAt(c, p, d)
    case Decrement(d, p) => AddAt(c, p, -d)
    case IncrementSub(cs, ps) => AddSub(c, cs, ps, true, |ps|)
    case DecrementSub(cs, ps) => AddSub(c, cs, ps, false, |ps|)
    case IncrementAll(d) => AddEverywhere(c, d)
    case DecrementAll(d) => AddEverywhere(c, -d)
    case IncrementMulti(cs) => AddPrefix(Grow(c, |cs|), cs, true)
    case DecrementMulti(cs) => AddPrefix(Grow(c, |cs|), cs, true)
    case SetSize(n) => Grow(c, n)
  }

  function EffectOf(c: seq<int>, op: Op): Effect
    requires Ok(op)
  {
    match op
    case Increment(d, p) => if p >= |c| then SetSizeEffect(|c|) else IncEffect(d, p)
    case Decrement(d, p) => if p >= |c| then SetSizeEffect(|c|) else DecEffect(d, p)
    case IncrementSub(cs, ps) =>
      if |c| != |Apply(c, op)| then IncSubWithSizeEffect(cs, ps, |c|) else IncSubEffect(cs, ps)
    case DecrementSub(cs, ps) =>
      if |c| != |Apply(c, op)| then DecSubWithSizeEffect(cs, ps, |c|) else DecSubEffect(cs, ps)
    case IncrementAll(d) => IncAllEffect(d)
    case DecrementAll(d) => DecAllEffect(d)
    case IncrementMulti(cs) => if |cs| > |c| then IncMultiWithSizeEffect(cs, |c|) else IncMultiEffect(cs)
    case DecrementMulti(cs) => if |cs| > |c| then DecMultiWithSizeEffect(cs, |c|) else IncMultiEffect(cs)
    case SetSize(n) => if n > |c| then SetSizeEffect(|c|) else NoEffect
  }

  /** The size before, which an effect records. */
  function OldSize(eff: Effect): Option<nat> {
    match eff
    case IncSubWithSizeEffect(_, _, n) => Some(n)
    case DecSubWithSizeEffect(_, _, n) => Some(n)
    case IncMultiWithSizeEffect(_, n) => Some(n)
    case DecMultiWithSizeEffect(_, n) => Some(n)
    case SetSizeEffect(n) => Some(n)
    case _ => None
  }

  /** An effect records the size before exactly if the operation grew the array. */
  lemma EffectRecordsGrowth(c: seq<int>, op: Op)
    requires Ok(op)
    ensures OldSize(EffectOf(c, op)) == if |Apply(c, op)| > |c| then Some(|c|) else None
  {
    match op
    case IncrementSub(cs, ps) => SubGrows(c, cs, ps, true, |ps|);
    case DecrementSub(cs, ps) => SubGrows(c, cs, ps, false, |ps|);
    case _ =>
  }

  lemma {:induction false} SubGrows(c: seq<int>, changes: seq<int>, positions: seq<int>, up: bool, k: nat)
    requires SubOk(changes, positions) && k <= |positions|
    ensures |AddSub(c, changes, positions, up, k)| >= |c|
  {
    if k > 0 { SubGrows(c, changes, positions, up, k - 1); }
  }

  /** Undoing stays within the array. */
  predicate CanUndo(c: seq<int>, eff: Effect) {
    match eff
    case IncEffect(_, p) => 0 <= p < |c|
    case DecEffect(_, p) => 0 <= p < |c|
    case IncSubEffect(cs, ps) => SubWithin(c, cs, ps)
    case DecSubEffect(cs, ps) => SubWithin(c, cs, ps)
    case IncSubWithSizeEffect(cs, ps, n) => SubWithin(c, cs, ps) && n <= |c|
    case DecSubWithSizeEffect(cs, ps, n) => SubWithin(c, cs, ps) && n <= |c|
    case IncMultiEffect(cs) => |cs| <= |c|
    case IncMultiWithSizeEffect(cs, n) => |cs| <= |c| && n <= |c|
    case DecMultiWithSizeEffect(cs, n) => |cs| <= |c| && n <= |c|
    case SetSizeEffect(n) => n <= |c|
    case _ => true
  }

  predicate SubWithin(c: seq<int>, changes: seq<int>, positions: seq<int>) {
    SubOk(changes, positions) && forall k :: 0 <= k < |positions| ==> positions[k] < |c|
  }

  function Undo(c: seq<int>, eff: Effect): seq<int>
    requires CanUndo(c, eff)
  {
    match eff
    case NoEffect => c
    case IncEffect(d, p) => c[p := c[p] - d]
    case DecEffect(d, p) => c[p := c[p] + d]
    case IncSubEffect(cs, ps) => AddSub(c, cs, ps, false, |ps|)
    case DecSubEffect(cs, ps) => AddSub(c, cs, ps, true, |ps|)
    case IncSubWithSizeEffect(cs, ps, n) => Truncate(AddSub(c, cs, ps, false, |ps|), n)
    case DecSubWithSizeEffect(cs, ps, n) => Truncate(AddSub(c, cs, ps, true, |ps|), n)
    case IncAllEffect(d) => AddEverywhere(c, -d)
    case DecAllEffect(d) => AddEverywhere(c, d)
    case IncMultiEffect(cs) => AddPrefix(c, cs, false)
    case IncMultiWithSizeEffect(cs, n) => Truncate(AddPrefix(c, cs, false), n)
    case DecMultiWithSizeEffect(cs, n) => Truncate(AddPrefix(c, cs, true), n)
    case SetSizeEffect(n) => Truncate(c, n)
  }

  function Truncate(c: seq<int>, n: nat): seq<int> {
    if n <= |c| then c[..n] else c
  }

  // ---------------------------------------------------------------- what a step adds up to

  /** The length an operation needs. */
  function Needs(op: Op): nat
    requires Ok(op)
  {
    match op
    case Increment(_, p) => p + 1
    case Decrement(_, p) => p + 1
    case IncrementSub(_, ps) => SubNeeds(ps, |ps|)
    case DecrementSub(_, ps) => SubNeeds(ps, |ps|)
    case IncrementMulti(cs) => |cs|
    case DecrementMulti(cs) => |cs|
    case SetSize(n) => if n < 0 then 0 else n
    case _ => 0
  }

  function SubNeeds(positions: seq<int>, k: nat): nat
    requires k <= |positions| && forall j :: 0 <= j < |positions| ==> positions[j] >= 0
  {
    if k == 0 then 0
    else
      var before := SubNeeds(positions, k - 1);
      if positions[k - 1] + 1 > before then positions[k - 1] + 1 else before
  }

  function SubDelta(changes: seq<int>, positions: seq<int>, k: nat, i: nat): int
    requires SubOk(changes, positions) && k <= |positions|
  {
    if k == 0 then 0
    else SubDelta(changes, positions, k - 1, i) + if positions[k - 1] == i then ChangeOf(changes, k - 1) else 0
  }

  /** What an operation adds at position i, for the operations that do not depend on the length. */
  function Delta(op: Op, i: nat): int
    requires Ok(op) && Commutes(op)
  {
    match op
    case Increment(d, p) => if i == p then d else 0
    case Decrement(d, p) => if i == p then -d else 0
    case IncrementSub(cs, ps) => SubDelta(cs, ps, |ps|, i)
    case DecrementSub(cs, ps) => -SubDelta(cs, ps, |ps|, i)
    case IncrementMulti(cs) => At(cs, i)
    case DecrementMulti(cs) => At(cs, i)
    case SetSize(_) => 0
  }

  /** All operations but those on every position. */
  predicate Commutes(op: Op) {
    !op.IncrementAll? && !op.DecrementAll?
  }

  function Max(a: int, b: int): int {
    if a >= b then a else b
  }

  lemma AddAtIs(c: seq<int>, p: nat, d: int, i: nat)
    ensures |AddAt(c, p, d)| == Max(|c|, p + 1)
    ensures At(AddAt(c, p, d), i) == At(c, i) + if i == p then d else 0
  {
  }

  lemma {:induction false} SubAt(c: seq<int>, changes: seq<int>, positions: seq<int>, up: bool, k: nat, i: nat)
    requires SubOk(changes, positions) && k <= |positions|
    ensures |AddSub(c, changes, positions, up, k)| == Max(|c|, SubNeeds(positions, k))
    ensures At(AddSub(c, changes, positions, up, k), i) == At(c, i) + Signed(up, SubDelta(changes, positions, k, i))
  {
    if k > 0 {
      SubAt(c, changes, positions, up, k - 1, i);
      AddAtIs(AddSub(c, changes, positions, up, k - 1), positions[k - 1], Signed(up, ChangeOf(changes, k - 1)), i);
    }
  }

  lemma {:induction false} SubNeedsBound(positions: seq<int>, k: nat)
    requires k <= |positions| && forall j :: 0 <= j < |positions| ==> positions[j] >= 0
    ensures forall j :: 0 <= j < k ==> positions[j] < SubNeeds(positions, k)
  {
    if k > 0 { SubNeedsBound(positions, k - 1); }
  }

  /** Apply grows the array to what the operation needs and adds its changes pointwise. */
  lemma ApplyAt(c: seq<int>, op: Op, i: nat)
    requires Ok(op) && Commutes(op)
    ensures |Apply(c, op)| == Max(|c|, Needs(op))
    ensures At(Apply(c, op), i) == At(c, i) + Delta(op, i)
  {
    match op
    case IncrementSub(cs, ps) => SubAt(c, cs, ps, true, |ps|, i);
    case DecrementSub(cs, ps) => SubAt(c, cs, ps, false, |ps|, i);
    case _ =>
  }

  // ---------------------------------------------------------------- what an operation adds where

  ghost predicate Distinct(positions: seq<int>) {
    forall j, k :: 0 <= j < k < |positions| ==> positions[j] != positions[k]
  }

  lemma {:induction false} AddSubElsewhere(c: seq<int>, changes: seq<int>, positions: seq<int>, up: bool, n: nat, i: nat)
    requires SubOk(changes, positions) && n <= |positions| && i !in positions[..n]
    ensures At(AddSub(c, changes, positions, up, n), i) == At(c, i)
  {
    if n > 0 {
      assert positions[..n] == positions[..n - 1] + [positions[n - 1]];
      AddSubElsewhere(c, changes, positions, up, n - 1, i);
    }
  }

  /** With one change for each position, and no position twice, position k gets change k. */
  lemma {:induction false} AddSubEach(c: seq<int>, changes: seq<int>, positions: seq<int>, up: bool, n: nat, k: nat)
    requires SubOk(changes, positions) && Distinct(positions) && |positions| <= |changes| && k < n <= |positions|
    ensures At(AddSub(c, changes, positions, up, n), positions[k]) == At(c, positions[k]) + if up then changes[k] else -changes[k]
  {
    if k < n - 1 {
      AddSubEach(c, changes, positions, up, n - 1, k);
    } else {
      AddSubElsewhere(c, changes, positions, up, k, positions[k]);
    }
  }

  /** Each of the positions of a Sub operation changes by its own change, and no other position changes. */
  lemma SubChangesEach(c: seq<int>, changes: seq<int>, positions: seq<int>)
    requires SubOk(changes, positions) && Distinct(positions) && |positions| <= |changes|
    ensures forall k :: 0 <= k < |positions| ==>
              && At(Apply(c, IncrementSub(changes, positions)), positions[k]) == At(c, positions[k]) + changes[k]
              && At(Apply(c, DecrementSub(changes, positions)), positions[k]) == At(c, positions[k]) - changes[k]
    ensures forall i: nat :: i !in positions ==>
              && At(Apply(c, IncrementSub(changes, positions)), i) == At(c, i)
              && At(Apply(c, DecrementSub(changes, positions)), i) == At(c, i)
  {
    var n := |positions|;
    assert positions[..n] == positions;
    forall k | 0 <= k < n
      ensures At(Apply(c, IncrementSub(changes, positions)), positions[k]) == At(c, positions[k]) + changes[k]
      ensures At(Apply(c, DecrementSub(changes, positions)), positions[k]) == At(c, positions[k]) - changes[k]
    {
      AddSubEach(c, changes, positions, true, n, k);
      AddSubEach(c, changes, positions, false, n, k);
    }
    forall i: nat | i !in positions
      ensures At(Apply(c, IncrementSub(changes, positions)), i) == At(c, i)
      ensures At(Apply(c, DecrementSub(changes, positions)), i) == At(c, i)
    {
      AddSubElsewhere(c, changes, positions, true, n, i);
      AddSubElsewhere(c, changes, positions, false, n, i);
    }
  }

  /** How often i is among the first n positions. */
  function Count(positions: seq<int>, n: nat, i: nat): nat
    requires n <= |positions|
  {
    if n == 0 then 0 else Count(positions, n - 1, i) + if positions[n - 1] == i then 1 else 0
  }

  lemma {:induction false} CountIsMultiplicity(positions: seq<int>, n: nat, i: nat)
    requires n <= |positions|
    ensures Count(positions, n, i) == multiset(positions[..n])[i]
  {
    if n > 0 {
      assert positions[..n] == positions[..n - 1] + [positions[n - 1]];
      CountIsMultiplicity(positions, n - 1, i);
    }
  }

  lemma TimesOnce(e: int, m: int)
    ensures e * (m + 1) == e * m + e
  {
  }

  lemma {:induction false} DeltaSingle(d: int, positions: seq<int>, n: nat, i: nat)
    requires SubOk([d], positions) && n <= |positions|
    ensures SubDelta([d], positions, n, i) == d * Count(positions, n, i)
  {
    if n > 0 {
      DeltaSingle(d, positions, n - 1, i);
      TimesOnce(d, Count(positions, n - 1, i));
    }
  }

  /** A single change counts for every position given, as often as it is given. */
  lemma SubChangesAll(c: seq<int>, d: int, positions: seq<int>, i: nat)
    requires SubOk([d], positions)
    ensures At(Apply(c, IncrementSub([d], positions)), i) == At(c, i) + d * multiset(positions)[i]
    ensures At(Apply(c, DecrementSub([d], positions)), i) == At(c, i) - d * multiset(positions)[i]
  {
    var n := |positions|;
    assert positions[..n] == positions;
    CountIsMultiplicity(positions, n, i);
    DeltaSingle(d, positions, n, i);
    SubAt(c, [d], positions, true, n, i);
    SubAt(c, [d], positions, false, n, i);
  }

  /** The operations on every position change exactly those that exist. */
  lemma AllChangesExisting(c: seq<int>, d: int)
    ensures |Apply(c, IncrementAll(d))| == |Apply(c, DecrementAll(d))| == |c|
    ensures forall i :: 0 <= i < |c| ==> Apply(c, IncrementAll(d))[i] == c[i] + d && Apply(c, DecrementAll(d))[i] == c[i] - d
  {
  }

  lemma SameArray(a: seq<int>, b: seq<int>)
    requires |a| == |b| && forall i: nat :: At(a, i) == At(b, i)
    ensures a == b
  {
    forall i | 0 <= i < |a| ensures a[i] == b[i] { assert At(a, i) == At(b, i); }
  }

  // ---------------------------------------------------------------- commutation

  lemma TwoCommute(c: seq<int>, a: Op, b: Op)
    requires Ok(a) && Ok(b) && Commutes(a) && Commutes(b)
    ensures Apply(Apply(c, a), b) == Apply(Apply(c, b), a)
  {
    ApplyAt(c, a, 0);
    ApplyAt(c, b, 0);
    ApplyAt(Apply(c, a), b, 0);
    ApplyAt(Apply(c, b), a, 0);
    forall i: nat ensures At(Apply(Apply(c, a), b), i) == At(Apply(Apply(c, b), a), i) {
      ApplyAt(c, a, i);
      ApplyAt(c, b, i);
      ApplyAt(Apply(c, a), b, i);
      ApplyAt(Apply(c, b), a, i);
    }
    SameArray(Apply(Apply(c, a), b), Apply(Apply(c, b), a));
  }

  predicate AllOk(ops: seq<Op>) {
    forall k :: 0 <= k < |ops| ==> Ok(ops[k])
  }

  predicate AllCommute(ops: seq<Op>) {
    forall k :: 0 <= k < |ops| ==> Commutes(ops[k])
  }

  function ApplyAll(c: seq<int>, ops: seq<Op>): seq<int>
    requires AllOk(ops)
    decreases ops
  {
    if ops == [] then c else ApplyAll(Apply(c, ops[0]), ops[1..])
  }

  function WithoutAt(ops: seq<Op>, k: nat): seq<Op>
    requires k < |ops|
  {
    ops[..k] + ops[k + 1..]
  }

  lemma {:induction false} BringForward(c: seq<int>, ops: seq<Op>, k: nat)
    requires AllOk(ops) && AllCommute(ops) && k < |ops|
    ensures ApplyAll(c, ops) == ApplyAll(Apply(c, ops[k]), WithoutAt(ops, k))
    decreases k
  {
    if k == 0 {
      assert WithoutAt(ops, k) == ops[1..];
    } else {
      BringForward(Apply(c, ops[0]), ops[1..], k - 1);
      assert WithoutAt(ops, k)[1..] == WithoutAt(ops[1..], k - 1);
      TwoCommute(c, ops[0], ops[k]);
    }
  }

  lemma WithoutFirst(ops: seq<Op>, other: seq<Op>, k: nat)
    requires ops != [] && multiset(ops) == multiset(other) && k < |other| && other[k] == ops[0]
    ensures multiset(WithoutAt(other, k)) == multiset(ops[1..])
  {
    assert WithoutAt(ops, 0) == ops[1..];
    TakenOut(ops, 0);
    TakenOut(other, k);
  }

  lemma TakenOut(ops: seq<Op>, k: nat)
    requires k < |ops|
    ensures multiset(WithoutAt(ops, k)) == multiset(ops) - multiset{ops[k]}
  {
    assert ops == ops[..k] + [ops[k]] + ops[k + 1..];
  }

  lemma SameOpsCommute(ops: seq<Op>, other: seq<Op>)
    requires AllCommute(ops) && multiset(ops) == multiset(other)
    ensures AllCommute(other)
  {
    forall j | 0 <= j < |other| ensures Commutes(other[j]) {
      assert other[j] in multiset(ops);
    }
  }

  /** Any two orders of the same operations, those on every position excepted, give the same length
      and contents. */
  lemma {:induction false} OrderIsIrrelevant(c: seq<int>, ops: seq<Op>, other: seq<Op>)
    requires AllOk(ops) && AllOk(other) && AllCommute(ops)
    requires multiset(ops) == multiset(other)
    ensures ApplyAll(c, ops) == ApplyAll(c, other)
    decreases |ops|
  {
    if ops == [] {
      assert |multiset(other)| == 0;
    } else {
      assert ops[0] in multiset(other);
      var k :| 0 <= k < |other| && other[k] == ops[0];
      SameOpsCommute(ops, other);
      BringForward(c, other, k);
      WithoutFirst(ops, other, k);
      OrderIsIrrelevant(Apply(c, ops[0]), ops[1..], WithoutAt(other, k));
    }
  }

  lemma AddEverywhereAt(c: seq<int>, d: int, i: nat)
    ensures |AddEverywhere(c, d)| == |c|
    ensures At(AddEverywhere(c, d), i) == At(c, i) + if i < |c| then d else 0
  {
  }

  lemma AllThenOp(c: seq<int>, d: int, op: Op, i: nat)
    requires Ok(op) && Commutes(op)
    ensures |Apply(AddEverywhere(c, d), op)| == |AddEverywhere(Apply(c, op), d)| == Max(|c|, Needs(op))
    ensures At(Apply(AddEverywhere(c, d), op), i) == At(c, i) + Delta(op, i) + (if i < |c| then d else 0)
    ensures At(AddEverywhere(Apply(c, op), d), i) == At(c, i) + Delta(op, i) + (if i < Max(|c|, Needs(op)) then d else 0)
  {
    ApplyAt(c, op, i);
    ApplyAt(AddEverywhere(c, d), op, i);
    AddEverywhereAt(c, d, i);
    AddEverywhereAt(Apply(c, op), d, i);
  }

  lemma AddEverywhereCommutesExactly(c: seq<int>, d: int, op: Op)
    requires Ok(op) && Commutes(op)
    ensures Apply(AddEverywhere(c, d), op) == AddEverywhere(Apply(c, op), d) <==> d == 0 || Needs(op) <= |c|
  {
    var a, b := Apply(AddEverywhere(c, d), op), AddEverywhere(Apply(c, op), d);
    AllThenOp(c, d, op, |c|);
    if d == 0 || Needs(op) <= |c| {
      forall i: nat ensures At(a, i) == At(b, i) {
        AllThenOp(c, d, op, i);
      }
      SameArray(a, b);
    }
  }

  /** An operation on every position commutes with another one exactly when it adds nothing or the other
      does not grow the array: not only a resize, an increment past the end does not commute either. */
  lemma AllCommutesExactly(c: seq<int>, d: int, op: Op)
    requires Ok(op) && Commutes(op)
    ensures Apply(Apply(c, IncrementAll(d)), op) == Apply(Apply(c, op), IncrementAll(d)) <==> d == 0 || Needs(op) <= |c|
    ensures Apply(Apply(c, DecrementAll(d)), op) == Apply(Apply(c, op), DecrementAll(d)) <==> d == 0 || Needs(op) <= |c|
  {
    AllIsEverywhere(c, d);
    AllIsEverywhere(Apply(c, op), d);
    AddEverywhereCommutesExactly(c, d, op);
    AddEverywhereCommutesExactly(c, -d, op);
  }

  lemma AllIsEverywhere(c: seq<int>, d: int)
    ensures Apply(c, IncrementAll(d)) == AddEverywhere(c, d) && Apply(c, DecrementAll(d)) == AddEverywhere(c, -d)
  {
  }

  /** What DecrementMulti is named for. */
  function Subtracted(c: seq<int>, changes: seq<int>): seq<int> {
    AddPrefix(Grow(c, |changes|), changes, false)
  }

  /** DecrementMulti adds, so it subtracts exactly when all its changes are 0. */
  lemma DecrementMultiSubtractsExactly(c: seq<int>, changes: seq<int>)
    ensures forall i: nat :: At(Apply(c, DecrementMulti(changes)), i) == At(c, i) + At(changes, i)
    ensures Apply(c, DecrementMulti(changes)) == Subtracted(c, changes) <==> forall i :: 0 <= i < |changes| ==> changes[i] == 0
  {
    var a, b := Apply(c, DecrementMulti(changes)), Subtracted(c, changes);
    forall i: nat ensures At(a, i) == At(c, i) + At(changes, i) {
      ApplyAt(c, DecrementMulti(changes), i);
    }
    assert |a| == |b|;
    if forall i :: 0 <= i < |changes| ==> changes[i] == 0 {
      SameArray(a, b);
    } else {
      var i: nat :| i < |changes| && changes[i] != 0;
      assert a[i] == At(c, i) + changes[i] && b[i] == At(c, i) - changes[i];
    }
  }

  lemma DecrementMultiDiffers()
    ensures Apply([5], DecrementMulti([2])) == [7] && Subtracted([5], [2]) == [3]
  {
  }

  // ---------------------------------------------------------------- undo

  /** The one operation whose effect is not always undone: a DecrementMulti that grows the array, unless
      it leaves the positions that existed alone. */
  predicate Undoable(c: seq<int>, op: Op) {
    op.DecrementMulti? && |op.changes| > |c| ==> forall i :: 0 <= i < |c| ==> op.changes[i] == 0
  }

  lemma UndoSub(c: seq<int>, changes: seq<int>, positions: seq<int>, up: bool)
    requires SubOk(changes, positions)
    ensures var c' := AddSub(c, changes, positions, up, |positions|);
            && |c| <= |c'| && SubWithin(c', changes, positions)
            && Truncate(AddSub(c', changes, positions, !up, |positions|), |c|) == c
            && (|c'| == |c| ==> AddSub(c', changes, positions, !up, |positions|) == c)
  {
    var n := |positions|;
    var c' := AddSub(c, changes, positions, up, n);
    var c'' := AddSub(c', changes, positions, !up, n);
    SubAt(c, changes, positions, up, n, 0);
    SubAt(c', changes, positions, !up, n, 0);
    SubNeedsBound(positions, n);
    forall i: nat ensures At(c'', i) == At(c, i) {
      SubAt(c, changes, positions, up, n, i);
      SubAt(c', changes, positions, !up, n, i);
    }
    forall i: nat ensures At(Truncate(c'', |c|), i) == At(c, i) { assert At(c'', i) == At(c, i); }
    SameArray(Truncate(c'', |c|), c);
    assert |c''| == |c'|;
  }

  lemma UndoOne(c: seq<int>, p: nat, d: int)
    ensures p < |AddAt(c, p, d)|
    ensures p < |c| ==> AddAt(c, p, d)[p := AddAt(c, p, d)[p] - d] == c
    ensures p >= |c| ==> Truncate(AddAt(c, p, d), |c|) == c
  {
    if p >= |c| { SameArray(Truncate(AddAt(c, p, d), |c|), c); }
  }

  lemma UndoMulti(c: seq<int>, changes: seq<int>)
    ensures Truncate(AddPrefix(AddPrefix(Grow(c, |changes|), changes, true), changes, false), |c|) == c
    ensures |changes| <= |c| ==> AddPrefix(AddPrefix(Grow(c, |changes|), changes, true), changes, false) == c
  {
    var back := AddPrefix(AddPrefix(Grow(c, |changes|), changes, true), changes, false);
    SameArray(Truncate(back, |c|), c);
  }

  /** The effect recorded by a growing DecrementMulti adds the changes a second time. */
  lemma UndoDecMulti(c: seq<int>, changes: seq<int>)
    requires |changes| > |c|
    ensures Truncate(AddPrefix(AddPrefix(Grow(c, |changes|), changes, true), changes, true), |c|) == c
       <==> forall i :: 0 <= i < |c| ==> changes[i] == 0
  {
    var back := Truncate(AddPrefix(AddPrefix(Grow(c, |changes|), changes, true), changes, true), |c|);
    assert forall i :: 0 <= i < |c| ==> back[i] == c[i] + changes[i] + changes[i];
    if forall i :: 0 <= i < |c| ==> changes[i] == 0 { SameArray(back, c); }
  }

  lemma UndoSubOp(c: seq<int>, op: Op)
    requires Ok(op) && (op.IncrementSub? || op.DecrementSub?)
    ensures CanUndo(Apply(c, op), EffectOf(c, op))
    ensures Undo(Apply(c, op), EffectOf(c, op)) == c
  {
    if op.IncrementSub? {
      UndoSub(c, op.changes, op.positions, true);
    } else {
      UndoSub(c, op.changes, op.positions, false);
    }
  }

  lemma UndoMultiOp(c: seq<int>, op: Op)
    requires op.IncrementMulti? || op.DecrementMulti?
    ensures CanUndo(Apply(c, op), EffectOf(c, op))
    ensures Undo(Apply(c, op), EffectOf(c, op)) == c <==> Undoable(c, op)
  {
    UndoMulti(c, op.changes);
    if |op.changes| > |c| { UndoDecMulti(c, op.changes); }
  }

  lemma UndoAllOp(c: seq<int>, op: Op)
    requires op.IncrementAll? || op.DecrementAll? || op.SetSize?
    ensures CanUndo(Apply(c, op), EffectOf(c, op))
    ensures Undo(Apply(c, op), EffectOf(c, op)) == c
  {
    SameArray(Undo(Apply(c, op), EffectOf(c, op)), c);
  }

  /** Undoing a recorded effect stays within the array, and restores contents and length exactly if and
      only if the operation is undoable. */
  lemma UndoInvertsApply(c: seq<int>, op: Op)
    requires Ok(op)
    ensures CanUndo(Apply(c, op), EffectOf(c, op))
    ensures Undo(Apply(c, op), EffectOf(c, op)) == c <==> Undoable(c, op)
  {
    match op
    case Increment(d, p) => UndoOne(c, p, d);
    case Decrement(d, p) => UndoOne(c, p, -d);
    case IncrementSub(_, _) => UndoSubOp(c, op);
    case DecrementSub(_, _) => UndoSubOp(c, op);
    case IncrementMulti(_) => UndoMultiOp(c, op);
    case DecrementMulti(_) => UndoMultiOp(c, op);
    case _ => UndoAllOp(c, op);
  }

  function EffectsOf(c: seq<int>, ops: seq<Op>): seq<Effect>
    requires AllOk(ops)
    decreases ops
  {
    if ops == [] then [] else [EffectOf(c, ops[0])] + EffectsOf(Apply(c, ops[0]), ops[1..])
  }

  predicate CanUndoAll(c: seq<int>, effects: seq<Effect>)
    decreases effects
  {
    effects != [] ==>
      && CanUndo(c, effects[|effects| - 1])
      && CanUndoAll(Undo(c, effects[|effects| - 1]), effects[..|effects| - 1])
  }

  /** Undo all effects, the last one first. */
  function UndoAll(c: seq<int>, effects: seq<Effect>): seq<int>
    requires CanUndoAll(c, effects)
    decreases effects
  {
    if effects == [] then c else UndoAll(Undo(c, effects[|effects| - 1]), effects[..|effects| - 1])
  }

  predicate UndoableRun(c: seq<int>, ops: seq<Op>)
    requires AllOk(ops)
    decreases ops
  {
    ops != [] ==> Undoable(c, ops[0]) && UndoableRun(Apply(c, ops[0]), ops[1..])
  }

  lemma {:induction false} UndoAllConcat(c: seq<int>, first: Effect, effects: seq<Effect>)
    requires CanUndoAll(c, effects) && CanUndo(UndoAll(c, effects), first)
    ensures CanUndoAll(c, [first] + effects)
    ensures UndoAll(c, [first] + effects) == Undo(UndoAll(c, effects), first)
    decreases effects
  {
    var all := [first] + effects;
    if effects == [] {
      assert all[..0] == [];
      assert all[|all| - 1] == first;
    } else {
      var last := effects[|effects| - 1];
      assert all[..|all| - 1] == [first] + effects[..|effects| - 1];
      UndoAllConcat(Undo(c, last), first, effects[..|effects| - 1]);
    }
  }

  /** Undoing the effects of any run, last first, restores the exact starting array and length. */
  lemma {:induction false} UndoRun(c: seq<int>, ops: seq<Op>)
    requires AllOk(ops) && UndoableRun(c, ops)
    ensures CanUndoAll(ApplyAll(c, ops), EffectsOf(c, ops))
    ensures UndoAll(ApplyAll(c, ops), EffectsOf(c, ops)) == c
    decreases ops
  {
    if ops != [] {
      UndoInvertsApply(c, ops[0]);
      UndoRun(Apply(c, ops[0]), ops[1..]);
      UndoAllConcat(ApplyAll(c, ops), EffectOf(c, ops[0]), EffectsOf(Apply(c, ops[0]), ops[1..]));
    }
  }
}
