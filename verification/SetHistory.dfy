/** The add-wins set of AddWinsSet kept in the log of UndoLog: a rebuild is exact when every entry holds
    one operation, and for entries with several exactly when none of them removes an element that an
    earlier one of them added, because the effects of an entry are undone in the order they happened. */
module SetHistory {
  import opened Clocks
  import opened UndoLog
  import opened TimeTravel
  import A = AddWinsSet

  type SetEntry = Entry<A.Op, A.Effect>

  function SetKind(): Kind<A.Elems, A.Op, A.Effect> {
    Kind((s, op) => A.Apply(s, op), (s, op) => A.EffectOf(s, op), (s, eff) => A.Undo(s, eff))
  }

  /** The set after the first k operations. */
  function After(s: A.Elems, ops: seq<A.Op>, k: nat): A.Elems
    requires k <= |ops|
  {
    ApplyOps(SetKind(), s, ops[..k])
  }

  /** Every operation of the log draws uniques that are fresh when it is applied. */
  ghost predicate FreshLog(s: A.Elems, h: seq<SetEntry>) {
    A.NoneEmpty(s) && forall i :: 0 <= i < |h| ==> |h[i].ops| == 1 && A.Fresh(Replay(SetKind(), s, h[..i]), h[i].ops[0])
  }

  lemma FreshLogUndoes(s: A.Elems, h: seq<SetEntry>)
    requires FreshLog(s, h)
    ensures forall i :: 0 <= i < |h| ==> EffectUndoes(SetKind(), Replay(SetKind(), s, h[..i]), h[i].ops[0])
  {
    forall i | 0 <= i < |h| ensures EffectUndoes(SetKind(), Replay(SetKind(), s, h[..i]), h[i].ops[0]) {
      ReplayNeverLeavesEmpty(s, h[..i]);
      A.UndoInvertsApply(Replay(SetKind(), s, h[..i]), h[i].ops[0]);
    }
  }

  /** Every rebuild of a set is exact that keeps only entries at most the target, whatever the clocks, when
      each transaction applies one operation and draws fresh uniques. */
  lemma SetRebuildIsExact(s: A.Elems, h: seq<SetEntry>, target: Clock)
    requires FreshLog(s, h) && Recorded(SetKind(), s, h) && KeepsOnlyVisible(h, target)
    ensures Rebuilt(SetKind(), Replay(SetKind(), s, h), h, target).state == Replay(SetKind(), s, Visible(h, target))
  {
    FreshLogUndoes(s, h);
    RebuildIsExact(SetKind(), s, h, target);
  }

  lemma {:induction false} OpsNeverLeaveEmpty(s: A.Elems, ops: seq<A.Op>)
    requires A.NoneEmpty(s)
    ensures A.NoneEmpty(ApplyOps(SetKind(), s, ops))
    decreases |ops|
  {
    if ops != [] {
      OpsNeverLeaveEmpty(s, ops[..|ops| - 1]);
      A.ApplyNeverLeavesEmpty(ApplyOps(SetKind(), s, ops[..|ops| - 1]), ops[|ops| - 1]);
    }
  }

  lemma {:induction false} ReplayNeverLeavesEmpty(s: A.Elems, h: seq<SetEntry>)
    requires A.NoneEmpty(s)
    ensures A.NoneEmpty(Replay(SetKind(), s, h))
    decreases |h|
  {
    if h != [] {
      ReplayNeverLeavesEmpty(s, h[..|h| - 1]);
      OpsNeverLeaveEmpty(Replay(SetKind(), s, h[..|h| - 1]), h[|h| - 1].ops);
    }
  }

  // ---------------------------------------------------------------- several operations in one entry

  function AddedIn(op: A.Op, e: A.Element): set<A.Unique> {
    if op.DownAddAll? && e in op.added then {op.added[e]} else {}
  }

  function NamedIn(op: A.Op, e: A.Element): set<A.Unique> {
    if op.DownRemoveAll? && e in op.named then op.named[e] else {}
  }

  /** The operations of a transaction at the replica that prepared them: an add draws uniques used nowhere
      else, and a remove names all uniques that its elements had after the operations before it. */
  ghost predicate Prepared(s: A.Elems, ops: seq<A.Op>) {
    && A.NoneEmpty(s)
    && (forall i, e, u :: 0 <= i < |ops| && u in AddedIn(ops[i], e) ==> u !in A.Uniques(s, e))
    && (forall i, j, e, u :: 0 <= i < j < |ops| && u in AddedIn(ops[i], e) ==> u !in AddedIn(ops[j], e))
    && (forall i, e :: 0 <= i < |ops| && ops[i].DownRemoveAll? && e in ops[i].named ==>
          e in After(s, ops, i) && ops[i].named[e] == After(s, ops, i)[e])
  }

  /** The same operations at any replica, which may lack some of the uniques that a remove names and may
      hold others: a remove names some unique of each of its elements, and when it names an element that
      the transaction added, the unique that was added is among those named so far. */
  ghost predicate Transaction(s: A.Elems, ops: seq<A.Op>) {
    && A.NoneEmpty(s)
    && (forall i, e, u :: 0 <= i < |ops| && u in AddedIn(ops[i], e) ==> u !in A.Uniques(s, e))
    && (forall i, j, e, u :: 0 <= i < j < |ops| && u in AddedIn(ops[i], e) ==> u !in AddedIn(ops[j], e))
    && (forall i, e :: 0 <= i < |ops| && ops[i].DownRemoveAll? && e in ops[i].named ==> ops[i].named[e] != {})
    && (forall i, j, e, u :: 0 <= i < j < |ops| && u in AddedIn(ops[i], e) && NamedIn(ops[j], e) != {} ==>
          exists l :: i < l <= j && u in NamedIn(ops[l], e))
  }

  /** Some element is added and removed again later. */
  ghost predicate AddsThenRemoves(ops: seq<A.Op>) {
    exists i, j, e :: 0 <= i < j < |ops| && AddedIn(ops[i], e) != {} && NamedIn(ops[j], e) != {}
  }

  lemma {:induction false} EffectsAt(s: A.Elems, ops: seq<A.Op>, i: nat)
    requires i < |ops|
    ensures |EffectsOf(SetKind(), s, ops)| == |ops|
    ensures EffectsOf(SetKind(), s, ops)[i] == A.EffectOf(After(s, ops, i), ops[i])
    decreases |ops|
  {
    var front := ops[..|ops| - 1];
    if i < |front| {
      EffectsAt(s, front, i);
      assert front[..i] == ops[..i];
    } else if i > 0 {
      EffectsAt(s, front, i - 1);
    }
  }

  lemma AfterStep(s: A.Elems, ops: seq<A.Op>, k: nat)
    requires k < |ops|
    ensures After(s, ops, k + 1) == A.Apply(After(s, ops, k), ops[k])
  {
    assert ops[..k + 1][..k] == ops[..k];
  }

  lemma UniquesStep(s: A.Elems, op: A.Op, e: A.Element)
    ensures A.Uniques(A.Apply(s, op), e) == A.Uniques(s, e) + AddedIn(op, e) - NamedIn(op, e)
  {
  }

  lemma UniquesBack(now: A.Elems, s: A.Elems, op: A.Op, e: A.Element)
    ensures A.Uniques(A.Undo(now, A.EffectOf(s, op)), e)
         == A.Uniques(now, e) - AddedIn(op, e) + NamedIn(op, e) * A.Uniques(s, e)
  {
  }

  /** The uniques that the i-th operation took out of the set. */
  function TookIn(s: A.Elems, ops: seq<A.Op>, i: nat, e: A.Element): set<A.Unique>
    requires i < |ops|
  {
    NamedIn(ops[i], e) * A.Uniques(After(s, ops, i), e)
  }

  /** The set after undoing the effects of the first k operations, from the set after all of them. */
  function Back(s: A.Elems, ops: seq<A.Op>, k: nat): A.Elems
    requires k <= |ops|
  {
    if k == 0 then After(s, ops, |ops|) else A.Undo(Back(s, ops, k - 1), A.EffectOf(After(s, ops, k - 1), ops[k - 1]))
  }

  lemma {:induction false} BackIsUndoEffects(s: A.Elems, ops: seq<A.Op>, k: nat)
    requires k <= |ops| == |EffectsOf(SetKind(), s, ops)|
    ensures UndoEffects(SetKind(), Back(s, ops, k), EffectsOf(SetKind(), s, ops)[k..])
         == UndoEffects(SetKind(), ApplyOps(SetKind(), s, ops), EffectsOf(SetKind(), s, ops))
  {
    var effects := EffectsOf(SetKind(), s, ops);
    if k == 0 {
      assert ops[..|ops|] == ops && effects[0..] == effects;
    } else {
      BackIsUndoEffects(s, ops, k - 1);
      EffectsAt(s, ops, k - 1);
      assert effects[k - 1..][1..] == effects[k..];
    }
  }

  lemma RunStep(s: A.Elems, ops: seq<A.Op>, k: nat, e: A.Element, u: A.Unique)
    requires k < |ops|
    ensures u in A.Uniques(After(s, ops, k + 1), e)
       <==> (u in A.Uniques(After(s, ops, k), e) || u in AddedIn(ops[k], e)) && u !in NamedIn(ops[k], e)
  {
    AfterStep(s, ops, k);
    UniquesStep(After(s, ops, k), ops[k], e);
  }

  /** What is in the set after k operations was there before or was added, and what was there is still
      there unless it was taken out. */
  lemma {:induction false} RunHas(s: A.Elems, ops: seq<A.Op>, k: nat, e: A.Element, u: A.Unique)
    requires k <= |ops|
    ensures u in A.Uniques(After(s, ops, k), e) ==> u in A.Uniques(s, e) || exists i :: 0 <= i < k && u in AddedIn(ops[i], e)
    ensures u in A.Uniques(s, e) ==> u in A.Uniques(After(s, ops, k), e) || exists i :: 0 <= i < k && u in TookIn(s, ops, i, e)
  {
    if k > 0 {
      RunHas(s, ops, k - 1, e, u);
      RunStep(s, ops, k - 1, e, u);
      assert u in TookIn(s, ops, k - 1, e) <==> u in NamedIn(ops[k - 1], e) && u in A.Uniques(After(s, ops, k - 1), e);
    }
  }

  /** What was added at i is there at k unless it was taken out in between. */
  lemma {:induction false} AddedStays(s: A.Elems, ops: seq<A.Op>, i: nat, k: nat, e: A.Element, u: A.Unique)
    requires i < k <= |ops| && u in AddedIn(ops[i], e)
    ensures u in A.Uniques(After(s, ops, k), e) || exists j :: i < j < k && u in TookIn(s, ops, j, e)
  {
    RunStep(s, ops, k - 1, e, u);
    if i < k - 1 {
      AddedStays(s, ops, i, k - 1, e, u);
      assert u in TookIn(s, ops, k - 1, e) <==> u in NamedIn(ops[k - 1], e) && u in A.Uniques(After(s, ops, k - 1), e);
    }
  }

  lemma BackStepHas(s: A.Elems, ops: seq<A.Op>, k: nat, e: A.Element, u: A.Unique)
    requires 0 < k <= |ops|
    ensures u in A.Uniques(Back(s, ops, k), e)
       <==> (u in A.Uniques(Back(s, ops, k - 1), e) && u !in AddedIn(ops[k - 1], e)) || u in TookIn(s, ops, k - 1, e)
  {
    UniquesBack(Back(s, ops, k - 1), After(s, ops, k - 1), ops[k - 1], e);
  }

  /** Whether u is there, before and after undoing each of the first k effects. */
  ghost predicate Trace(s: A.Elems, ops: seq<A.Op>, e: A.Element, u: A.Unique, t: seq<bool>, k: nat) {
    && |t| == k + 1 <= |ops| + 1
    && forall i :: 0 <= i < k ==> (t[i + 1] <==> (t[i] && u !in AddedIn(ops[i], e)) || u in TookIn(s, ops, i, e))
  }

  lemma TraceMore(s: A.Elems, ops: seq<A.Op>, e: A.Element, u: A.Unique, t: seq<bool>, k: nat, now: bool)
    requires Trace(s, ops, e, u, t, k) && k < |ops|
    requires now <==> (t[k] && u !in AddedIn(ops[k], e)) || u in TookIn(s, ops, k, e)
    ensures Trace(s, ops, e, u, t + [now], k + 1)
  {
  }

  lemma BackTrace(s: A.Elems, ops: seq<A.Op>, e: A.Element, u: A.Unique, k: nat) returns (t: seq<bool>)
    requires k <= |ops|
    ensures Trace(s, ops, e, u, t, k)
    ensures t[0] <==> u in A.Uniques(After(s, ops, |ops|), e)
    ensures t[k] <==> u in A.Uniques(Back(s, ops, k), e)
  {
    if k == 0 {
      t := [u in A.Uniques(After(s, ops, |ops|), e)];
    } else {
      var front := BackTrace(s, ops, e, u, k - 1);
      var now := u in A.Uniques(Back(s, ops, k), e);
      BackStepHas(s, ops, k, e, u);
      TraceMore(s, ops, e, u, front, k - 1, now);
      t := front + [now];
    }
  }

  /** What is there after undoing k effects was there before the undo or was taken out. */
  lemma {:induction false} TraceHas(s: A.Elems, ops: seq<A.Op>, e: A.Element, u: A.Unique, t: seq<bool>, k: nat)
    requires Trace(s, ops, e, u, t, |ops|) && k <= |ops| && t[k]
    ensures (t[0] && forall i :: 0 <= i < k ==> u !in AddedIn(ops[i], e)) || exists i :: 0 <= i < k && u in TookIn(s, ops, i, e)
  {
    if k > 0 && u !in TookIn(s, ops, k - 1, e) {
      TraceHas(s, ops, e, u, t, k - 1);
    }
  }

  /** A unique that no effect from the i-th on removes is there if it was, or if the i-th effect took it. */
  lemma {:induction false} TraceKeeps(s: A.Elems, ops: seq<A.Op>, e: A.Element, u: A.Unique, t: seq<bool>, i: nat, k: nat)
    requires Trace(s, ops, e, u, t, |ops|) && i <= k <= |ops| && forall j :: i <= j < k ==> u !in AddedIn(ops[j], e)
    requires t[i] || (i < k && u in TookIn(s, ops, i, e))
    ensures t[k]
  {
    if i < k && (i < k - 1 || t[i]) {
      TraceKeeps(s, ops, e, u, t, i, k - 1);
    }
  }

  /** A unique that the i-th operation took out is there after undoing everything, if no effect from the
      i-th on removes it. */
  lemma TakenReturns(s: A.Elems, ops: seq<A.Op>, i: nat, e: A.Element, u: A.Unique)
    requires i < |ops| && u in TookIn(s, ops, i, e) && forall j :: i <= j < |ops| ==> u !in AddedIn(ops[j], e)
    ensures u in A.Uniques(Back(s, ops, |ops|), e)
  {
    var t := BackTrace(s, ops, e, u, |ops|);
    TraceKeeps(s, ops, e, u, t, i, |ops|);
  }

  /** A unique that was in the set at the start is there after undoing everything. */
  lemma OldUniquesReturn(s: A.Elems, ops: seq<A.Op>, e: A.Element, u: A.Unique)
    requires Transaction(s, ops) && u in A.Uniques(s, e)
    ensures u in A.Uniques(Back(s, ops, |ops|), e)
  {
    RunHas(s, ops, |ops|, e, u);
    if u in A.Uniques(After(s, ops, |ops|), e) {
      var t := BackTrace(s, ops, e, u, |ops|);
      TraceKeeps(s, ops, e, u, t, 0, |ops|);
    } else {
      var i: nat :| i < |ops| && u in TookIn(s, ops, i, e);
      TakenReturns(s, ops, i, e, u);
    }
  }

  /** One that was not is gone, if no element is added and then removed. */
  lemma NewUniquesGo(s: A.Elems, ops: seq<A.Op>, e: A.Element, u: A.Unique)
    requires !AddsThenRemoves(ops) && u !in A.Uniques(s, e)
    ensures u !in A.Uniques(Back(s, ops, |ops|), e)
  {
    forall j: nat | j < |ops| ensures u !in TookIn(s, ops, j, e) {
      RunHas(s, ops, j, e, u);
    }
    RunHas(s, ops, |ops|, e, u);
    var t := BackTrace(s, ops, e, u, |ops|);
    if t[|ops|] { TraceHas(s, ops, e, u, t, |ops|); }
  }

  /** A unique that was added and whose element was removed later comes back. */
  lemma RemovedUniqueReturns(s: A.Elems, ops: seq<A.Op>, i: nat, j: nat, e: A.Element, u: A.Unique)
    requires Transaction(s, ops) && i < j < |ops| && u in AddedIn(ops[i], e) && NamedIn(ops[j], e) != {}
    ensures u in A.Uniques(Back(s, ops, |ops|), e)
  {
    var l: nat :| i < l <= j && u in NamedIn(ops[l], e);
    AddedStays(s, ops, i, l, e, u);
    assert u in A.Uniques(After(s, ops, l), e) ==> u in TookIn(s, ops, l, e);
    var l': nat :| i < l' <= l && u in TookIn(s, ops, l', e);
    TakenReturns(s, ops, l', e, u);
  }

  lemma {:induction false} UnaddedStaysOut(s: A.Elems, ops: seq<A.Op>, k: nat, e: A.Element)
    requires e !in s && k <= |ops| && forall i :: 0 <= i < k ==> AddedIn(ops[i], e) == {}
    ensures e !in After(s, ops, k)
  {
    if k > 0 {
      UnaddedStaysOut(s, ops, k - 1, e);
      AfterStep(s, ops, k - 1);
      assert AddedIn(ops[k - 1], e) == {};
    }
  }

  /** An element that was not in the set is not left behind without uniques. */
  lemma {:induction false} NoneLeftEmpty(s: A.Elems, ops: seq<A.Op>, k: nat, e: A.Element)
    requires Transaction(s, ops) && !AddsThenRemoves(ops) && e !in s && k <= |ops|
    ensures e in Back(s, ops, k) ==> Back(s, ops, k)[e] != {}
  {
    if k == 0 {
      OpsNeverLeaveEmpty(s, ops[..|ops|]);
    } else {
      NoneLeftEmpty(s, ops, k - 1, e);
      if NamedIn(ops[k - 1], e) != {} {
        UnaddedStaysOut(s, ops, k - 1, e);
      }
      UndoKeepsNonEmpty(Back(s, ops, k - 1), A.EffectOf(After(s, ops, k - 1), ops[k - 1]), e);
    }
  }

  lemma UndoKeepsNonEmpty(now: A.Elems, eff: A.Effect, e: A.Element)
    requires (e in now ==> now[e] != {}) && (eff.RemoveAllEffect? ==> e !in eff.removed)
    ensures e in A.Undo(now, eff) ==> A.Undo(now, eff)[e] != {}
  {
  }

  /** What a transaction is at the replica that prepared it, it is at every replica that does not hold the
      uniques it draws. */
  lemma PreparedIsTransaction(source: A.Elems, s: A.Elems, ops: seq<A.Op>)
    requires Prepared(source, ops) && A.NoneEmpty(s)
    requires forall i, e, u :: 0 <= i < |ops| && u in AddedIn(ops[i], e) ==> u !in A.Uniques(s, e)
    ensures Transaction(s, ops)
  {
    forall i, e | 0 <= i < |ops| && ops[i].DownRemoveAll? && e in ops[i].named ensures ops[i].named[e] != {} {
      OpsNeverLeaveEmpty(source, ops[..i]);
    }
    forall i, j, e, u | 0 <= i < j < |ops| && u in AddedIn(ops[i], e) && NamedIn(ops[j], e) != {}
      ensures exists l :: i < l <= j && u in NamedIn(ops[l], e)
    {
      AddedStays(source, ops, i, j, e, u);
    }
  }

  /** Undoing the effects of a transaction in the order they happened restores the set if and only if no
      element is added and then removed in it, at every replica. */
  lemma EntryReversesExactly(s: A.Elems, e: SetEntry)
    requires Transaction(s, e.ops) && e.effects == EffectsOf(SetKind(), s, e.ops)
    ensures Reverses(SetKind(), s, e) <==> !AddsThenRemoves(e.ops)
  {
    var ops := e.ops;
    UndoneIsBack(s, e);
    if AddsThenRemoves(ops) {
      var i, j, x, u := AddedThenRemoved(s, ops);
    } else {
      AllReturn(s, ops);
    }
  }

  lemma UndoneIsBack(s: A.Elems, e: SetEntry)
    requires e.effects == EffectsOf(SetKind(), s, e.ops)
    ensures UndoEffects(SetKind(), ApplyOps(SetKind(), s, e.ops), e.effects) == Back(s, e.ops, |e.ops|)
  {
    EffectsLength(s, e.ops);
    BackIsUndoEffects(s, e.ops, |e.ops|);
  }

  lemma AddedThenRemoved(s: A.Elems, ops: seq<A.Op>) returns (i: nat, j: nat, e: A.Element, u: A.Unique)
    requires Transaction(s, ops) && AddsThenRemoves(ops)
    ensures i < j < |ops| && u in AddedIn(ops[i], e)
    ensures u in A.Uniques(Back(s, ops, |ops|), e) && u !in A.Uniques(s, e)
  {
    i, j, e :| 0 <= i < j < |ops| && AddedIn(ops[i], e) != {} && NamedIn(ops[j], e) != {};
    u := ops[i].added[e];
    assert u in AddedIn(ops[i], e);
    RemovedUniqueReturns(s, ops, i, j, e, u);
  }

  lemma AllReturn(s: A.Elems, ops: seq<A.Op>)
    requires Transaction(s, ops) && !AddsThenRemoves(ops)
    ensures Back(s, ops, |ops|) == s
  {
    var back := Back(s, ops, |ops|);
    forall x ensures A.Uniques(back, x) == A.Uniques(s, x) && (x in back <==> x in s) {
      forall u ensures u in A.Uniques(back, x) <==> u in A.Uniques(s, x) {
        if u in A.Uniques(s, x) { OldUniquesReturn(s, ops, x, u); } else { NewUniquesGo(s, ops, x, u); }
      }
      assert A.Uniques(back, x) == A.Uniques(s, x);
      if x !in s { NoneLeftEmpty(s, ops, |ops|, x); }
    }
    A.SameElems(back, s);
  }

  lemma EffectsLength(s: A.Elems, ops: seq<A.Op>)
    ensures |EffectsOf(SetKind(), s, ops)| == |ops|
  {
    if ops != [] { EffectsAt(s, ops, 0); }
  }

  // ---------------------------------------------------------------- logs of transactions

  /** Every entry of the log holds a transaction. */
  ghost predicate TransactionLog(s: A.Elems, h: seq<SetEntry>) {
    forall i :: 0 <= i < |h| ==> Transaction(Replay(SetKind(), s, h[..i]), h[i].ops)
  }

  ghost predicate AddsIn(entry: SetEntry, e: A.Element, u: A.Unique) {
    exists a :: 0 <= a < |entry.ops| && u in AddedIn(entry.ops[a], e)
  }

  /** No unique is drawn twice: what an entry adds was not there at the start and no other entry adds it. */
  ghost predicate UniquesOnce(s: A.Elems, h: seq<SetEntry>) {
    && (forall i, e, u :: 0 <= i < |h| && AddsIn(h[i], e, u) ==> u !in A.Uniques(s, e))
    && (forall i, j, e, u :: 0 <= i < j < |h| && AddsIn(h[i], e, u) ==> !AddsIn(h[j], e, u))
  }

  /** A log of transactions with their effects, in which no unique is drawn twice. */
  ghost predicate Faithful(s: A.Elems, h: seq<SetEntry>) {
    TransactionLog(s, h) && Recorded(SetKind(), s, h) && UniquesOnce(s, h)
  }

  lemma EntryHas(s: A.Elems, entry: SetEntry, e: A.Element, u: A.Unique)
    requires u in A.Uniques(ApplyOps(SetKind(), s, entry.ops), e)
    ensures u in A.Uniques(s, e) || AddsIn(entry, e, u)
  {
    assert entry.ops[..|entry.ops|] == entry.ops;
    RunHas(s, entry.ops, |entry.ops|, e, u);
  }

  /** A unique that is there after the first n entries was there after the first k or was added since. */
  lemma {:induction false} ReplayHas(s: A.Elems, h: seq<SetEntry>, k: nat, n: nat, e: A.Element, u: A.Unique)
    requires k <= n <= |h| && u in A.Uniques(Replay(SetKind(), s, h[..n]), e)
    ensures u in A.Uniques(Replay(SetKind(), s, h[..k]), e) || exists i :: k <= i < n && AddsIn(h[i], e, u)
    decreases n
  {
    if k < n {
      assert h[..n][..n - 1] == h[..n - 1];
      EntryHas(Replay(SetKind(), s, h[..n - 1]), h[n - 1], e, u);
      if !AddsIn(h[n - 1], e, u) { ReplayHas(s, h, k, n - 1, e, u); }
    }
  }

  /** A unique that some entry from the k-th on adds is not there after the first k. */
  lemma AddedLaterIsOut(s: A.Elems, h: seq<SetEntry>, k: nat, n: nat, e: A.Element, u: A.Unique)
    requires UniquesOnce(s, h) && k <= n < |h| && AddsIn(h[n], e, u)
    ensures u !in A.Uniques(Replay(SetKind(), s, h[..k]), e)
  {
    if u in A.Uniques(Replay(SetKind(), s, h[..k]), e) {
      ReplayHas(s, h, 0, k, e, u);
    }
  }

  /** What undoing the effect takes out for e. */
  function TakenBy(eff: A.Effect, e: A.Element): set<A.Unique> {
    if eff.AddAllEffect? && e in eff.added then {eff.added[e]} else {}
  }

  lemma {:induction false} EffectsSpare(now: A.Elems, effects: seq<A.Effect>, e: A.Element, u: A.Unique)
    requires u in A.Uniques(now, e) && forall a :: 0 <= a < |effects| ==> u !in TakenBy(effects[a], e)
    ensures u in A.Uniques(UndoEffects(SetKind(), now, effects), e)
    decreases |effects|
  {
    if effects != [] {
      assert u !in TakenBy(effects[0], e);
      EffectsSpare(A.Undo(now, effects[0]), effects[1..], e, u);
    }
  }

  lemma EntrySpares(before: A.Elems, entry: SetEntry, now: A.Elems, e: A.Element, u: A.Unique)
    requires entry.effects == EffectsOf(SetKind(), before, entry.ops) && !AddsIn(entry, e, u) && u in A.Uniques(now, e)
    ensures u in A.Uniques(UndoEffects(SetKind(), now, entry.effects), e)
  {
    EffectsLength(before, entry.ops);
    forall a | 0 <= a < |entry.effects| ensures u !in TakenBy(entry.effects[a], e) {
      EffectsAt(before, entry.ops, a);
      assert u !in AddedIn(entry.ops[a], e);
    }
    EffectsSpare(now, entry.effects, e, u);
  }

  /** Undoing entries that did not add a unique leaves it where it is, in whatever state. */
  lemma {:induction false} UndoneSpares(s: A.Elems, h: seq<SetEntry>, now: A.Elems, n: nat, k: nat, e: A.Element, u: A.Unique)
    requires Recorded(SetKind(), s, h) && k <= n <= |h| && u in A.Uniques(now, e)
    requires forall i :: k <= i < n ==> !AddsIn(h[i], e, u)
    ensures u in A.Uniques(Undone(SetKind(), now, h[..n], k), e)
    decreases n
  {
    if k < n {
      EntrySpares(Replay(SetKind(), s, h[..n - 1]), h[n - 1], now, e, u);
      UndoneSpares(s, h, UndoEffects(SetKind(), now, h[n - 1].effects), n - 1, k, e, u);
      assert h[..n][..n - 1] == h[..n - 1];
    }
  }

  lemma Resurrected(s: A.Elems, h: seq<SetEntry>, back: A.Elems, n: nat, k: nat, e: A.Element, u: A.Unique)
    requires Recorded(SetKind(), s, h) && UniquesOnce(s, h) && k <= n < |h|
    requires AddsIn(h[n], e, u) && u in A.Uniques(back, e)
    ensures Undone(SetKind(), back, h[..n], k) != Replay(SetKind(), s, h[..k])
  {
    UndoneSpares(s, h, back, n, k, e, u);
    AddedLaterIsOut(s, h, k, n, e, u);
  }

  /** No entry from the k-th up to the n-th adds an element and removes it later. */
  ghost predicate NoneAddsThenRemoves(h: seq<SetEntry>, k: nat, n: nat)
    requires n <= |h|
  {
    forall i :: k <= i < n ==> !AddsThenRemoves(h[i].ops)
  }

  lemma EntryAt(s: A.Elems, h: seq<SetEntry>, n: nat)
    requires Faithful(s, h) && n < |h|
    ensures Transaction(Replay(SetKind(), s, h[..n]), h[n].ops)
    ensures h[n].effects == EffectsOf(SetKind(), Replay(SetKind(), s, h[..n]), h[n].ops)
  {
  }

  lemma UndoneWithoutThem(s: A.Elems, h: seq<SetEntry>, k: nat)
    requires Faithful(s, h) && k <= |h| && NoneAddsThenRemoves(h, k, |h|)
    ensures Undone(SetKind(), Replay(SetKind(), s, h), h, k) == Replay(SetKind(), s, h[..k])
  {
    forall i | k <= i < |h| ensures Reverses(SetKind(), Replay(SetKind(), s, h[..i]), h[i]) {
      EntryAt(s, h, i);
      EntryReversesExactly(Replay(SetKind(), s, h[..i]), h[i]);
    }
    UndoneIsReplay(SetKind(), s, h, k);
  }

  lemma {:induction false} LastOfThem(h: seq<SetEntry>, k: nat, n: nat) returns (i: nat)
    requires n <= |h| && !NoneAddsThenRemoves(h, k, n)
    ensures k <= i < n && AddsThenRemoves(h[i].ops) && NoneAddsThenRemoves(h, i + 1, n)
  {
    if AddsThenRemoves(h[n - 1].ops) {
      i := n - 1;
    } else {
      i := LastOfThem(h, k, n - 1);
    }
  }

  lemma ComesBack(s: A.Elems, h: seq<SetEntry>, n: nat, k: nat)
    requires Faithful(s, h) && k <= n < |h| && AddsThenRemoves(h[n].ops)
    ensures Undone(SetKind(), Replay(SetKind(), s, h[..n + 1]), h[..n + 1], k) != Replay(SetKind(), s, h[..k])
  {
    var before := Replay(SetKind(), s, h[..n]);
    EntryAt(s, h, n);
    UndoneIsBack(before, h[n]);
    var i, j, e, u := AddedThenRemoved(before, h[n].ops);
    assert h[..n + 1][..n] == h[..n];
    Resurrected(s, h, Back(before, h[n].ops, |h[n].ops|), n, k, e, u);
  }

  /** Undoing the entries from the k-th on, of any number of operations each, leads back to the replay of
      the first k if and only if none of them adds an element and removes it later. */
  lemma UndoneExactly(s: A.Elems, h: seq<SetEntry>, k: nat)
    requires Faithful(s, h) && k <= |h|
    ensures Undone(SetKind(), Replay(SetKind(), s, h), h, k) == Replay(SetKind(), s, h[..k])
       <==> NoneAddsThenRemoves(h, k, |h|)
  {
    if NoneAddsThenRemoves(h, k, |h|) {
      UndoneWithoutThem(s, h, k);
    } else {
      var i := LastOfThem(h, k, |h|);
      UndoneWithoutThem(s, h, i + 1);
      UndoneSplits(SetKind(), Replay(SetKind(), s, h), h, i + 1, k);
      ComesBack(s, h, i, k);
    }
  }

  /** A rebuild of a set that keeps only entries at most the target reaches the replay of the entries at
      most the target if and only if no entry that it undoes adds an element and removes it later. */
  lemma TransactionRebuildExactly(s: A.Elems, h: seq<SetEntry>, target: Clock)
    requires Faithful(s, h)
    ensures var r := Rebuilt(SetKind(), Replay(SetKind(), s, h), h, target);
            && (r.state == Replay(SetKind(), s, h[..Kept(h, target)])
                <==> NoneAddsThenRemoves(h, Kept(h, target), |h|))
            && (KeepsOnlyVisible(h, target) ==>
                  (r.state == Replay(SetKind(), s, Visible(h, target))
                   <==> NoneAddsThenRemoves(h, Kept(h, target), |h|)))
  {
    RebuildUndoesSuffix(SetKind(), Replay(SetKind(), s, h), h, target);
    UndoneExactly(s, h, Kept(h, target));
    KeptIsVisibleExactly(h, target);
  }

  // ---------------------------------------------------------------- where the conditions fail

  /** A transaction that adds an element to the empty set and removes it again is not undone. */
  lemma AddThenRemoveIsNotReversed(e: A.Element, u: A.Unique)
    ensures var ops := [A.DownAddAll(map[e := u]), A.DownRemoveAll(map[e := {u}])];
            && Prepared(map[], ops) && AddsThenRemoves(ops)
            && !Reverses(SetKind(), map[], Entry(map[1 := 1], ops, EffectsOf(SetKind(), map[], ops)))
  {
    var add, rem := A.DownAddAll(map[e := u]), A.DownRemoveAll(map[e := {u}]);
    var ops := [add, rem];
    assert ops[..1] == [add] && [add][..0] == [];
    assert After(map[], ops, 0) == map[];
    AfterStep(map[], ops, 0);
    assert After(map[], ops, 1) == map[e := {u}];
    assert AddedIn(ops[0], e) == {u} && NamedIn(ops[1], e) == {u};
    PreparedIsTransaction(map[], map[], ops);
    EntryReversesExactly(map[], Entry(map[1 := 1], ops, EffectsOf(SetKind(), map[], ops)));
  }
}
