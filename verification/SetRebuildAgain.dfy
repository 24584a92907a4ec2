/** Rebuilding a rebuilt copy of an add-wins set: the entry that the first rebuild left in the history is
    undone a second time, and this is harmless exactly if it brings nothing back. */
module SetRebuildAgain {
  import opened GoMaps
  import opened Clocks
  import opened UndoLog
  import opened TimeTravel
  import opened SetHistory
  import A = AddWinsSet

  // ---------------------------------------------------------------- what one more undo changes

  /** Undoing the effect changes nothing: what it would take out is out, and what it would put back is in. */
  ghost predicate Settled(s: A.Elems, eff: A.Effect) {
    match eff
    case AddAllEffect(added) => forall e :: e in added ==> added[e] !in A.Uniques(s, e)
    case RemoveAllEffect(removed) => forall e :: e in removed ==> e in s && removed[e] <= s[e]
  }

  lemma UndoAgainExactly(s: A.Elems, eff: A.Effect)
    requires A.NoneEmpty(s)
    ensures A.Undo(s, eff) == s <==> Settled(s, eff)
  {
    match eff
    case AddAllEffect(added) => UndoAddAgain(s, added);
    case RemoveAllEffect(removed) => UndoRemoveAgain(s, removed);
  }

  lemma UndoAddAgain(s: A.Elems, added: map<A.Element, A.Unique>)
    requires A.NoneEmpty(s)
    ensures A.Undo(s, A.AddAllEffect(added)) == s <==> Settled(s, A.AddAllEffect(added))
  {
    var back := A.Undo(s, A.AddAllEffect(added));
    if Settled(s, A.AddAllEffect(added)) {
      forall e ensures A.Uniques(back, e) == A.Uniques(s, e) && (e in back <==> e in s) {
        if e in added && e in s { assert s[e] - {added[e]} == s[e]; }
      }
      A.SameElems(back, s);
    } else {
      var e :| e in added && added[e] in A.Uniques(s, e);
      assert added[e] !in A.Uniques(back, e);
    }
  }

  lemma UndoRemoveAgain(s: A.Elems, removed: A.Elems)
    requires A.NoneEmpty(s)
    ensures A.Undo(s, A.RemoveAllEffect(removed)) == s <==> Settled(s, A.RemoveAllEffect(removed))
  {
    var back := A.Undo(s, A.RemoveAllEffect(removed));
    if Settled(s, A.RemoveAllEffect(removed)) {
      forall e ensures A.Uniques(back, e) == A.Uniques(s, e) && (e in back <==> e in s) {
        if e in removed { assert s[e] + removed[e] == s[e]; }
      }
      A.SameElems(back, s);
    } else {
      var e :| e in removed && !(e in s && removed[e] <= s[e]);
      assert e in back && (e in s ==> back[e] == s[e] + removed[e]);
    }
  }

  lemma EffectSettles(s: A.Elems, op: A.Op)
    requires A.NoneEmpty(s) && A.Fresh(s, op)
    ensures Settled(s, A.EffectOf(s, op))
  {
  }

  /** The effect of a retained entry with one operation. */
  lemma RetainedUndo(s: A.Elems, e: SetEntry)
    requires A.NoneEmpty(s) && |e.effects| == 1
    ensures UndoEffects(SetKind(), s, e.effects) == s <==> Settled(s, e.effects[0])
  {
    assert UndoEffects(SetKind(), s, e.effects) == UndoEffects(SetKind(), A.Undo(s, e.effects[0]), e.effects[1..]);
    UndoAgainExactly(s, e.effects[0]);
  }

  lemma OneEffect(s: A.Elems, h: seq<SetEntry>, i: nat)
    requires FreshLog(s, h) && Recorded(SetKind(), s, h) && i < |h|
    ensures h[i].effects == [A.EffectOf(Replay(SetKind(), s, h[..i]), h[i].ops[0])]
  {
    EffectsAt(Replay(SetKind(), s, h[..i]), h[i].ops, 0);
    assert h[i].ops[..0] == [];
  }

  lemma RetainedHasOneEffect(s: A.Elems, h: seq<SetEntry>, target: Clock)
    requires FreshLog(s, h) && Recorded(SetKind(), s, h) && Kept(h, target) < |h| && SomeHigher(h, Kept(h, target), target)
    ensures |Retained(h, target).effects| == 1
    ensures CompareOf(h[Kept(h, target)].ts, target) == HigherTs ==>
      Settled(Replay(SetKind(), s, h[..Kept(h, target)]), Retained(h, target).effects[0])
  {
    var k := Kept(h, target);
    OneEffect(s, h, RetainedAt(h, target));
    if CompareOf(h[k].ts, target) == HigherTs {
      ReplayNeverLeavesEmpty(s, h[..k]);
      EffectSettles(Replay(SetKind(), s, h[..k]), h[k].ops[0]);
    }
  }

  lemma UndoneForGoodIs(s: A.Elems, h: seq<SetEntry>, target: Clock)
    requires FreshLog(s, h) && Recorded(SetKind(), s, h) && Kept(h, target) < |h| && SomeHigher(h, Kept(h, target), target)
    ensures |Retained(h, target).effects| == 1
    ensures UndoneForGood(SetKind(), Replay(SetKind(), s, h), h, target)
       <==> Settled(Replay(SetKind(), s, h[..Kept(h, target)]), Retained(h, target).effects[0])
  {
    var k := Kept(h, target);
    FreshLogUndoes(s, h);
    RetainedHasOneEffect(s, h, target);
    UndoneIs(s, h, k);
    ReplayNeverLeavesEmpty(s, h[..k]);
    RetainedUndo(Replay(SetKind(), s, h[..k]), Retained(h, target));
  }

  lemma UndoneIs(s: A.Elems, h: seq<SetEntry>, k: nat)
    requires FreshLog(s, h) && Recorded(SetKind(), s, h) && k <= |h|
    ensures Undone(SetKind(), Replay(SetKind(), s, h), h, k) == Replay(SetKind(), s, h[..k])
  {
    FreshLogUndoes(s, h);
    forall i | k <= i < |h| ensures Reverses(SetKind(), Replay(SetKind(), s, h[..i]), h[i]) {
      OneEffectReverses(SetKind(), Replay(SetKind(), s, h[..i]), h[i]);
    }
    UndoneIsReplay(SetKind(), s, h, k);
  }

  /** After a first rebuild that undid something, a second rebuild of a set agrees with a direct one if the
      effect of the retained entry is settled in the kept entries, which is exact for the same target; and
      so always when the entry right after the kept ones is the one retained. */
  lemma SetSecondRebuild(s: A.Elems, h: seq<SetEntry>, ids: set<int>, t1: Clock, t2: Clock)
    requires FreshLog(s, h) && Recorded(SetKind(), s, h)
    requires SameIdsAll(h, ids) && t1.Keys == t2.Keys == ids && Leq(t2, t1)
    requires Kept(h, t1) < |h| && SomeHigher(h, Kept(h, t1), t1)
    ensures |Retained(h, t1).effects| == 1
    ensures var agrees := SecondAgrees(SetKind(), Replay(SetKind(), s, h), h, t1, t2);
            var settled := Settled(Replay(SetKind(), s, h[..Kept(h, t1)]), Retained(h, t1).effects[0]);
            && (settled ==> agrees) && (t1 == t2 ==> (agrees <==> settled))
            && (CompareOf(h[Kept(h, t1)].ts, t1) == HigherTs ==> agrees)
  {
    RetainedHasOneEffect(s, h, t1);
    UndoneForGoodIs(s, h, t1);
    SecondRebuildExactly(SetKind(), Replay(SetKind(), s, h), h, ids, t1, t2);
  }

  // ---------------------------------------------------------------- which uniques an undo brings back

  /** A log with its effects, over a set without empty elements, in which no unique is drawn twice. */
  ghost predicate DrawsOnce(s: A.Elems, h: seq<SetEntry>) {
    A.NoneEmpty(s) && Recorded(SetKind(), s, h) && UniquesOnce(s, h)
  }

  /** What undoing the effect puts back for e. */
  function PutBackBy(eff: A.Effect, e: A.Element): set<A.Unique> {
    if eff.RemoveAllEffect? && e in eff.removed then eff.removed[e] else {}
  }

  lemma {:induction false} PutBackBySome(now: A.Elems, effects: seq<A.Effect>, e: A.Element, u: A.Unique)
    requires u in A.Uniques(UndoEffects(SetKind(), now, effects), e)
    ensures u in A.Uniques(now, e) || exists a :: 0 <= a < |effects| && u in PutBackBy(effects[a], e)
    decreases |effects|
  {
    if effects != [] {
      var next := A.Undo(now, effects[0]);
      PutBackBySome(next, effects[1..], e, u);
      if u !in A.Uniques(next, e) {
        var a: nat :| a < |effects[1..]| && u in PutBackBy(effects[1..][a], e);
        assert effects[a + 1] == effects[1..][a];
      } else {
        assert u in A.Uniques(now, e) || u in PutBackBy(effects[0], e);
      }
    }
  }

  /** Undoing an entry puts back only what was there before the entry or was added in it. */
  lemma EntryPutsBack(before: A.Elems, entry: SetEntry, now: A.Elems, e: A.Element, u: A.Unique)
    requires entry.effects == EffectsOf(SetKind(), before, entry.ops)
    requires u in A.Uniques(UndoEffects(SetKind(), now, entry.effects), e)
    ensures u in A.Uniques(now, e) || u in A.Uniques(before, e) || AddsIn(entry, e, u)
  {
    EffectsLength(before, entry.ops);
    PutBackBySome(now, entry.effects, e, u);
    if u !in A.Uniques(now, e) {
      var a: nat :| a < |entry.effects| && u in PutBackBy(entry.effects[a], e);
      EffectsAt(before, entry.ops, a);
      RunHas(before, entry.ops, a, e, u);
    }
  }

  /** A unique that neither is there nor was seen by the entry does not come back. */
  lemma EntryKeepsOut(s: A.Elems, h: seq<SetEntry>, now: A.Elems, n: nat, e: A.Element, u: A.Unique)
    requires Recorded(SetKind(), s, h) && n < |h| && u !in A.Uniques(now, e)
    requires u !in A.Uniques(s, e) && forall i :: 0 <= i <= n ==> !AddsIn(h[i], e, u)
    ensures u !in A.Uniques(UndoEffects(SetKind(), now, h[n].effects), e)
  {
    if u in A.Uniques(UndoEffects(SetKind(), now, h[n].effects), e) {
      EntryPutsBack(Replay(SetKind(), s, h[..n]), h[n], now, e, u);
      ReplayHas(s, h, 0, n, e, u);
    }
  }

  /** A unique that is not there and that no entry has seen is not there after undoing entries. */
  lemma {:induction false} UndoneStaysOut(s: A.Elems, h: seq<SetEntry>, now: A.Elems, n: nat, k: nat, e: A.Element, u: A.Unique)
    requires Recorded(SetKind(), s, h) && k <= n <= |h| && u !in A.Uniques(now, e)
    requires u !in A.Uniques(s, e) && forall i :: 0 <= i < n ==> !AddsIn(h[i], e, u)
    ensures u !in A.Uniques(Undone(SetKind(), now, h[..n], k), e)
    decreases n
  {
    if k < n {
      EntryKeepsOut(s, h, now, n - 1, e, u);
      UndoneStaysOut(s, h, UndoEffects(SetKind(), now, h[n - 1].effects), n - 1, k, e, u);
      assert h[..n][..n - 1] == h[..n - 1];
    }
  }

  /** Undoing an entry from the k-th on takes nothing out of the replay of the first k. */
  lemma TakesNothingOut(s: A.Elems, h: seq<SetEntry>, k: nat, n: nat, e: A.Element)
    requires Recorded(SetKind(), s, h) && UniquesOnce(s, h) && k <= n < |h|
    ensures var x := Replay(SetKind(), s, h[..k]);
            A.Uniques(x, e) <= A.Uniques(UndoEffects(SetKind(), x, h[n].effects), e)
  {
    var x := Replay(SetKind(), s, h[..k]);
    forall u | u in A.Uniques(x, e) ensures u in A.Uniques(UndoEffects(SetKind(), x, h[n].effects), e) {
      if AddsIn(h[n], e, u) { AddedLaterIsOut(s, h, k, n, e, u); }
      EntrySpares(Replay(SetKind(), s, h[..n]), h[n], x, e, u);
    }
  }

  /** A unique that it puts back was added from the k-th entry on, so no entry before has seen it, and
      undoing those entries does not take it out again. */
  lemma PutBackStays(s: A.Elems, h: seq<SetEntry>, m: nat, k: nat, n: nat, e: A.Element, u: A.Unique)
    requires Recorded(SetKind(), s, h) && UniquesOnce(s, h) && m <= k <= n < |h|
    requires var x := Replay(SetKind(), s, h[..k]);
             u in A.Uniques(UndoEffects(SetKind(), x, h[n].effects), e) && u !in A.Uniques(x, e)
    ensures var x := Replay(SetKind(), s, h[..k]);
            Undone(SetKind(), UndoEffects(SetKind(), x, h[n].effects), h[..k], m) != Undone(SetKind(), x, h[..k], m)
  {
    var x := Replay(SetKind(), s, h[..k]);
    var y := UndoEffects(SetKind(), x, h[n].effects);
    EntryPutsBack(Replay(SetKind(), s, h[..n]), h[n], x, e, u);
    if u in A.Uniques(Replay(SetKind(), s, h[..n]), e) { ReplayHas(s, h, k, n, e, u); }
    var i: nat :| k <= i <= n && AddsIn(h[i], e, u);
    UndoneSpares(s, h, y, k, m, e, u);
    UndoneStaysOut(s, h, x, k, m, e, u);
  }

  // ---------------------------------------------------------------- elements put back without uniques

  ghost predicate SameAt(a: A.Elems, b: A.Elems, e: A.Element) {
    (e in a <==> e in b) && A.Uniques(a, e) == A.Uniques(b, e)
  }

  /** The element is missing in one and there without uniques in the other. */
  ghost predicate EmptyIn(a: A.Elems, b: A.Elems, e: A.Element) {
    e !in a && e in b && b[e] == {}
  }

  ghost predicate Names(eff: A.Effect, e: A.Element) {
    match eff
    case AddAllEffect(added) => e in added
    case RemoveAllEffect(removed) => e in removed
  }

  /** Some effect of the entry is about the element. */
  ghost predicate Mentions(entry: SetEntry, e: A.Element) {
    exists a :: 0 <= a < |entry.effects| && Names(entry.effects[a], e)
  }

  lemma UndoAt(a: A.Elems, b: A.Elems, eff: A.Effect, e: A.Element)
    ensures SameAt(a, b, e) ==> SameAt(A.Undo(a, eff), A.Undo(b, eff), e)
    ensures EmptyIn(a, b, e) && Names(eff, e) ==> SameAt(A.Undo(a, eff), A.Undo(b, eff), e)
    ensures EmptyIn(a, b, e) && !Names(eff, e) ==> EmptyIn(A.Undo(a, eff), A.Undo(b, eff), e)
  {
    if EmptyIn(a, b, e) && eff.RemoveAllEffect? && e in eff.removed {
      assert b[e] + eff.removed[e] == eff.removed[e];
    }
  }

  lemma {:induction false} UndoEffectsAt(a: A.Elems, b: A.Elems, effects: seq<A.Effect>, e: A.Element)
    ensures var a', b' := UndoEffects(SetKind(), a, effects), UndoEffects(SetKind(), b, effects);
            var named := exists i :: 0 <= i < |effects| && Names(effects[i], e);
            && (SameAt(a, b, e) ==> SameAt(a', b', e))
            && (EmptyIn(a, b, e) && named ==> SameAt(a', b', e))
            && (EmptyIn(a, b, e) && !named ==> EmptyIn(a', b', e))
    decreases |effects|
  {
    if effects != [] {
      var rest := effects[1..];
      UndoAt(a, b, effects[0], e);
      UndoEffectsAt(A.Undo(a, effects[0]), A.Undo(b, effects[0]), rest, e);
      assert forall i :: 0 <= i < |rest| ==> rest[i] == effects[i + 1];
      assert forall i :: 0 < i < |effects| ==> effects[i] == rest[i - 1];
    }
  }

  ghost predicate MentionedIn(h: seq<SetEntry>, m: nat, k: nat, e: A.Element)
    requires k <= |h|
  {
    exists i :: m <= i < k && Mentions(h[i], e)
  }

  lemma {:induction false} UndoneAt(a: A.Elems, b: A.Elems, h: seq<SetEntry>, m: nat, k: nat, e: A.Element)
    requires m <= k <= |h|
    ensures var a', b' := Undone(SetKind(), a, h[..k], m), Undone(SetKind(), b, h[..k], m);
            && (SameAt(a, b, e) ==> SameAt(a', b', e))
            && (EmptyIn(a, b, e) && MentionedIn(h, m, k, e) ==> SameAt(a', b', e))
            && (EmptyIn(a, b, e) && !MentionedIn(h, m, k, e) ==> EmptyIn(a', b', e))
    decreases k
  {
    if m < k {
      var effects := h[k - 1].effects;
      UndoEffectsAt(a, b, effects, e);
      UndoneAt(UndoEffects(SetKind(), a, effects), UndoEffects(SetKind(), b, effects), h, m, k - 1, e);
      assert h[..k][..k - 1] == h[..k - 1];
      assert MentionedIn(h, m, k, e) <==> MentionedIn(h, m, k - 1, e) || Mentions(h[k - 1], e);
    }
  }

  // ---------------------------------------------------------------- when two rebuilds agree with one

  /** Nothing comes back for e when x becomes y: no unique, and not e itself without uniques either, unless
      an entry that is still to be undone is about e. */
  ghost predicate NothingBackAt(x: A.Elems, y: A.Elems, h: seq<SetEntry>, m: nat, k: nat, e: A.Element)
    requires k <= |h|
  {
    A.Uniques(y, e) <= A.Uniques(x, e) && (e in y ==> e in x || MentionedIn(h, m, k, e))
  }

  ghost predicate NothingBack(x: A.Elems, y: A.Elems, h: seq<SetEntry>, m: nat, k: nat)
    requires k <= |h|
  {
    forall e :: NothingBackAt(x, y, h, m, k, e)
  }

  lemma BackAt(x: A.Elems, y: A.Elems, h: seq<SetEntry>, m: nat, k: nat, e: A.Element)
    requires A.NoneEmpty(x) && m <= k <= |h| && A.Uniques(x, e) == A.Uniques(y, e)
    ensures var x', y' := Undone(SetKind(), x, h[..k], m), Undone(SetKind(), y, h[..k], m);
            && (NothingBackAt(x, y, h, m, k, e) ==> SameAt(y', x', e))
            && (!NothingBackAt(x, y, h, m, k, e) ==> e !in x' && e in y')
  {
    UndoneAt(x, y, h, m, k, e);
    assert SameAt(x, y, e) || EmptyIn(x, y, e);
  }

  lemma SameEverywhere(a: A.Elems, b: A.Elems)
    requires forall e :: SameAt(a, b, e)
    ensures a == b
  {
    forall e ensures A.Uniques(a, e) == A.Uniques(b, e) && (e in a <==> e in b) {
      assert SameAt(a, b, e);
    }
    A.SameElems(a, b);
  }

  /** With the same uniques everywhere, only elements without uniques can make a difference. */
  lemma SameUniquesExactly(x: A.Elems, y: A.Elems, h: seq<SetEntry>, m: nat, k: nat)
    requires A.NoneEmpty(x) && m <= k <= |h| && forall e :: A.Uniques(x, e) == A.Uniques(y, e)
    ensures Undone(SetKind(), y, h[..k], m) == Undone(SetKind(), x, h[..k], m) <==> NothingBack(x, y, h, m, k)
  {
    var x', y' := Undone(SetKind(), x, h[..k], m), Undone(SetKind(), y, h[..k], m);
    if NothingBack(x, y, h, m, k) {
      forall e ensures SameAt(y', x', e) {
        assert NothingBackAt(x, y, h, m, k, e);
        BackAt(x, y, h, m, k, e);
      }
      SameEverywhere(y', x');
    } else {
      var e :| !NothingBackAt(x, y, h, m, k, e);
      BackAt(x, y, h, m, k, e);
    }
  }

  /** An entry undone on the replay of the first k. */
  function UndoneAgain(s: A.Elems, h: seq<SetEntry>, k: nat, entry: SetEntry): A.Elems
    requires k <= |h|
  {
    UndoEffects(SetKind(), Replay(SetKind(), s, h[..k]), entry.effects)
  }

  ghost predicate UniqueBack(x: A.Elems, y: A.Elems, e: A.Element, u: A.Unique) {
    u in A.Uniques(y, e) && u !in A.Uniques(x, e)
  }

  /** Undoing the retained entry on the replay of the kept ones puts nothing back that the entries still to
      be undone on the way to the second target would not remove. */
  ghost predicate PutsNothingBack(s: A.Elems, h: seq<SetEntry>, t1: Clock, t2: Clock)
    requires Kept(h, t1) < |h| && SomeHigher(h, Kept(h, t1), t1)
  {
    var k := Kept(h, t1);
    NothingBack(Replay(SetKind(), s, h[..k]), UndoneAgain(s, h, k, Retained(h, t1)), h, Kept(h, t2), k)
  }

  /** Undoing y and x back to the m-th entry leads to the same set. */
  ghost predicate UndoneSame(y: A.Elems, x: A.Elems, h: seq<SetEntry>, m: nat) {
    Undone(SetKind(), y, h, m) == Undone(SetKind(), x, h, m)
  }

  /** Undoing one entry again before the entries from the m-th up to the k-th makes no difference exactly
      if it puts nothing back. */
  lemma UndoneTwiceExactly(s: A.Elems, h: seq<SetEntry>, m: nat, k: nat, n: nat)
    requires DrawsOnce(s, h) && m <= k <= n < |h|
    ensures UndoneSame(UndoneAgain(s, h, k, h[n]), Replay(SetKind(), s, h[..k]), h[..k], m)
       <==> NothingBack(Replay(SetKind(), s, h[..k]), UndoneAgain(s, h, k, h[n]), h, m, k)
  {
    var x, y := Replay(SetKind(), s, h[..k]), UndoneAgain(s, h, k, h[n]);
    if e, u :| UniqueBack(x, y, e, u) {
      PutBackStays(s, h, m, k, n, e, u);
      assert !NothingBackAt(x, y, h, m, k, e);
    } else {
      forall e ensures A.Uniques(x, e) == A.Uniques(y, e) {
        TakesNothingOut(s, h, k, n, e);
        forall u | u in A.Uniques(y, e) ensures u in A.Uniques(x, e) { assert !UniqueBack(x, y, e, u); }
      }
      ReplayNeverLeavesEmpty(s, h[..k]);
      SameUniquesExactly(x, y, h, m, k);
    }
  }

  lemma AgreesIfUndoneSame(s: A.Elems, h: seq<SetEntry>, ids: set<int>, t1: Clock, t2: Clock)
    requires SameIdsAll(h, ids) && t1.Keys == t2.Keys == ids && Leq(t2, t1)
    requires Kept(h, t1) < |h| && SomeHigher(h, Kept(h, t1), t1)
    requires Undone(SetKind(), Replay(SetKind(), s, h), h, Kept(h, t1)) == Replay(SetKind(), s, h[..Kept(h, t1)])
    ensures Kept(h, t2) <= Kept(h, t1)
    ensures var k := Kept(h, t1);
            (SecondAgrees(SetKind(), Replay(SetKind(), s, h), h, t1, t2)
             <==> UndoneSame(UndoneAgain(s, h, k, Retained(h, t1)), Replay(SetKind(), s, h[..k]), h[..k], Kept(h, t2)))
  {
    SecondRebuildDiffers(SetKind(), Replay(SetKind(), s, h), h, ids, t1, t2, Replay(SetKind(), s, h[..Kept(h, t1)]));
  }

  /** When the first rebuild leads back to a replay, a second one agrees with a direct one exactly if undoing
      the retained entry again puts nothing back. */
  lemma AgreesExactly(s: A.Elems, h: seq<SetEntry>, ids: set<int>, t1: Clock, t2: Clock)
    requires DrawsOnce(s, h)
    requires SameIdsAll(h, ids) && t1.Keys == t2.Keys == ids && Leq(t2, t1)
    requires Kept(h, t1) < |h| && SomeHigher(h, Kept(h, t1), t1)
    requires Undone(SetKind(), Replay(SetKind(), s, h), h, Kept(h, t1)) == Replay(SetKind(), s, h[..Kept(h, t1)])
    ensures SecondAgrees(SetKind(), Replay(SetKind(), s, h), h, t1, t2) <==> PutsNothingBack(s, h, t1, t2)
  {
    AgreesIfUndoneSame(s, h, ids, t1, t2);
    UndoneTwiceExactly(s, h, Kept(h, t2), Kept(h, t1), RetainedAt(h, t1));
  }

  /** The effect took some unique of every element that it records. */
  ghost predicate TookFromEach(eff: A.Effect) {
    eff.RemoveAllEffect? ==> forall e :: e in eff.removed ==> eff.removed[e] != {}
  }

  lemma NothingBackIfSettled(s: A.Elems, h: seq<SetEntry>, m: nat, k: nat, n: nat)
    requires DrawsOnce(s, h) && m <= k <= n < |h| && |h[n].effects| == 1 && TookFromEach(h[n].effects[0])
    ensures NothingBack(Replay(SetKind(), s, h[..k]), UndoneAgain(s, h, k, h[n]), h, m, k)
       <==> Settled(Replay(SetKind(), s, h[..k]), h[n].effects[0])
  {
    var x, y, eff := Replay(SetKind(), s, h[..k]), UndoneAgain(s, h, k, h[n]), h[n].effects[0];
    ReplayNeverLeavesEmpty(s, h[..k]);
    RetainedUndo(x, h[n]);
    if y == x {
      assert forall e :: NothingBackAt(x, y, h, m, k, e);
    } else if eff.AddAllEffect? {
      DrawnLater(s, h, k, n);
    } else {
      RemoveUnsettled(x, h, m, k, h[n]);
    }
  }

  lemma DrawnLater(s: A.Elems, h: seq<SetEntry>, k: nat, n: nat)
    requires DrawsOnce(s, h) && k <= n < |h| && |h[n].effects| == 1 && h[n].effects[0].AddAllEffect?
    ensures Settled(Replay(SetKind(), s, h[..k]), h[n].effects[0])
  {
    var eff, ops := h[n].effects[0], h[n].ops;
    EffectsLength(Replay(SetKind(), s, h[..n]), ops);
    EffectsAt(Replay(SetKind(), s, h[..n]), ops, 0);
    forall e | e in eff.added ensures eff.added[e] !in A.Uniques(Replay(SetKind(), s, h[..k]), e) {
      assert eff.added[e] in AddedIn(ops[0], e);
      AddedLaterIsOut(s, h, k, n, e, eff.added[e]);
    }
  }

  lemma RemoveUnsettled(x: A.Elems, h: seq<SetEntry>, m: nat, k: nat, entry: SetEntry)
    requires k <= |h| && |entry.effects| == 1 && entry.effects[0].RemoveAllEffect? && TookFromEach(entry.effects[0])
    requires !Settled(x, entry.effects[0])
    ensures !NothingBack(x, UndoEffects(SetKind(), x, entry.effects), h, m, k)
  {
    var eff := entry.effects[0];
    var y := UndoEffects(SetKind(), x, entry.effects);
    assert y == UndoEffects(SetKind(), A.Undo(x, eff), entry.effects[1..]) == A.Undo(x, eff);
    var e :| e in eff.removed && !(e in x && eff.removed[e] <= x[e]);
    assert eff.removed[e] <= A.Uniques(y, e);
    assert !NothingBackAt(x, y, h, m, k, e);
  }

  /** For every target that is not later, a second rebuild of a set with one operation in each entry agrees
      with a direct one exactly if undoing the retained entry again puts nothing back; when its effect took
      some unique of every element that it records, exactly if it is settled in the kept entries. */
  lemma SetSecondRebuildExactly(s: A.Elems, h: seq<SetEntry>, ids: set<int>, t1: Clock, t2: Clock)
    requires FreshLog(s, h) && Recorded(SetKind(), s, h) && UniquesOnce(s, h)
    requires SameIdsAll(h, ids) && t1.Keys == t2.Keys == ids && Leq(t2, t1)
    requires Kept(h, t1) < |h| && SomeHigher(h, Kept(h, t1), t1)
    ensures |Retained(h, t1).effects| == 1
    ensures var agrees, eff := SecondAgrees(SetKind(), Replay(SetKind(), s, h), h, t1, t2), Retained(h, t1).effects[0];
            && (agrees <==> PutsNothingBack(s, h, t1, t2))
            && (TookFromEach(eff) ==> (agrees <==> Settled(Replay(SetKind(), s, h[..Kept(h, t1)]), eff)))
  {
    var k := Kept(h, t1);
    RetainedHasOneEffect(s, h, t1);
    UndoneIs(s, h, k);
    AgreesExactly(s, h, ids, t1, t2);
    if TookFromEach(Retained(h, t1).effects[0]) {
      KeptIsNotMore(h, ids, t1, t2);
      NothingBackIfSettled(s, h, Kept(h, t2), k, RetainedAt(h, t1));
    }
  }

  lemma KeptIsNotMore(h: seq<SetEntry>, ids: set<int>, t1: Clock, t2: Clock)
    requires SameIdsAll(h, ids) && t1.Keys == t2.Keys == ids && Leq(t2, t1)
    requires Kept(h, t1) < |h| && SomeHigher(h, Kept(h, t1), t1)
    ensures Kept(h, t2) <= Kept(h, t1)
  {
    SecondRebuild(SetKind(), map[], h, ids, t1, t2);
  }

  /** So also with several operations in each entry, when no entry undone first adds and then removes. */
  lemma TransactionSecondRebuildExactly(s: A.Elems, h: seq<SetEntry>, ids: set<int>, t1: Clock, t2: Clock)
    requires A.NoneEmpty(s) && Faithful(s, h) && NoneAddsThenRemoves(h, Kept(h, t1), |h|)
    requires SameIdsAll(h, ids) && t1.Keys == t2.Keys == ids && Leq(t2, t1)
    requires Kept(h, t1) < |h| && SomeHigher(h, Kept(h, t1), t1)
    ensures SecondAgrees(SetKind(), Replay(SetKind(), s, h), h, t1, t2) <==> PutsNothingBack(s, h, t1, t2)
  {
    UndoneExactly(s, h, Kept(h, t1));
    AgreesExactly(s, h, ids, t1, t2);
  }

  // ---------------------------------------------------------------- a set that fails

  lemma TwoEntries(e: A.Element, u: A.Unique, v: A.Unique, h: seq<SetEntry>)
    requires |h| == 2 && h[0].ops == [A.DownAddAll(map[e := u])] && h[1].ops == [A.DownRemoveAll(map[e := {v}])]
    requires h[0].effects == [A.AddAllEffect(map[e := u])] && h[1].effects == [A.RemoveAllEffect(map[e := {u} * {v}])]
    ensures FreshLog(map[], h) && Recorded(SetKind(), map[], h)
  {
    var add, rem := h[0].ops[0], h[1].ops[0];
    assert h[..0] == [] && h[..1] == [h[0]] && h[..1][..0] == [];
    assert [add][..0] == [] && [rem][..0] == [];
    assert Replay(SetKind(), map[], h[..0]) == map[];
    assert ApplyOps(SetKind(), map[], [add]) == A.Apply(map[], add) == map[e := {u}];
    assert Replay(SetKind(), map[], h[..1]) == map[e := {u}];
    assert EffectsOf(SetKind(), map[], [add]) == [A.EffectOf(map[], add)];
    assert A.RemovedPart(map[e := {u}], map[e := {v}]) == map[e := {u} * {v}];
    assert EffectsOf(SetKind(), map[e := {u}], [rem]) == [A.EffectOf(map[e := {u}], rem)];
  }

  lemma OneAdd(e: A.Element, u: A.Unique, h: seq<SetEntry>)
    requires |h| == 2 && h[0].ops == [A.DownAddAll(map[e := u])] && |h[1].ops| == 1 && h[1].ops[0].DownRemoveAll?
    ensures UniquesOnce(map[], h)
  {
    assert forall x, w :: !AddsIn(h[1], x, w);
  }

  lemma FailingClocks(h: seq<SetEntry>)
    requires |h| == 2 && h[0].ts == map[1 := 0, 2 := 1] && h[1].ts == map[1 := 1, 2 := 1]
    ensures var t1, t2 := map[1 := 1, 2 := 0], map[1 := 0, 2 := 0];
            && Less(t2, t1) && Leq(t2, t1) && Kept(h, t1) == 0 && Kept(h, t2) == 0
            && SomeHigher(h, 0, t1) && RetainedAt(h, t1) == 1
  {
    var c1, c2, t1, t2: Clock := h[0].ts, h[1].ts, map[1 := 1, 2 := 0], map[1 := 0, 2 := 0];
    assert c1[2] > Get(t1, 2) && c1[1] < Get(t1, 1) && CompareOf(c1, t1) == ConcurrentTs;
    assert c2[2] > Get(t1, 2) && CompareOf(c2, t1) == HigherTs;
    assert c1[2] > Get(t2, 2) && c2[2] > Get(t2, 2);
    assert t2[1] < Get(t1, 1);
    KeptIs(h, 0, t1);
    KeptIs(h, 0, t2);
    assert CompareOf(h[1].ts, t1) == HigherTs;
    assert SomeHigher(h, 0, t1);
  }

  lemma PutsBack(h: seq<SetEntry>, t1: Clock, t2: Clock, took: A.Elems)
    requires FreshLog(map[], h) && Recorded(SetKind(), map[], h)
    requires |h| == 2 && SameIdsAll(h, {1, 2}) && t1.Keys == t2.Keys == {1, 2} && Leq(t2, t1)
    requires Kept(h, t1) == Kept(h, t2) == 0 && SomeHigher(h, 0, t1) && RetainedAt(h, t1) == 1
    requires h[1].effects == [A.RemoveAllEffect(took)]
    ensures var once := Rebuilt(SetKind(), Replay(SetKind(), map[], h), h, t1);
            && once.ok && once.state == map[]
            && Rebuilt(SetKind(), once.state, once.history, t2).state == took
            && Rebuilt(SetKind(), Replay(SetKind(), map[], h), h, t2).state == map[]
  {
    UndoneIs(map[], h, 0);
    assert h[..0] == [];
    OnceRebuilt(SetKind(), Replay(SetKind(), map[], h), h, t1);
    SecondRebuild(SetKind(), Replay(SetKind(), map[], h), h, {1, 2}, t1, t2);
    UndoneOnEmpty(h[1], took);
  }

  lemma UndoneOnEmpty(entry: SetEntry, took: A.Elems)
    requires entry.effects == [A.RemoveAllEffect(took)]
    ensures UndoEffects(SetKind(), map[], entry.effects) == took
  {
    assert entry.effects[1..] == [];
    assert A.Restored(map[], took) == took;
  }

  /** A second rebuild of a set to an earlier target that does not agree: the add of u is concurrent to the
      first target, and the remove after it, which names v, is retained.  Undoing that remove twice puts the
      element back, with u if it named u and without uniques if it took nothing. */
  lemma SetSecondRebuildFails(e: A.Element, u: A.Unique, v: A.Unique)
    ensures var add, rem := A.DownAddAll(map[e := u]), A.DownRemoveAll(map[e := {v}]);
            var took: A.Elems := map[e := {u} * {v}];
            var h := [Entry(map[1 := 0, 2 := 1], [add], [A.AddAllEffect(map[e := u])]),
                      Entry(map[1 := 1, 2 := 1], [rem], [A.RemoveAllEffect(took)])];
            var t1: Clock, t2: Clock := map[1 := 1, 2 := 0], map[1 := 0, 2 := 0];
            var once := Rebuilt(SetKind(), Replay(SetKind(), map[], h), h, t1);
            && FreshLog(map[], h) && Recorded(SetKind(), map[], h) && UniquesOnce(map[], h) && Less(t2, t1)
            && once.ok && once.state == map[]
            && Rebuilt(SetKind(), once.state, once.history, t2).state == took
            && Rebuilt(SetKind(), Replay(SetKind(), map[], h), h, t2).state == map[]
  {
    var add, rem, took: A.Elems := A.DownAddAll(map[e := u]), A.DownRemoveAll(map[e := {v}]), map[e := {u} * {v}];
    var c1, c2, t1, t2: Clock := map[1 := 0, 2 := 1], map[1 := 1, 2 := 1], map[1 := 1, 2 := 0], map[1 := 0, 2 := 0];
    var first, last := Entry(c1, [add], [A.AddAllEffect(map[e := u])]), Entry(c2, [rem], [A.RemoveAllEffect(took)]);
    var h := [first, last];
    TwoEntries(e, u, v, h);
    OneAdd(e, u, h);
    FailingClocks(h);
    PutsBack(h, t1, t2, took);
  }
}
