/** What going back in time with the log of UndoLog means: which entries a rebuild undoes, which state it
    reaches, when it runs past the end of the history, and what garbage collection leaves unchanged. */
module TimeTravel {
  import opened GoMaps
  import opened Clocks
  import opened UndoLog

  // ---------------------------------------------------------------- any history

  /** The first entry that is higher than the target, or the length if there is none. */
  function FirstHigher<Op, Eff>(h: seq<Entry<Op, Eff>>, target: Clock): (p: nat)
    ensures p <= |h|
    ensures forall i :: 0 <= i < p ==> CompareOf(h[i].ts, target) != HigherTs
    ensures p < |h| ==> CompareOf(h[p].ts, target) == HigherTs
  {
    if h == [] then 0 else if CompareOf(h[0].ts, target) == HigherTs then 0 else 1 + FirstHigher(h[1..], target)
  }

  /** Drop the entries before the first higher one, keep that one and hide the rest. */
  function Skipped<S, Op, Eff>(s: S, kept: seq<Entry<Op, Eff>>, rest: seq<Entry<Op, Eff>>, target: Clock): Rebuild<S, Op, Eff> {
    var p := FirstHigher(rest, target);
    if p < |rest| then Rebuild(s, kept + [rest[p]], true) else Rebuild(s, kept, false)
  }

  /** Over entries of which none is at most the target, the pass forward re-applies nothing: it drops
      concurrent entries until it meets a higher one, which it keeps, or the end of the history. */
  lemma {:induction false} ForwardOnlySkips<S, Op, Eff>(
      kind: Kind<S, Op, Eff>, s: S, kept: seq<Entry<Op, Eff>>, rest: seq<Entry<Op, Eff>>, target: Clock)
    requires forall i :: 0 <= i < |rest| ==> !Leq(rest[i].ts, target)
    ensures Forward(kind, s, kept, rest, target) == Skipped(s, kept, rest, target)
    decreases |rest|
  {
    if rest != [] {
      NotBelowIsHigherOrConcurrent(rest[0].ts, target);
      if CompareOf(rest[0].ts, target) == ConcurrentTs {
        ForwardOnlySkips(kind, s, kept, rest[1..], target);
      }
    }
  }

  /** A rebuild that undoes the entries from the k-th on and re-applies none. */
  function SkipFrom<S, Op, Eff>(kind: Kind<S, Op, Eff>, s: S, h: seq<Entry<Op, Eff>>, k: nat, target: Clock): Rebuild<S, Op, Eff>
    requires k <= |h|
  {
    if k == |h| then Rebuild(s, h, true) else Skipped(Undone(kind, s, h, k), h[..k], h[k..], target)
  }

  lemma NeverReapplies<S, Op, Eff>(kind: Kind<S, Op, Eff>, s: S, h: seq<Entry<Op, Eff>>, target: Clock)
    ensures Rebuilt(kind, s, h, target) == SkipFrom(kind, s, h, Kept(h, target), target)
  {
    var k := Kept(h, target);
    if k < |h| {
      KeptIsLast(h, target);
      ForwardOnlySkips(kind, Undone(kind, s, h, k), h[..k], h[k..], target);
    }
  }

  ghost predicate SomeHigher<Op, Eff>(h: seq<Entry<Op, Eff>>, from: nat, target: Clock) {
    exists i :: from <= i < |h| && CompareOf(h[i].ts, target) == HigherTs
  }

  /** For every history and target a rebuild undoes exactly the entries after the last one that is at
      most the target, and it stays within the history if and only if it undoes nothing or undoes some
      entry that is higher than the target.  The first such entry stays in the history. */
  lemma RebuildUndoesSuffix<S, Op, Eff>(kind: Kind<S, Op, Eff>, s: S, h: seq<Entry<Op, Eff>>, target: Clock)
    ensures var k, r := Kept(h, target), Rebuilt(kind, s, h, target);
            && r.state == Undone(kind, s, h, k)
            && (r.ok <==> k == |h| || SomeHigher(h, k, target))
            && (k == |h| ==> r.history == h)
            && (k < |h| && r.ok ==>
                  exists i :: k <= i < |h| && CompareOf(h[i].ts, target) == HigherTs && r.history == h[..k] + [h[i]])
  {
    var k := Kept(h, target);
    if k < |h| {
      var rest := h[k..];
      NeverReapplies(kind, s, h, target);
      var p := FirstHigher(rest, target);
      assert p < |rest| ==> rest[p] == h[k + p];
      if i :| k <= i < |h| && CompareOf(h[i].ts, target) == HigherTs {
        assert rest[i - k] == h[i];
      }
    } else {
      assert Undone(kind, s, h, k) == s;
    }
  }

  /** A history on which the index runs past the end: one entry, concurrent to the target. */
  lemma RebuildMayPanic<S, Op, Eff>(kind: Kind<S, Op, Eff>, s: S, ops: seq<Op>, effects: seq<Eff>)
    ensures !Rebuilt(kind, s, [Entry(map[1 := 0, 2 := 1], ops, effects)], map[1 := 1, 2 := 0]).ok
  {
    var ts, target: Clock := map[1 := 0, 2 := 1], map[1 := 1, 2 := 0];
    var h := [Entry(ts, ops, effects)];
    assert ts[2] > Get(target, 2) && ts[1] < Get(target, 1);
    assert CompareOf(ts, target) == ConcurrentTs;
    KeptIsLast(h, target);
    RebuildUndoesSuffix(kind, s, h, target);
  }

  /** Undoing an entry takes back what its operations did. */
  ghost predicate Reverses<S, Op, Eff>(kind: Kind<S, Op, Eff>, s: S, e: Entry<Op, Eff>) {
    UndoEffects(kind, ApplyOps(kind, s, e.ops), e.effects) == s
  }

  lemma {:induction false} UndoneIsReplay<S, Op, Eff>(kind: Kind<S, Op, Eff>, s: S, h: seq<Entry<Op, Eff>>, k: nat)
    requires k <= |h| && forall i :: k <= i < |h| ==> Reverses(kind, Replay(kind, s, h[..i]), h[i])
    ensures Undone(kind, Replay(kind, s, h), h, k) == Replay(kind, s, h[..k])
    decreases |h|
  {
    if k < |h| {
      var front := h[..|h| - 1];
      assert Reverses(kind, Replay(kind, s, front), h[|h| - 1]);
      forall i | k <= i < |front| ensures Reverses(kind, Replay(kind, s, front[..i]), front[i]) {
        assert front[..i] == h[..i];
        assert Reverses(kind, Replay(kind, s, h[..i]), h[i]);
      }
      UndoneIsReplay(kind, s, front, k);
      assert front[..k] == h[..k];
    } else {
      assert h[..k] == h;
    }
  }

  // ---------------------------------------------------------------- one operation in each entry

  ghost predicate OneEach<Op, Eff>(h: seq<Entry<Op, Eff>>) {
    forall i :: 0 <= i < |h| ==> |h[i].ops| == 1
  }

  /** The effect of the entry's operation undoes it. */
  ghost predicate EffectUndoes<S, Op, Eff>(kind: Kind<S, Op, Eff>, s: S, op: Op) {
    kind.undo(kind.apply(s, op), kind.effect(s, op)) == s
  }

  lemma OneEffectReverses<S, Op, Eff>(kind: Kind<S, Op, Eff>, s: S, e: Entry<Op, Eff>)
    requires |e.ops| == 1 && e.effects == EffectsOf(kind, s, e.ops) && EffectUndoes(kind, s, e.ops[0])
    ensures Reverses(kind, s, e)
  {
    assert ApplyOps(kind, s, e.ops[..0]) == s;
    assert e.effects == [kind.effect(s, e.ops[0])];
    assert UndoEffects(kind, ApplyOps(kind, s, e.ops), e.effects)
        == UndoEffects(kind, kind.undo(ApplyOps(kind, s, e.ops), e.effects[0]), e.effects[1..]);
  }

  /** With one operation in each entry a rebuild replays the entries it keeps. */
  lemma RebuildIsReplay<S, Op, Eff>(kind: Kind<S, Op, Eff>, s: S, h: seq<Entry<Op, Eff>>, target: Clock)
    requires OneEach(h) && Recorded(kind, s, h)
    requires forall i :: 0 <= i < |h| ==> EffectUndoes(kind, Replay(kind, s, h[..i]), h[i].ops[0])
    ensures Rebuilt(kind, Replay(kind, s, h), h, target).state == Replay(kind, s, h[..Kept(h, target)])
  {
    var k := Kept(h, target);
    RebuildUndoesSuffix(kind, Replay(kind, s, h), h, target);
    forall i | k <= i < |h| ensures Reverses(kind, Replay(kind, s, h[..i]), h[i]) {
      OneEffectReverses(kind, Replay(kind, s, h[..i]), h[i]);
    }
    UndoneIsReplay(kind, s, h, k);
  }

  /** The entries that are at most the target. */
  function Visible<Op, Eff>(h: seq<Entry<Op, Eff>>, target: Clock): seq<Entry<Op, Eff>> {
    if h == [] then []
    else Visible(h[..|h| - 1], target) + (if Leq(h[|h| - 1].ts, target) then [h[|h| - 1]] else [])
  }

  /** Every entry that a rebuild keeps is at most the target. */
  ghost predicate KeepsOnlyVisible<Op, Eff>(h: seq<Entry<Op, Eff>>, target: Clock) {
    forall i :: 0 <= i < Kept(h, target) ==> Leq(h[i].ts, target)
  }

  lemma {:induction false} AllVisible<Op, Eff>(h: seq<Entry<Op, Eff>>, target: Clock)
    ensures |Visible(h, target)| <= |h|
    ensures |Visible(h, target)| == |h| ==> Visible(h, target) == h
    ensures |Visible(h, target)| == |h| <==> forall i :: 0 <= i < |h| ==> Leq(h[i].ts, target)
  {
    if h != [] {
      AllVisible(h[..|h| - 1], target);
      assert h == h[..|h| - 1] + [h[|h| - 1]];
    }
  }

  lemma {:induction false} VisibleIsKept<Op, Eff>(h: seq<Entry<Op, Eff>>, target: Clock)
    ensures Visible(h, target) == Visible(h[..Kept(h, target)], target)
  {
    if h != [] && !Leq(h[|h| - 1].ts, target) {
      VisibleIsKept(h[..|h| - 1], target);
      assert h[..|h| - 1][..Kept(h, target)] == h[..Kept(h, target)];
    } else {
      assert h[..|h|] == h;
    }
  }

  /** What a rebuild keeps are the entries at most the target if and only if it keeps no other: the scan
      from the end stops at the first entry at most the target, whatever lies before it. */
  lemma KeptIsVisibleExactly<Op, Eff>(h: seq<Entry<Op, Eff>>, target: Clock)
    ensures Visible(h, target) == h[..Kept(h, target)] <==> KeepsOnlyVisible(h, target)
  {
    var kept := h[..Kept(h, target)];
    VisibleIsKept(h, target);
    AllVisible(kept, target);
    assert forall i :: 0 <= i < |kept| ==> kept[i] == h[i];
  }

  /** Rebuild is exact: for every history with one operation in each entry, concurrent clocks included,
      of which it keeps only entries at most the target, the state after a rebuild is the replay of exactly
      the entries at most the target. */
  lemma RebuildIsExact<S, Op, Eff>(kind: Kind<S, Op, Eff>, s: S, h: seq<Entry<Op, Eff>>, target: Clock)
    requires OneEach(h) && Recorded(kind, s, h) && KeepsOnlyVisible(h, target)
    requires forall i :: 0 <= i < |h| ==> EffectUndoes(kind, Replay(kind, s, h[..i]), h[i].ops[0])
    ensures Rebuilt(kind, Replay(kind, s, h), h, target).state == Replay(kind, s, Visible(h, target))
  {
    RebuildIsReplay(kind, s, h, target);
    KeptIsVisibleExactly(h, target);
  }

  /** A history on which it is not: the last entry equals the target, so nothing is undone, and the
      concurrent entry before it stays. */
  lemma ConcurrentEntryStays<S, Op, Eff>(kind: Kind<S, Op, Eff>, s: S, first: Entry<Op, Eff>, last: Entry<Op, Eff>)
    requires first.ts == map[1 := 0, 2 := 1] && last.ts == map[1 := 1, 2 := 0]
    ensures var h, target := [first, last], last.ts;
            && Rebuilt(kind, s, h, target) == Rebuild(s, h, true)
            && CompareOf(first.ts, target) == ConcurrentTs && Visible(h, target) == [last]
  {
    var h, target := [first, last], last.ts;
    assert first.ts[2] > Get(target, 2) && first.ts[1] < Get(target, 1);
    assert Leq(last.ts, target);
    assert h[..1] == [first] && [first][..0] == [];
    assert !Leq(first.ts, target);
    assert Visible([first], target) == Visible([first][..0], target) + [];
  }

  // ---------------------------------------------------------------- histories that are a chain

  /** Clocks over the same ids as the target, each strictly above the one before. */
  ghost predicate Chain<Op, Eff>(h: seq<Entry<Op, Eff>>, ids: set<int>) {
    && (forall i :: 0 <= i < |h| ==> h[i].ts.Keys == ids)
    && forall i, j :: 0 <= i < j < |h| ==> Less(h[i].ts, h[j].ts)
  }

  /** Logging at a strictly later clock gives every operation an entry of its own. */
  lemma LoggedKeepsChain<Op, Eff>(h: seq<Entry<Op, Eff>>, ids: set<int>, ts: Clock, op: Op, eff: Eff)
    requires Chain(h, ids) && OneEach(h) && ts.Keys == ids && (h != [] ==> Less(h[|h| - 1].ts, ts))
    ensures Chain(Logged(h, ts, op, eff), ids) && OneEach(Logged(h, ts, op, eff))
  {
    if h != [] {
      CompareDecides(h[|h| - 1].ts, ts);
    }
    var h' := Logged(h, ts, op, eff);
    forall i, j | 0 <= i < j < |h'| ensures Less(h'[i].ts, h'[j].ts) {
      if j == |h| {
        LeqIsPartialOrder(h[i].ts, h[|h| - 1].ts, ts);
      }
    }
  }

  /** A chain keeps only entries at most the target. */
  lemma ChainKeepsOnlyVisible<Op, Eff>(h: seq<Entry<Op, Eff>>, ids: set<int>, target: Clock)
    requires Chain(h, ids) && target.Keys == ids
    ensures KeepsOnlyVisible(h, target)
  {
    var k := Kept(h, target);
    KeptIsLast(h, target);
    forall i | 0 <= i < k ensures Leq(h[i].ts, target) {
      if i < k - 1 {
        assert Less(h[i].ts, h[k - 1].ts);
        LeqIsPartialOrder(h[i].ts, h[k - 1].ts, target);
      }
    }
  }

  lemma ChainRebuildIsExact<S, Op, Eff>(kind: Kind<S, Op, Eff>, s: S, h: seq<Entry<Op, Eff>>, ids: set<int>, target: Clock)
    requires Chain(h, ids) && target.Keys == ids && OneEach(h) && Recorded(kind, s, h)
    requires forall i :: 0 <= i < |h| ==> EffectUndoes(kind, Replay(kind, s, h[..i]), h[i].ops[0])
    ensures Rebuilt(kind, Replay(kind, s, h), h, target).state == Replay(kind, s, Visible(h, target))
  {
    ChainKeepsOnlyVisible(h, ids, target);
    RebuildIsExact(kind, s, h, target);
  }

  // ---------------------------------------------------------------- rebuilding a rebuilt copy

  /** All clocks are over the same ids. */
  ghost predicate SameIdsAll<Op, Eff>(h: seq<Entry<Op, Eff>>, ids: set<int>) {
    forall i :: 0 <= i < |h| ==> h[i].ts.Keys == ids
  }

  lemma {:induction false} UndoneSplits<S, Op, Eff>(kind: Kind<S, Op, Eff>, s: S, h: seq<Entry<Op, Eff>>, k: nat, m: nat)
    requires m <= k <= |h|
    ensures Undone(kind, s, h, m) == Undone(kind, Undone(kind, s, h, k), h[..k], m)
    decreases |h|
  {
    if k < |h| {
      UndoneSplits(kind, UndoEffects(kind, s, h[|h| - 1].effects), h[..|h| - 1], k, m);
      assert h[..|h| - 1][..k] == h[..k];
    } else {
      assert h[..k] == h;
    }
  }

  lemma KeptIs<Op, Eff>(h: seq<Entry<Op, Eff>>, k: nat, target: Clock)
    requires k <= |h| && (k > 0 ==> Leq(h[k - 1].ts, target)) && forall i :: k <= i < |h| ==> !Leq(h[i].ts, target)
    ensures Kept(h, target) == k
  {
    KeptIsLast(h, target);
  }

  /** The history of a rebuilt copy keeps, for a target that is not later, what the original keeps. */
  lemma RebuiltKeeps<Op, Eff>(h: seq<Entry<Op, Eff>>, k: nat, e: Entry<Op, Eff>, ids: set<int>, t1: Clock, t2: Clock)
    requires SameIdsAll(h, ids) && t1.Keys == t2.Keys == e.ts.Keys == ids && Leq(t2, t1)
    requires k == Kept(h, t1) && !Leq(e.ts, t1)
    ensures Kept(h, t2) <= k && Kept(h[..k] + [e], t2) == Kept(h, t2)
  {
    var m := Kept(h, t2);
    KeptIsLast(h, t1);
    KeptIsLast(h, t2);
    if m > 0 { LeqIsPartialOrder(h[m - 1].ts, t2, t1); }
    LeqIsPartialOrder(e.ts, t2, t1);
    KeptIs(h[..k] + [e], m, t2);
  }

  lemma HigherIsFound<Op, Eff>(h: seq<Entry<Op, Eff>>, k: nat, target: Clock)
    requires k < |h| && SomeHigher(h, k, target)
    ensures var p := FirstHigher(h[k..], target);
            && k + p < |h| && CompareOf(h[k + p].ts, target) == HigherTs
            && (CompareOf(h[k].ts, target) == HigherTs ==> p == 0)
  {
    var p := FirstHigher(h[k..], target);
    var i :| k <= i < |h| && CompareOf(h[i].ts, target) == HigherTs;
    assert h[k..][i - k] == h[i] && h[k..][0] == h[k];
    assert p < |h[k..]| ==> h[k..][p] == h[k + p];
  }

  /** Where the entry is that a rebuild to the target leaves at the end of its history. */
  function RetainedAt<Op, Eff>(h: seq<Entry<Op, Eff>>, target: Clock): (i: nat)
    requires Kept(h, target) < |h| && SomeHigher(h, Kept(h, target), target)
    ensures Kept(h, target) <= i < |h| && CompareOf(h[i].ts, target) == HigherTs
    ensures CompareOf(h[Kept(h, target)].ts, target) == HigherTs ==> i == Kept(h, target)
  {
    var k := Kept(h, target);
    HigherIsFound(h, k, target);
    k + FirstHigher(h[k..], target)
  }

  function Retained<Op, Eff>(h: seq<Entry<Op, Eff>>, target: Clock): Entry<Op, Eff>
    requires Kept(h, target) < |h| && SomeHigher(h, Kept(h, target), target)
  {
    h[RetainedAt(h, target)]
  }

  lemma RetainedIsAbove<Op, Eff>(h: seq<Entry<Op, Eff>>, ids: set<int>, target: Clock)
    requires SameIdsAll(h, ids) && Kept(h, target) < |h| && SomeHigher(h, Kept(h, target), target)
    ensures Retained(h, target).ts.Keys == ids && !Leq(Retained(h, target).ts, target)
  {
    NotBelowIsHigherOrConcurrent(Retained(h, target).ts, target);
  }

  lemma OnceRebuilt<S, Op, Eff>(kind: Kind<S, Op, Eff>, s: S, h: seq<Entry<Op, Eff>>, target: Clock)
    requires Kept(h, target) < |h| && SomeHigher(h, Kept(h, target), target)
    ensures Rebuilt(kind, s, h, target)
         == Rebuild(Undone(kind, s, h, Kept(h, target)), h[..Kept(h, target)] + [Retained(h, target)], true)
  {
    HigherIsFound(h, Kept(h, target), target);
    NeverReapplies(kind, s, h, target);
  }

  /** What two rebuilds in a row do, and one directly to the second target: they differ by undoing the
      retained entry a second time. */
  lemma SecondRebuild<S, Op, Eff>(kind: Kind<S, Op, Eff>, s: S, h: seq<Entry<Op, Eff>>, ids: set<int>, t1: Clock, t2: Clock)
    requires SameIdsAll(h, ids) && t1.Keys == t2.Keys == ids && Leq(t2, t1)
    requires Kept(h, t1) < |h| && SomeHigher(h, Kept(h, t1), t1)
    ensures var k, m, once := Kept(h, t1), Kept(h, t2), Rebuilt(kind, s, h, t1);
            && m <= k
            && Rebuilt(kind, once.state, once.history, t2).state
            == Undone(kind, UndoEffects(kind, once.state, Retained(h, t1).effects), h[..k], m)
            && Rebuilt(kind, s, h, t2).state == Undone(kind, once.state, h[..k], m)
  {
    var k, m, e := Kept(h, t1), Kept(h, t2), Retained(h, t1);
    var s1, h1 := Undone(kind, s, h, k), h[..k] + [e];
    OnceRebuilt(kind, s, h, t1);
    RetainedIsAbove(h, ids, t1);
    RebuiltKeeps(h, k, e, ids, t1, t2);
    RebuildUndoesSuffix(kind, s1, h1, t2);
    RebuildUndoesSuffix(kind, s, h, t2);
    UndoneLast(kind, s1, h[..k], e, m);
    UndoneSplits(kind, s, h, k, m);
  }

  lemma UndoneLast<S, Op, Eff>(kind: Kind<S, Op, Eff>, s: S, h: seq<Entry<Op, Eff>>, e: Entry<Op, Eff>, m: nat)
    requires m <= |h|
    ensures Undone(kind, s, h + [e], m) == Undone(kind, UndoEffects(kind, s, e.effects), h, m)
  {
    assert (h + [e])[..|h|] == h;
  }

  /** Undoing the effects keeps different states different. */
  ghost predicate UndoneApart<S(!new), Op, Eff>(kind: Kind<S, Op, Eff>, effects: seq<Eff>) {
    forall a, b :: UndoEffects(kind, a, effects) == UndoEffects(kind, b, effects) ==> a == b
  }

  lemma {:induction false} UndoneStaysApart<S(!new), Op, Eff>(kind: Kind<S, Op, Eff>, a: S, b: S, h: seq<Entry<Op, Eff>>, m: nat)
    requires forall i :: m <= i < |h| ==> UndoneApart(kind, h[i].effects)
    requires Undone(kind, a, h, m) == Undone(kind, b, h, m)
    ensures a == b
    decreases |h|
  {
    if m < |h| {
      var n := |h| - 1;
      UndoneStaysApart(kind, UndoEffects(kind, a, h[n].effects), UndoEffects(kind, b, h[n].effects), h[..n], m);
      assert UndoneApart(kind, h[n].effects);
    }
  }

  /** Undoing the retained entry on the once rebuilt state changes nothing. */
  ghost predicate UndoneForGood<S, Op, Eff>(kind: Kind<S, Op, Eff>, s: S, h: seq<Entry<Op, Eff>>, target: Clock)
    requires Kept(h, target) < |h| && SomeHigher(h, Kept(h, target), target)
  {
    var s1 := Undone(kind, s, h, Kept(h, target));
    UndoEffects(kind, s1, Retained(h, target).effects) == s1
  }

  /** A rebuild to t1 and then to t2 reaches the state of a rebuild to t2. */
  ghost predicate SecondAgrees<S, Op, Eff>(kind: Kind<S, Op, Eff>, s: S, h: seq<Entry<Op, Eff>>, t1: Clock, t2: Clock) {
    var once := Rebuilt(kind, s, h, t1);
    Rebuilt(kind, once.state, once.history, t2).state == Rebuilt(kind, s, h, t2).state
  }

  /** From the once rebuilt state x the two differ by undoing the retained entry. */
  lemma SecondRebuildDiffers<S, Op, Eff>(kind: Kind<S, Op, Eff>, s: S, h: seq<Entry<Op, Eff>>, ids: set<int>, t1: Clock, t2: Clock, x: S)
    requires SameIdsAll(h, ids) && t1.Keys == t2.Keys == ids && Leq(t2, t1)
    requires Kept(h, t1) < |h| && SomeHigher(h, Kept(h, t1), t1) && x == Undone(kind, s, h, Kept(h, t1))
    ensures Kept(h, t2) <= Kept(h, t1)
    ensures var k, m := Kept(h, t1), Kept(h, t2);
            (SecondAgrees(kind, s, h, t1, t2)
             <==> Undone(kind, UndoEffects(kind, x, Retained(h, t1).effects), h[..k], m) == Undone(kind, x, h[..k], m))
  {
    SecondRebuild(kind, s, h, ids, t1, t2);
    OnceRebuilt(kind, s, h, t1);
  }

  /** A first rebuild that undoes nothing leaves the copy as it is. */
  lemma NothingUndoneAgrees<S, Op, Eff>(kind: Kind<S, Op, Eff>, s: S, h: seq<Entry<Op, Eff>>, t1: Clock, t2: Clock)
    requires Kept(h, t1) == |h|
    ensures SecondAgrees(kind, s, h, t1, t2)
  {
    NeverReapplies(kind, s, h, t1);
  }

  /** After a first rebuild that undid something, rebuilding the copy to a target that is not later gives the
      state of a direct rebuild if undoing the retained entry again changes nothing; and only then, when
      undoing the entries between the two targets keeps different states apart (for equal targets there
      are none). */
  lemma SecondRebuildExactly<S(!new), Op, Eff>(kind: Kind<S, Op, Eff>, s: S, h: seq<Entry<Op, Eff>>, ids: set<int>, t1: Clock, t2: Clock)
    requires SameIdsAll(h, ids) && t1.Keys == t2.Keys == ids && Leq(t2, t1)
    requires Kept(h, t1) < |h| && SomeHigher(h, Kept(h, t1), t1)
    ensures UndoneForGood(kind, s, h, t1) ==> SecondAgrees(kind, s, h, t1, t2)
    ensures (forall i :: Kept(h, t2) <= i < Kept(h, t1) ==> UndoneApart(kind, h[i].effects)) ==>
      (SecondAgrees(kind, s, h, t1, t2) <==> UndoneForGood(kind, s, h, t1))
  {
    var k, m := Kept(h, t1), Kept(h, t2);
    var s1 := Undone(kind, s, h, k);
    SecondRebuildDiffers(kind, s, h, ids, t1, t2, s1);
    UndoneAlike(kind, UndoEffects(kind, s1, Retained(h, t1).effects), s1, h, k, m);
  }

  lemma UndoneAlike<S(!new), Op, Eff>(kind: Kind<S, Op, Eff>, a: S, b: S, h: seq<Entry<Op, Eff>>, k: nat, m: nat)
    requires m <= k <= |h|
    ensures (forall i :: m <= i < k ==> UndoneApart(kind, h[i].effects)) && Undone(kind, a, h[..k], m) == Undone(kind, b, h[..k], m) ==>
      a == b
  {
    if (forall i :: m <= i < k ==> UndoneApart(kind, h[i].effects)) && Undone(kind, a, h[..k], m) == Undone(kind, b, h[..k], m) {
      UndoneStaysApart(kind, a, b, h[..k], m);
    }
  }

  /** A type whose undo of one effect forgets the state. */
  function ForgetfulKind(): Kind<int, bool, bool> {
    Kind((s, op) => s, (s, op) => op, (s, forgets) => if forgets then 0 else s + 1)
  }

  /** For it two rebuilds agree with a direct one although undoing the retained entry again is not harmless:
      the entry undone on the way to the earlier target forgets the difference. */
  lemma ForgetfulUndoAgrees()
    ensures var h := [Entry(map[1 := 1], [true], [true]), Entry(map[1 := 2], [false], [false])];
            var t1, t2 := map[1 := 1], map[1 := 0];
            && Kept(h, t1) < |h| && SomeHigher(h, Kept(h, t1), t1)
            && !UndoneForGood(ForgetfulKind(), 0, h, t1) && SecondAgrees(ForgetfulKind(), 0, h, t1, t2)
  {
    var c1, c2, t2: Clock := map[1 := 1], map[1 := 2], map[1 := 0];
    var first, last := Entry(c1, [true], [true]), Entry(c2, [false], [false]);
    var h := [first, last];
    assert c2[1] > Get(c1, 1) && c1[1] > Get(t2, 1) && c2[1] > Get(t2, 1);
    assert Leq(c1, c1) && !Leq(c2, c1) && CompareOf(c2, c1) == HigherTs && Leq(t2, c1);
    assert h[..1] == [first] && [first][..0] == [];
    KeptIs(h, 1, c1);
    KeptIs(h, 0, t2);
    assert CompareOf(h[1].ts, c1) == HigherTs;
    assert SomeHigher(h, 1, c1) && Retained(h, c1) == last;
    OneUndo(0, last, false);
    OneUndo(1, last, false);
    assert Undone(ForgetfulKind(), 0, h, 1) == Undone(ForgetfulKind(), UndoEffects(ForgetfulKind(), 0, last.effects), h[..1], 1);
    SecondRebuild(ForgetfulKind(), 0, h, {1}, c1, t2);
    OnceRebuilt(ForgetfulKind(), 0, h, c1);
    ForgottenFirst(1, first);
    ForgottenFirst(2, first);
  }

  lemma OneUndo(s: int, e: Entry<bool, bool>, forgets: bool)
    requires e.effects == [forgets]
    ensures UndoEffects(ForgetfulKind(), s, e.effects) == if forgets then 0 else s + 1
  {
    assert e.effects[1..] == [];
  }

  lemma ForgottenFirst(s: int, e: Entry<bool, bool>)
    requires e.effects == [true]
    ensures Undone(ForgetfulKind(), s, [e], 0) == 0
  {
    OneUndo(s, e, true);
    assert [e][..0] == [];
  }

  // ---------------------------------------------------------------- garbage collection

  lemma {:induction false} KeptInSuffix<Op, Eff>(h: seq<Entry<Op, Eff>>, start: nat, target: Clock)
    requires start <= |h|
    ensures Kept(h[start..], target) == if Kept(h, target) >= start then Kept(h, target) - start else 0
  {
    if start < |h| && !Leq(h[|h| - 1].ts, target) {
      assert h[start..][..|h| - 1 - start] == h[..|h| - 1][start..];
      KeptInSuffix(h[..|h| - 1], start, target);
    }
  }

  lemma {:induction false} UndoneInSuffix<S, Op, Eff>(kind: Kind<S, Op, Eff>, s: S, h: seq<Entry<Op, Eff>>, start: nat, k: nat)
    requires start <= k <= |h|
    ensures Undone(kind, s, h[start..], k - start) == Undone(kind, s, h, k)
    decreases |h|
  {
    if k < |h| {
      assert h[start..][..|h| - 1 - start] == h[..|h| - 1][start..];
      UndoneInSuffix(kind, UndoEffects(kind, s, h[|h| - 1].effects), h[..|h| - 1], start, k);
    }
  }

  /** Entries that GC drops are out of reach of every target from the safe clock on. */
  lemma SafeTargetKeepsStart<Op, Eff>(h: seq<Entry<Op, Eff>>, ids: set<int>, safe: Clock, target: Clock)
    requires safe.Keys == target.Keys == ids && forall i :: 0 <= i < |h| ==> h[i].ts.Keys == ids
    requires Leq(safe, target)
    ensures GcStart(h, safe) <= Kept(h, target)
    ensures GcStart(h, safe) > 0 ==> GcStart(h, safe) < Kept(h, target)
  {
    var k := Kept(h, safe);
    KeptIsLast(h, safe);
    KeptIsLast(h, target);
    if k > 0 {
      LeqIsPartialOrder(h[k - 1].ts, safe, target);
      assert Leq(h[k - 1].ts, target);
    }
  }

  lemma SkipFromInSuffix<S, Op, Eff>(kind: Kind<S, Op, Eff>, s: S, h: seq<Entry<Op, Eff>>, start: nat, k: nat, target: Clock)
    requires start <= k <= |h|
    ensures var before, after := SkipFrom(kind, s, h, k, target), SkipFrom(kind, s, h[start..], k - start, target);
            && after.state == before.state && after.ok == before.ok
            && start <= |before.history| && after.history == before.history[start..]
  {
    UndoneInSuffix(kind, s, h, start, k);
    assert h[start..][k - start..] == h[k..] && h[start..][..k - start] == h[..k][start..];
    SkippedInSuffix(Undone(kind, s, h, k), h[..k], h[k..], start, target);
  }

  lemma SkippedInSuffix<S, Op, Eff>(s: S, kept: seq<Entry<Op, Eff>>, rest: seq<Entry<Op, Eff>>, start: nat, target: Clock)
    requires start <= |kept|
    ensures var before, after := Skipped(s, kept, rest, target), Skipped(s, kept[start..], rest, target);
            && after.state == before.state == s && after.ok == before.ok
            && start <= |before.history| && after.history == before.history[start..]
  {
    var p := FirstHigher(rest, target);
    if p < |rest| {
      assert (kept + [rest[p]])[start..] == kept[start..] + [rest[p]];
    }
  }

  /** Garbage collection is invisible to every rebuild to a target from the safe clock on: it undoes the
      same entries, reaches the same state, succeeds or fails alike, and leaves the same history but for
      the dropped entries. */
  lemma GcIsInvisible<S, Op, Eff>(kind: Kind<S, Op, Eff>, s: S, h: seq<Entry<Op, Eff>>, ids: set<int>, safe: Clock, target: Clock)
    requires safe.Keys == target.Keys == ids && forall i :: 0 <= i < |h| ==> h[i].ts.Keys == ids
    requires Leq(safe, target)
    ensures var start := GcStart(h, safe);
            var before, after := Rebuilt(kind, s, h, target), Rebuilt(kind, s, h[start..], target);
            && h[start..][Kept(h[start..], target)..] == h[Kept(h, target)..]
            && after.state == before.state && after.ok == before.ok
            && start <= |before.history| && after.history == before.history[start..]
  {
    var start := GcStart(h, safe);
    SafeTargetKeepsStart(h, ids, safe, target);
    DropIsInvisible(kind, s, h, start, target);
  }

  lemma DropIsInvisible<S, Op, Eff>(kind: Kind<S, Op, Eff>, s: S, h: seq<Entry<Op, Eff>>, start: nat, target: Clock)
    requires start <= Kept(h, target)
    ensures var before, after := Rebuilt(kind, s, h, target), Rebuilt(kind, s, h[start..], target);
            && h[start..][Kept(h[start..], target)..] == h[Kept(h, target)..]
            && after.state == before.state && after.ok == before.ok
            && start <= |before.history| && after.history == before.history[start..]
  {
    var k := Kept(h, target);
    KeptInSuffix(h, start, target);
    SkipFromInSuffix(kind, s, h, start, k, target);
    assert h[start..][k - start..] == h[k..];
    NeverReapplies(kind, s, h, target);
    NeverReapplies(kind, s, h[start..], target);
  }

  /** Garbage collection drops as much as the safe clock allows: of what is left only the first entry can be at
      most the safe clock, and it is if anything was dropped. */
  lemma GcDropsAllExactly<Op, Eff>(h: seq<Entry<Op, Eff>>, safe: Clock)
    ensures var rest := h[GcStart(h, safe)..];
            && (forall i :: 0 < i < |rest| ==> !Leq(rest[i].ts, safe))
            && (rest != h ==> rest != [] && Leq(rest[0].ts, safe))
  {
    KeptIsLast(h, safe);
    assert GcStart(h, safe) == 0 ==> h[0..] == h;
  }

  /** Some entry from the last dropped one on is at most the target. */
  ghost predicate ReachesStart<Op, Eff>(h: seq<Entry<Op, Eff>>, start: nat, target: Clock) {
    start == 0 || exists i :: start - 1 <= i < |h| && Leq(h[i].ts, target)
  }

  lemma ReachesStartIffKept<Op, Eff>(h: seq<Entry<Op, Eff>>, start: nat, target: Clock)
    requires start <= |h|
    ensures ReachesStart(h, start, target) <==> start <= Kept(h, target)
  {
    KeptIsLast(h, target);
    if 0 < start <= Kept(h, target) {
      assert Leq(h[Kept(h, target) - 1].ts, target);
    }
  }

  /** For earlier targets too it undoes the same entries, exactly when some entry from the one before the
      first kept entry on is at most the target. */
  lemma GcIsInvisibleExactly<Op, Eff>(h: seq<Entry<Op, Eff>>, safe: Clock, target: Clock)
    ensures var start := GcStart(h, safe);
            (h[start..][Kept(h[start..], target)..] == h[Kept(h, target)..] <==> ReachesStart(h, start, target))
  {
    var start, k := GcStart(h, safe), Kept(h, target);
    KeptInSuffix(h, start, target);
    ReachesStartIffKept(h, start, target);
    if start <= k {
      assert h[start..][k - start..] == h[k..];
    } else {
      assert |h[start..][0..]| == |h| - start;
    }
  }
}
