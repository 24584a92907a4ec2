/** The plain counter of crdt/crdt/counterCrdt.go kept in the log of UndoLog: undoing the same change a
    second time is wrong for it, whatever the state. */
module CounterHistory {
  import opened GoMaps
  import opened Clocks
  import opened UndoLog
  import opened TimeTravel

  datatype Op = Increment(change: int) | Decrement(change: int)

  datatype Effect = IncrementEffect(change: int) | DecrementEffect(change: int)

  function Apply(value: int, op: Op): int {
    match op
    case Increment(c) => value + c
    case Decrement(c) => value - c
  }

  function EffectOf(value: int, op: Op): Effect {
    match op
    case Increment(c) => IncrementEffect(c)
    case Decrement(c) => DecrementEffect(c)
  }

  function Undo(value: int, eff: Effect): int {
    match eff
    case IncrementEffect(c) => value - c
    case DecrementEffect(c) => value + c
  }

  function CounterKind(): Kind<int, Op, Effect> {
    Kind((v, op) => Apply(v, op), (v, op) => EffectOf(v, op), (v, eff) => Undo(v, eff))
  }

  function Total(effects: seq<Effect>): int
    decreases |effects|
  {
    if effects == [] then 0
    else (match effects[0] case IncrementEffect(c) => c case DecrementEffect(c) => -c) + Total(effects[1..])
  }

  lemma {:induction false} UndoEffectsIs(value: int, effects: seq<Effect>)
    ensures UndoEffects(CounterKind(), value, effects) == value - Total(effects)
    decreases |effects|
  {
    if effects != [] {
      UndoEffectsIs(Undo(value, effects[0]), effects[1..]);
    }
  }

  lemma UndoKeepsApart(effects: seq<Effect>)
    ensures UndoneApart(CounterKind(), effects)
  {
    forall a, b | UndoEffects(CounterKind(), a, effects) == UndoEffects(CounterKind(), b, effects) ensures a == b {
      UndoEffectsIs(a, effects);
      UndoEffectsIs(b, effects);
    }
  }

  lemma {:induction false} TotalMore(effects: seq<Effect>, eff: Effect)
    ensures Total(effects + [eff]) == Total(effects) + Total([eff])
    decreases |effects|
  {
    if effects != [] {
      TotalMore(effects[1..], eff);
      assert (effects + [eff])[1..] == effects[1..] + [eff];
    } else {
      assert effects + [eff] == [eff];
    }
  }

  lemma {:induction false} EffectsAddUp(value: int, ops: seq<Op>)
    ensures ApplyOps(CounterKind(), value, ops) == value + Total(EffectsOf(CounterKind(), value, ops))
    decreases |ops|
  {
    if ops != [] {
      var front := ops[..|ops| - 1];
      EffectsAddUp(value, front);
      TotalMore(EffectsOf(CounterKind(), value, front), EffectOf(ApplyOps(CounterKind(), value, front), ops[|ops| - 1]));
    }
  }

  /** Undoing an entry of any number of operations takes back what they did. */
  lemma EntryReverses(value: int, e: Entry<Op, Effect>)
    requires e.effects == EffectsOf(CounterKind(), value, e.ops)
    ensures Reverses(CounterKind(), value, e)
  {
    EffectsAddUp(value, e.ops);
    UndoEffectsIs(ApplyOps(CounterKind(), value, e.ops), e.effects);
  }

  /** Every rebuild of a counter is exact that keeps only entries at most the target. */
  lemma CounterRebuildIsExact(value: int, h: seq<Entry<Op, Effect>>, target: Clock)
    requires OneEach(h) && Recorded(CounterKind(), value, h) && KeepsOnlyVisible(h, target)
    ensures Rebuilt(CounterKind(), Replay(CounterKind(), value, h), h, target).state
         == Replay(CounterKind(), value, Visible(h, target))
  {
    RebuildIsExact(CounterKind(), value, h, target);
  }

  lemma UndoneForGoodIs(value: int, h: seq<Entry<Op, Effect>>, target: Clock)
    requires Kept(h, target) < |h| && SomeHigher(h, Kept(h, target), target)
    ensures UndoneForGood(CounterKind(), value, h, target) <==> Total(Retained(h, target).effects) == 0
  {
    UndoEffectsIs(Undone(CounterKind(), value, h, Kept(h, target)), Retained(h, target).effects);
  }

  /** When a first rebuild undoes something, a second rebuild of a counter agrees with a direct one exactly
      if the changes of the entry left in the history add up to 0. */
  lemma CounterSecondRebuild(value: int, h: seq<Entry<Op, Effect>>, ids: set<int>, t1: Clock, t2: Clock)
    requires SameIdsAll(h, ids) && t1.Keys == t2.Keys == ids && Leq(t2, t1)
    requires Kept(h, t1) < |h| && SomeHigher(h, Kept(h, t1), t1)
    ensures SecondAgrees(CounterKind(), value, h, t1, t2) <==> Total(Retained(h, t1).effects) == 0
  {
    forall i | 0 <= i < |h| ensures UndoneApart(CounterKind(), h[i].effects) {
      UndoKeepsApart(h[i].effects);
    }
    SecondRebuildExactly(CounterKind(), value, h, ids, t1, t2);
    UndoneForGoodIs(value, h, t1);
  }

  lemma Between(h: seq<Entry<Op, Effect>>, t1: Clock, t2: Clock)
    requires |h| == 2 && h[0].ts == map[1 := 1] && h[1].ts == map[1 := 3] && t1 == map[1 := 2] && t2 == map[1 := 0]
    ensures Less(t2, t1) && Kept(h, t1) == 1 && Kept(h, t2) == 0 && SomeHigher(h, 1, t1) && Retained(h, t1) == h[1]
  {
    var c1, c2 := h[0].ts, h[1].ts;
    assert c2[1] > Get(t1, 1) && c2[1] > Get(t2, 1) && c1[1] > Get(t2, 1);
    assert t2[1] < Get(t1, 1);
    assert Leq(c1, t1) && !Leq(c2, t1) && CompareOf(c2, t1) == HigherTs;
    KeptIs(h, 1, t1);
    KeptIs(h, 0, t2);
    assert CompareOf(h[1].ts, t1) == HigherTs;
    assert SomeHigher(h, 1, t1);
  }

  /** A counter after increments of first and last: a rebuild to the time between them gives first, and
      rebuilding that copy to the start gives -last, where a direct rebuild gives 0. */
  lemma CounterSecondRebuildFails(first: int, last: int, h: seq<Entry<Op, Effect>>, t1: Clock, t2: Clock)
    requires h == [Entry(map[1 := 1], [Increment(first)], [IncrementEffect(first)]),
                   Entry(map[1 := 3], [Increment(last)], [IncrementEffect(last)])]
    requires t1 == map[1 := 2] && t2 == map[1 := 0]
    ensures var once := Rebuilt(CounterKind(), first + last, h, t1);
            && Less(t2, t1) && once.ok && once.state == first
            && Rebuilt(CounterKind(), once.state, once.history, t2).state == -last
            && Rebuilt(CounterKind(), first + last, h, t2).state == 0
  {
    Between(h, t1, t2);
    assert h[..1] == [h[0]];
    OnceRebuilt(CounterKind(), first + last, h, t1);
    SecondRebuild(CounterKind(), first + last, h, {1}, t1, t2);
    UndoEffectsIs(first + last, h[1].effects);
    UndoEffectsIs(first, h[1].effects);
    UndoneOne(first, h[0], first);
    UndoneOne(first - last, h[0], first);
    assert Undone(CounterKind(), first + last, h, 1) == Undone(CounterKind(), UndoEffects(CounterKind(), first + last, h[1].effects), h[..1], 1);
  }

  lemma UndoneOne(value: int, e: Entry<Op, Effect>, c: int)
    requires e.effects == [IncrementEffect(c)]
    ensures Undone(CounterKind(), value, [e], 0) == value - c
  {
    UndoEffectsIs(value, e.effects);
    assert [e][..0] == [];
  }
}
