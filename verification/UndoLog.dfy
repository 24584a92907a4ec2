/** The operation log of crdt/crdt/inversibleCrdt.go: every operation is logged with its clock and its
    effect, a copy goes back to an earlier version by undoing effects, and old entries are dropped.

    The replicated type is a parameter: how an operation is applied, what effect it records, and how an
    effect is undone. */
module UndoLog {
  import opened Clocks

  datatype Kind<!S, !Op, !Eff> = Kind(apply: (S, Op) -> S, effect: (S, Op) -> Eff, undo: (S, Eff) -> S)

  datatype Entry<Op, Eff> = Entry(ts: Clock, ops: seq<Op>, effects: seq<Eff>)

  /** What a rebuild leaves: ok is false when it runs past the end of the history, where Go panics. */
  datatype Rebuild<S, Op, Eff> = Rebuild(state: S, history: seq<Entry<Op, Eff>>, ok: bool)

  // ---------------------------------------------------------------- logging

  /** A new entry, or one more operation in the last entry if its clock compares equal. */
  function Logged<Op, Eff>(h: seq<Entry<Op, Eff>>, ts: Clock, op: Op, eff: Eff): seq<Entry<Op, Eff>> {
    if h == [] || CompareOf(h[|h| - 1].ts, ts) != EqualTs then h + [Entry(ts, [op], [eff])]
    else
      var last := h[|h| - 1];
      h[|h| - 1 := Entry(last.ts, last.ops + [op], last.effects + [eff])]
  }

  function ApplyOps<S, Op, Eff>(kind: Kind<S, Op, Eff>, s: S, ops: seq<Op>): S
    decreases |ops|
  {
    if ops == [] then s else kind.apply(ApplyOps(kind, s, ops[..|ops| - 1]), ops[|ops| - 1])
  }

  function EffectsOf<S, Op, Eff>(kind: Kind<S, Op, Eff>, s: S, ops: seq<Op>): seq<Eff>
    decreases |ops|
  {
    if ops == [] then []
    else EffectsOf(kind, s, ops[..|ops| - 1]) + [kind.effect(ApplyOps(kind, s, ops[..|ops| - 1]), ops[|ops| - 1])]
  }

  function Replay<S, Op, Eff>(kind: Kind<S, Op, Eff>, s: S, h: seq<Entry<Op, Eff>>): S
    decreases |h|
  {
    if h == [] then s else ApplyOps(kind, Replay(kind, s, h[..|h| - 1]), h[|h| - 1].ops)
  }

  /** The log holds the effects that its operations had, starting from s. */
  ghost predicate Recorded<S, Op, Eff>(kind: Kind<S, Op, Eff>, s: S, h: seq<Entry<Op, Eff>>) {
    forall i :: 0 <= i < |h| ==> h[i].effects == EffectsOf(kind, Replay(kind, s, h[..i]), h[i].ops)
  }

  /** Applying an operation and logging it keeps the log faithful and in step with the state. */
  lemma LoggedIsRecorded<S, Op, Eff>(kind: Kind<S, Op, Eff>, s: S, h: seq<Entry<Op, Eff>>, ts: Clock, op: Op)
    requires Recorded(kind, s, h)
    ensures var h' := Logged(h, ts, op, kind.effect(Replay(kind, s, h), op));
            Recorded(kind, s, h') && Replay(kind, s, h') == kind.apply(Replay(kind, s, h), op)
  {
    var h' := Logged(h, ts, op, kind.effect(Replay(kind, s, h), op));
    var n := |h'| - 1;
    assert h'[..n] == h[..n];
    assert h'[n].ops[..|h'[n].ops| - 1] == if |h'| == |h| then h[n].ops else [];
    if |h'| == |h| {
      assert h[n].effects == EffectsOf(kind, Replay(kind, s, h[..n]), h[n].ops);
    } else {
      assert h[..n] == h;
    }
    forall i | 0 <= i < |h'| ensures h'[i].effects == EffectsOf(kind, Replay(kind, s, h'[..i]), h'[i].ops) {
      assert h'[..i] == h[..i];
    }
  }

  // ---------------------------------------------------------------- going back

  /** The number of entries up to and including the last one that is at most the target. */
  function Kept<Op, Eff>(h: seq<Entry<Op, Eff>>, target: Clock): (k: nat)
    ensures k <= |h|
  {
    if h == [] then 0 else if Leq(h[|h| - 1].ts, target) then |h| else Kept(h[..|h| - 1], target)
  }

  lemma {:induction false} KeptIsLast<Op, Eff>(h: seq<Entry<Op, Eff>>, target: Clock)
    ensures var k := Kept(h, target);
            && (k > 0 ==> Leq(h[k - 1].ts, target))
            && forall i :: k <= i < |h| ==> !Leq(h[i].ts, target)
  {
    if h != [] && !Leq(h[|h| - 1].ts, target) {
      KeptIsLast(h[..|h| - 1], target);
    }
  }

  /** The effects of one entry are undone in the order in which they happened. */
  function UndoEffects<S, Op, Eff>(kind: Kind<S, Op, Eff>, s: S, effects: seq<Eff>): S
    decreases |effects|
  {
    if effects == [] then s else UndoEffects(kind, kind.undo(s, effects[0]), effects[1..])
  }

  /** All entries from the k-th on are undone, the last entry first. */
  function Undone<S, Op, Eff>(kind: Kind<S, Op, Eff>, s: S, h: seq<Entry<Op, Eff>>, k: nat): S
    decreases |h|
  {
    if |h| <= k then s else Undone(kind, UndoEffects(kind, s, h[|h| - 1].effects), h[..|h| - 1], k)
  }

  /** The pass forward over the undone entries: it stops at the first that is higher than the target,
      drops concurrent ones from the history and would re-apply the others. */
  function Forward<S, Op, Eff>(kind: Kind<S, Op, Eff>, s: S, kept: seq<Entry<Op, Eff>>, rest: seq<Entry<Op, Eff>>, target: Clock)
      : Rebuild<S, Op, Eff>
    decreases |rest|
  {
    if rest == [] then Rebuild(s, kept, false)
    else
      var e := rest[0];
      match CompareOf(e.ts, target)
      case HigherTs => Rebuild(s, kept + [e], true)
      case ConcurrentTs => Forward(kind, s, kept, rest[1..], target)
      case LowerTs => Forward(kind, ApplyOps(kind, s, e.ops), kept + [Reapplied(kind, s, e)], rest[1..], target)
      case EqualTs => Rebuild(ApplyOps(kind, s, e.ops), kept + [Reapplied(kind, s, e)], true)
  }

  function Reapplied<S, Op, Eff>(kind: Kind<S, Op, Eff>, s: S, e: Entry<Op, Eff>): Entry<Op, Eff> {
    Entry(e.ts, e.ops, EffectsOf(kind, s, e.ops))
  }

  function Rebuilt<S, Op, Eff>(kind: Kind<S, Op, Eff>, s: S, h: seq<Entry<Op, Eff>>, target: Clock): Rebuild<S, Op, Eff> {
    var k := Kept(h, target);
    if k == |h| then Rebuild(s, h, true)
    else Forward(kind, Undone(kind, s, h, k), h[..k], h[k..], target)
  }

  // ---------------------------------------------------------------- the object

  class GenericInversibleCRDT<S, Op, Eff> {
    const kind: Kind<S, Op, Eff>
    var state: S
    var history: seq<Entry<Op, Eff>>

    constructor (kind: Kind<S, Op, Eff>, state: S)
      ensures this.kind == kind && this.state == state && history == []
    {
      this.kind := kind;
      this.state := state;
      history := [];
    }

    method AddToHistory(ts: Clock, op: Op, effect: Eff)
      modifies this`history
      ensures history == Logged(old(history), ts, op, effect)
    {
      if |history| == 0 || CompareOf(history[|history| - 1].ts, ts) != EqualTs {
        history := history + [Entry(ts, [], [])];
      }
      var last := history[|history| - 1];
      history := history[|history| - 1 := Entry(last.ts, last.ops + [op], last.effects + [effect])];
      assert [] + [op] == [op] && [] + [effect] == [effect];
    }

    /** Apply an operation from the network and log it. */
    method Downstream(ts: Clock, op: Op)
      modifies this
      ensures state == kind.apply(old(state), op)
      ensures history == Logged(old(history), ts, op, kind.effect(old(state), op))
    {
      var effect := kind.effect(state, op);
      state := kind.apply(state, op);
      AddToHistory(ts, op, effect);
    }

    method UndoEntry(effects: seq<Eff>)
      modifies this`state
      ensures state == UndoEffects(kind, old(state), effects)
    {
      for j := 0 to |effects|
        invariant UndoEffects(kind, state, effects[j..]) == UndoEffects(kind, old(state), effects)
      {
        assert effects[j..][1..] == effects[j + 1..];
        state := kind.undo(state, effects[j]);
      }
    }

    method ReapplyEntry(i: nat)
      requires i < |history|
      modifies this
      ensures state == ApplyOps(kind, old(state), old(history)[i].ops)
      ensures history == old(history)[i := Reapplied(kind, old(state), old(history)[i])]
    {
      var e := history[i];
      var effects: seq<Eff> := [];
      for j := 0 to |e.ops|
        invariant history == old(history)
        invariant state == ApplyOps(kind, old(state), e.ops[..j])
        invariant effects == EffectsOf(kind, old(state), e.ops[..j])
      {
        assert e.ops[..j + 1][..j] == e.ops[..j];
        effects := effects + [kind.effect(state, e.ops[j])];
        state := kind.apply(state, e.ops[j]);
      }
      assert e.ops[..|e.ops|] == e.ops;
      history := history[i := Entry(e.ts, e.ops, effects)];
    }

    /** Undo entries from the end until one is at most the target; returns how many are left. */
    method UndoBack(target: Clock) returns (kept: nat)
      requires |history| > 0
      modifies this`state
      ensures kept == Kept(history, target)
      ensures state == Undone(kind, old(state), history, kept)
    {
      var currTs := history[|history| - 1].ts;
      var i := |history| - 1;
      ghost var k := Kept(history, target);
      assert history[..|history|] == history;
      KeptIsLast(history, target);
      while i >= 0 && !Leq(currTs, target)
        invariant -1 <= i < |history| && k <= i + 1
        invariant i >= 0 ==> currTs == history[i].ts
        invariant Undone(kind, state, history[..i + 1], k) == Undone(kind, old(state), history, k)
      {
        UndoEntry(history[i].effects);
        assert history[..i + 1][..i] == history[..i];
        if i > 0 {
          currTs := history[i - 1].ts;
        }
        i := i - 1;
      }
      return i + 1;
    }

    /** One turn of the pass forward, at entry i. */
    method ForwardStep(i: nat, target: Clock) returns (next: nat, canStop: bool)
      requires i < |history|
      modifies this
      ensures next <= |history| && |history| - next < |old(history)| - i
      ensures (if canStop then Rebuild(state, history[..next], true)
               else Forward(kind, state, history[..next], history[next..], target))
           == Forward(kind, old(state), old(history)[..i], old(history)[i..], target)
    {
      var tsCompare := CompareOf(history[i].ts, target);
      ghost var front, rest := history[..i], history[i..];
      var at: int := i;
      canStop := false;
      if tsCompare == HigherTs {
        canStop := true;
        assert history[..at + 1] == front + [rest[0]];
      } else if tsCompare != ConcurrentTs {
        ReapplyEntry(i);
        canStop := tsCompare == EqualTs;
        assert history[..at + 1] == front + [Reapplied(kind, old(state), rest[0])];
        assert history[at + 1..] == rest[1..];
      } else {
        history := history[..i] + history[i + 1..];
        at := at - 1;
        assert history[..i] == front && history[i..] == rest[1..];
      }
      next := at + 1;
    }

    method RebuildCRDTToVersion(target: Clock) returns (ok: bool)
      modifies this
      ensures Rebuild(state, history, ok) == Rebuilt(kind, old(state), old(history), target)
    {
      if |history| == 0 {
        return true;
      }
      var i: nat := UndoBack(target);
      if i == |history| {
        return true;
      }
      ghost var result := Forward(kind, state, history[..i], history[i..], target);
      var canStop := false;
      while !canStop
        invariant i <= |history|
        invariant if canStop then Rebuild(state, history[..i], true) == result
                  else Forward(kind, state, history[..i], history[i..], target) == result
        decreases |history| - i + (if canStop then 0 else 1)
      {
        if i == |history| {
          assert history[..i] == history;
          return false;
        }
        i, canStop := ForwardStep(i, target);
      }
      history := history[..i];
      return true;
    }

    method FindGcStart(safeClk: Clock) returns (startIndex: nat)
      ensures startIndex == GcStart(history, safeClk)
    {
      var i := |history| - 1;
      KeptIsLast(history, safeClk);
      while i >= 0
        invariant -1 <= i < |history| && Kept(history, safeClk) <= i + 1
      {
        if Leq(history[i].ts, safeClk) {
          return i;
        }
        i := i - 1;
      }
      return 0;
    }

    /** Move the entries from startIndex on to the front, one at a time. */
    method ShiftDown(startIndex: nat)
      requires startIndex <= |history|
      modifies this`history
      ensures history == old(history)[startIndex..]
    {
      var newLen := |history| - startIndex;
      for j := 0 to newLen
        invariant |history| == |old(history)|
        invariant forall k :: 0 <= k < j ==> history[k] == old(history)[startIndex + k]
        invariant forall k :: j <= k < |history| ==> history[k] == old(history)[k]
      {
        history := history[j := history[startIndex + j]];
      }
      history := history[..newLen];
    }

    method CopyOut(startIndex: nat) returns (newHistory: seq<Entry<Op, Eff>>)
      requires startIndex <= |history|
      ensures newHistory == history[startIndex..]
    {
      newHistory := [];
      for j := startIndex to |history|
        invariant newHistory == history[startIndex..j]
      {
        newHistory := newHistory + [history[j]];
      }
    }

    /** Drop the entries before the last one that is at most safeClk: by copying the rest if it is small,
        and otherwise in place. */
    method GC(safeClk: Clock)
      modifies this`history
      ensures history == old(history)[GcStart(old(history), safeClk)..]
    {
      var startIndex := FindGcStart(safeClk);
      if startIndex == 0 {
        return;
      }
      var newLen := |history| - startIndex;
      if newLen < |history| / 4 {
        var newHistory := CopyOut(startIndex);
        history := newHistory;
      } else {
        ShiftDown(startIndex);
      }
    }
  }

  function GcStart<Op, Eff>(h: seq<Entry<Op, Eff>>, safeClk: Clock): (start: nat)
    ensures start <= |h|
  {
    if Kept(h, safeClk) == 0 then 0 else Kept(h, safeClk) - 1
  }
}
