/** The add-wins set of crdt/crdt/setAWCrdt.go: every add of an element carries a fresh unique, a
    remove names the uniques its source had seen, and an element is in the set while some unique of
    it is left.  Each effect can be undone. */
module AddWinsSet {
  import opened GoMaps
  import opened Options

  type Element = string
  type Unique = int
  type Elems = map<Element, set<Unique>>

  datatype Upd = Add(e: Element) | Remove(e: Element) | AddAll(es: seq<Element>) | RemoveAll(es: seq<Element>)

  datatype Op = DownAddAll(added: map<Element, Unique>) | DownRemoveAll(named: Elems)

  datatype Effect = AddAllEffect(added: map<Element, Unique>) | RemoveAllEffect(removed: Elems)

  function Uniques(elems: Elems, e: Element): set<Unique> {
    if e in elems then elems[e] else {}
  }

  ghost predicate NoneEmpty(elems: Elems) {
    forall e :: e in elems ==> elems[e] != {}
  }

  // ---------------------------------------------------------------- prepare

  /** One fresh draw for every position; the last one counts for a repeated element. */
  function UniqueMap(es: seq<Element>, draw: nat -> Unique): map<Element, Unique> {
    if es == [] then map[]
    else UniqueMap(es[..|es| - 1], draw)[es[|es| - 1] := draw(|es| - 1)]
  }

  lemma {:induction false} UniqueMapKeys(es: seq<Element>, draw: nat -> Unique)
    ensures UniqueMap(es, draw).Keys == set e | e in es
  {
    if es != [] {
      UniqueMapKeys(es[..|es| - 1], draw);
      assert es == es[..|es| - 1] + [es[|es| - 1]];
    }
  }

  function Observed(elems: Elems, es: seq<Element>): Elems {
    map e | e in elems && e in es :: elems[e]
  }

  function PrepareAdd(es: seq<Element>, draw: nat -> Unique): Option<Op> {
    Some(DownAddAll(UniqueMap(es, draw)))
  }

  function PrepareRemove(elems: Elems, es: seq<Element>): Option<Op> {
    var seen := Observed(elems, es);
    if |seen| == 0 then None else Some(DownRemoveAll(seen))
  }

  function Prepare(elems: Elems, upd: Upd, draw: nat -> Unique): Option<Op> {
    match upd
    case Add(e) => PrepareAdd([e], draw)
    case Remove(e) => PrepareRemove(elems, [e])
    case AddAll(es) => PrepareAdd(es, draw)
    case RemoveAll(es) => PrepareRemove(elems, es)
  }

  // ---------------------------------------------------------------- effect and undo

  function Added(elems: Elems, added: map<Element, Unique>): Elems {
    map e | e in elems.Keys + added.Keys ::
      if e !in added then elems[e] else if e in elems then elems[e] + {added[e]} else {added[e]}
  }

  /** Removing named uniques; an element left without uniques leaves the set. */
  function Removed(elems: Elems, named: Elems): Elems {
    map e | e in elems && !(e in named && elems[e] - named[e] == {}) ::
      if e in named then elems[e] - named[e] else elems[e]
  }

  function RemovedPart(elems: Elems, named: Elems): Elems {
    map e | e in named && e in elems :: elems[e] * named[e]
  }

  function Apply(elems: Elems, op: Op): Elems {
    match op
    case DownAddAll(added) => Added(elems, added)
    case DownRemoveAll(named) => Removed(elems, named)
  }

  function EffectOf(elems: Elems, op: Op): Effect {
    match op
    case DownAddAll(added) => AddAllEffect(added)
    case DownRemoveAll(named) => RemoveAllEffect(RemovedPart(elems, named))
  }

  function Restored(elems: Elems, back: Elems): Elems {
    map e | e in elems.Keys + back.Keys ::
      if e !in back then elems[e] else if e in elems then elems[e] + back[e] else back[e]
  }

  function Undo(elems: Elems, eff: Effect): Elems {
    match eff
    case AddAllEffect(added) => Removed(elems, map e | e in added :: {added[e]})
    case RemoveAllEffect(removed) => Restored(elems, removed)
  }

  lemma ApplyNeverLeavesEmpty(elems: Elems, op: Op)
    requires NoneEmpty(elems)
    ensures NoneEmpty(Apply(elems, op))
  {
    match op
    case DownAddAll(added) =>
      forall e | e in Added(elems, added) ensures Added(elems, added)[e] != {} {
        if e in added { assert added[e] in Added(elems, added)[e]; }
      }
    case DownRemoveAll(named) =>
  }

  /** No unique that the operation adds is in the set yet. */
  ghost predicate Fresh(elems: Elems, op: Op) {
    op.DownAddAll? ==> forall e :: e in op.added ==> op.added[e] !in Uniques(elems, e)
  }

  /** Undoing an effect restores the set exactly, including which elements are present, if and only if
      the uniques that were added were fresh. */
  lemma UndoInvertsApply(elems: Elems, op: Op)
    requires NoneEmpty(elems)
    ensures Undo(Apply(elems, op), EffectOf(elems, op)) == elems <==> Fresh(elems, op)
  {
    match op
    case DownAddAll(added) => UndoAdd(elems, added);
    case DownRemoveAll(named) => UndoRemove(elems, named);
  }

  lemma UndoAdd(elems: Elems, added: map<Element, Unique>)
    requires NoneEmpty(elems)
    ensures var back := Undo(Added(elems, added), AddAllEffect(added));
            back == elems <==> Fresh(elems, DownAddAll(added))
  {
    var now := Added(elems, added);
    var named := map e | e in added :: {added[e]};
    var back := Removed(now, named);
    forall e ensures Uniques(back, e) == Uniques(elems, e) - Uniques(named, e) {
      if e in now && e in named {
        assert now[e] - named[e] == Uniques(elems, e) - named[e];
        assert now[e] <= named[e] ==> Uniques(elems, e) - named[e] == {};
      }
    }
    if Fresh(elems, DownAddAll(added)) {
      forall e ensures Uniques(back, e) == Uniques(elems, e) && (e in back <==> e in elems) {
        assert added.Keys == named.Keys;
        assert Uniques(elems, e) - Uniques(named, e) == Uniques(elems, e);
      }
      SameElems(back, elems);
    } else {
      var e :| e in added && added[e] in Uniques(elems, e);
      assert added[e] !in Uniques(back, e);
    }
  }

  lemma UndoRemove(elems: Elems, named: Elems)
    requires NoneEmpty(elems)
    ensures Restored(Removed(elems, named), RemovedPart(elems, named)) == elems
  {
    var now, part := Removed(elems, named), RemovedPart(elems, named);
    forall e ensures Uniques(Restored(now, part), e) == Uniques(elems, e) && (e in Restored(now, part) <==> e in elems) {
      if e in elems && e in named {
        assert elems[e] == (elems[e] - named[e]) + (elems[e] * named[e]);
      }
    }
    SameElems(Restored(now, part), elems);
  }

  lemma SameElems(a: Elems, b: Elems)
    requires forall e :: Uniques(a, e) == Uniques(b, e) && (e in a <==> e in b)
    ensures a == b
  {
    forall e | e in a ensures a[e] == b[e] { assert Uniques(a, e) == Uniques(b, e); }
  }

  // ---------------------------------------------------------------- what a request does

  /** Position k is the last one at which its element occurs. */
  ghost predicate LastOccurrence(es: seq<Element>, k: nat) {
    k < |es| && forall j :: k < j < |es| ==> es[j] != es[k]
  }

  /** Every element gets the value drawn at its last position. */
  lemma {:induction false} UniqueMapDraws(es: seq<Element>, draw: nat -> Unique, k: nat)
    requires LastOccurrence(es, k)
    ensures es[k] in UniqueMap(es, draw) && UniqueMap(es, draw)[es[k]] == draw(k)
  {
    if k < |es| - 1 {
      UniqueMapDraws(es[..|es| - 1], draw, k);
    }
  }

  /** The set after a request was prepared and, unless there is nothing to do, applied. */
  function Requested(elems: Elems, upd: Upd, draw: nat -> Unique): Elems {
    var op := Prepare(elems, upd, draw);
    if op.Some? then Apply(elems, op.value) else elems
  }

  /** An add gives each of its elements the unique drawn for it, next to those it had, and leaves the others
      alone. */
  lemma AddRequest(elems: Elems, es: seq<Element>, draw: nat -> Unique)
    ensures var after := Requested(elems, AddAll(es), draw);
            && after.Keys == elems.Keys + (set e | e in es)
            && (forall k: nat {:trigger LastOccurrence(es, k)} :: LastOccurrence(es, k) ==> after[es[k]] == Uniques(elems, es[k]) + {draw(k)})
            && forall e :: e in elems && e !in es ==> after[e] == elems[e]
    ensures forall e :: Requested(elems, Add(e), draw) == Requested(elems, AddAll([e]), draw)
  {
    UniqueMapKeys(es, draw);
    forall k: nat {:trigger LastOccurrence(es, k)} | LastOccurrence(es, k)
      ensures Requested(elems, AddAll(es), draw)[es[k]] == Uniques(elems, es[k]) + {draw(k)}
    {
      UniqueMapDraws(es, draw, k);
      assert {} + {draw(k)} == {draw(k)};
    }
  }

  /** A remove takes out its elements with all their uniques and leaves the others alone. */
  lemma RemoveRequest(elems: Elems, es: seq<Element>, draw: nat -> Unique)
    ensures Requested(elems, RemoveAll(es), draw) == map e | e in elems && e !in es :: elems[e]
    ensures Prepare(elems, RemoveAll(es), draw).None? <==> forall e :: e in es ==> e !in elems
    ensures forall e :: Requested(elems, Remove(e), draw) == Requested(elems, RemoveAll([e]), draw)
  {
    var seen := Observed(elems, es);
    if |seen| == 0 {
      forall e | e in elems ensures e !in es { assert e !in seen; }
    } else {
      assert seen.Keys != {};
      forall e | e in elems ensures e in Removed(elems, seen) <==> e !in es { assert e in seen ==> elems[e] - seen[e] == {}; }
    }
  }

  // ---------------------------------------------------------------- whole runs and their undo

  function ApplyAll(elems: Elems, ops: seq<Op>): Elems {
    if ops == [] then elems else Apply(ApplyAll(elems, ops[..|ops| - 1]), ops[|ops| - 1])
  }

  /** The effects recorded along the run. */
  function EffectsOf(elems: Elems, ops: seq<Op>): seq<Effect> {
    if ops == [] then []
    else EffectsOf(elems, ops[..|ops| - 1]) + [EffectOf(ApplyAll(elems, ops[..|ops| - 1]), ops[|ops| - 1])]
  }

  function UndoAll(elems: Elems, effects: seq<Effect>): Elems
    decreases effects
  {
    if effects == [] then elems
    else UndoAll(Undo(elems, effects[|effects| - 1]), effects[..|effects| - 1])
  }

  ghost predicate FreshRun(elems: Elems, ops: seq<Op>) {
    forall i :: 0 <= i < |ops| ==> Fresh(ApplyAll(elems, ops[..i]), ops[i])
  }

  lemma {:induction false} RunNeverLeavesEmpty(elems: Elems, ops: seq<Op>)
    requires NoneEmpty(elems)
    ensures NoneEmpty(ApplyAll(elems, ops))
  {
    if ops != [] {
      RunNeverLeavesEmpty(elems, ops[..|ops| - 1]);
      ApplyNeverLeavesEmpty(ApplyAll(elems, ops[..|ops| - 1]), ops[|ops| - 1]);
    }
  }

  /** Undoing the effects of any run of adds with fresh uniques and removes, last first, restores the set. */
  lemma {:induction false} UndoRun(elems: Elems, ops: seq<Op>)
    requires NoneEmpty(elems) && FreshRun(elems, ops)
    ensures UndoAll(ApplyAll(elems, ops), EffectsOf(elems, ops)) == elems
  {
    if ops != [] {
      var front := ops[..|ops| - 1];
      var effects := EffectsOf(elems, ops);
      forall i | 0 <= i < |front| ensures Fresh(ApplyAll(elems, front[..i]), front[i]) {
        assert front[..i] == ops[..i];
      }
      RunNeverLeavesEmpty(elems, front);
      UndoInvertsApply(ApplyAll(elems, front), ops[|ops| - 1]);
      assert effects[..|effects| - 1] == EffectsOf(elems, front);
      UndoRun(elems, front);
    }
  }

  // ---------------------------------------------------------------- reads over pending updates

  function KeysStep(keys: set<Element>, upd: Upd): set<Element> {
    match upd
    case Add(e) => keys + {e}
    case Remove(e) => keys - {e}
    case AddAll(es) => keys + set e | e in es
    case RemoveAll(es) => keys - set e | e in es
  }

  /** The elements after applying the pending updates one at a time. */
  function KeysAfter(keys: set<Element>, upds: seq<Upd>): set<Element>
    decreases upds
  {
    if upds == [] then keys else KeysAfter(KeysStep(keys, upds[0]), upds[1..])
  }

  /** Preparing and applying each pending update in turn. */
  function Execute(elems: Elems, upds: seq<Upd>, draw: (nat, nat) -> Unique): Elems
    decreases upds
  {
    if upds == [] then elems
    else
      var op := Prepare(elems, upds[0], (k: nat) => draw(|upds|, k));
      Execute(if op.Some? then Apply(elems, op.value) else elems, upds[1..], draw)
  }

  lemma PreparedStep(elems: Elems, upd: Upd, draw: nat -> Unique)
    ensures var op := Prepare(elems, upd, draw);
            (if op.Some? then Apply(elems, op.value) else elems).Keys == KeysStep(elems.Keys, upd)
  {
    match upd
    case Add(e) => UniqueMapKeys([e], draw);
    case AddAll(es) => UniqueMapKeys(es, draw);
    case Remove(e) => PreparedRemove(elems, [e]);
    case RemoveAll(es) => PreparedRemove(elems, es);
  }

  lemma PreparedRemove(elems: Elems, es: seq<Element>)
    ensures var op := PrepareRemove(elems, es);
            (if op.Some? then Apply(elems, op.value) else elems).Keys == elems.Keys - set e | e in es
  {
    var seen := Observed(elems, es);
    if |seen| == 0 {
      assert seen == map[];
      forall e | e in elems ensures e !in es { assert e !in seen; }
    }
  }

  lemma {:induction false} ExecuteKeys(elems: Elems, upds: seq<Upd>, draw: (nat, nat) -> Unique)
    ensures Execute(elems, upds, draw).Keys == KeysAfter(elems.Keys, upds)
    decreases upds
  {
    if upds != [] {
      var op := Prepare(elems, upds[0], (k: nat) => draw(|upds|, k));
      PreparedStep(elems, upds[0], (k: nat) => draw(|upds|, k));
      ExecuteKeys(if op.Some? then Apply(elems, op.value) else elems, upds[1..], draw);
    }
  }

  /** What one update says about e, if anything. */
  function Mention(upd: Upd, e: Element): Option<bool> {
    match upd
    case Add(x) => if x == e then Some(true) else None
    case Remove(x) => if x == e then Some(false) else None
    case AddAll(es) => if e in es then Some(true) else None
    case RemoveAll(es) => if e in es then Some(false) else None
  }

  /** What the latest update that mentions e says about it. */
  function Verdict(upds: seq<Upd>, e: Element): Option<bool> {
    if upds == [] then None
    else
      var later := Verdict(upds[1..], e);
      if later.Some? then later else Mention(upds[0], e)
  }

  lemma {:induction false} LatestMentionDecides(keys: set<Element>, upds: seq<Upd>, e: Element)
    ensures e in KeysAfter(keys, upds) <==> if Verdict(upds, e).Some? then Verdict(upds, e).value else e in keys
    decreases upds
  {
    if upds != [] {
      LatestMentionDecides(KeysStep(keys, upds[0]), upds[1..], e);
    }
  }

  ghost predicate NoDuplicates<T>(s: seq<T>) {
    forall i, j :: 0 <= i < j < |s| ==> s[i] != s[j]
  }

  lemma {:induction false} CountDistinct<T>(s: seq<T>)
    requires NoDuplicates(s)
    ensures |s| == |set x | x in s|
  {
    if s != [] {
      var front, last := s[..|s| - 1], s[|s| - 1];
      CountDistinct(front);
      assert last !in front;
      assert (set x | x in s) == (set x | x in front) + {last};
    }
  }

  // ---------------------------------------------------------------- the object

  /** getAndRemoveIntersection: what is left of the set, and what the source took out of it. */
  method GetAndRemoveIntersection(uniques: set<Unique>, source: set<Unique>) returns (left: set<Unique>, common: set<Unique>)
    ensures left == uniques - source && common == uniques * source
  {
    left, common := uniques, {};
    var todo := source;
    while todo != {}
      invariant todo <= source
      invariant left == uniques - (source - todo) && common == uniques * (source - todo)
    {
      var key := Pick(todo);
      todo := todo - {key};
      if key in left {
        common := common + {key};
        left := left - {key};
      }
    }
    assert source - {} == source;
  }

  /** addAll: the other set's uniques, one at a time. */
  method AddUniques(uniques: set<Unique>, other: set<Unique>) returns (r: set<Unique>)
    ensures r == uniques + other
  {
    r := uniques;
    var todo := other;
    while todo != {}
      invariant todo <= other && r == uniques + (other - todo)
    {
      var key := Pick(todo);
      todo := todo - {key};
      r := r + {key};
    }
    assert other - {} == other;
  }

  class SetAWCrdt {
    var elems: Elems

    constructor ()
      ensures elems == map[]
    {
      elems := map[];
    }

    method GetNElements(upds: seq<Upd>) returns (count: nat)
      ensures count == |KeysAfter(elems.Keys, upds)|
    {
      if |upds| == 0 {
        return |elems|;
      }
      var state := GetState(upds);
      CountDistinct(state);
      return |state|;
    }

    method GetState(upds: seq<Upd>) returns (state: seq<Element>)
      ensures NoDuplicates(state)
      ensures (set e | e in state) == KeysAfter(elems.Keys, upds)
    {
      if |upds| == 0 {
        state := KeysOf(elems.Keys, [], {});
        return;
      }
      var adds: set<Element>, rems: set<Element> := {}, {};
      var i := |upds|;
      while i > 0
        invariant 0 <= i <= |upds|
        invariant forall e :: e in adds <==> Verdict(upds[i..], e).Some? && Verdict(upds[i..], e).value
        invariant forall e :: e in rems <==> Verdict(upds[i..], e).Some? && !Verdict(upds[i..], e).value
      {
        i := i - 1;
        assert upds[i..][1..] == upds[i + 1..];
        forall e ensures Verdict(upds[i..], e) == if Verdict(upds[i + 1..], e).Some? then Verdict(upds[i + 1..], e) else Mention(upds[i], e) {}
        match upds[i] {
          case Add(e) => if e !in rems { adds := adds + {e}; }
          case AddAll(es) => adds := Mentioned(adds, rems, es);
          case Remove(e) => if e !in adds { rems := rems + {e}; }
          case RemoveAll(es) => rems := Mentioned(rems, adds, es);
        }
      }
      assert upds[0..] == upds;
      state := KeysOf(elems.Keys, [], rems);
      state := KeysOf(adds, state, elems.Keys);
      forall e ensures e in state <==> e in KeysAfter(elems.Keys, upds) {
        LatestMentionDecides(elems.Keys, upds, e);
      }
    }

    /** The inner loop of the scan: what is not already decided the other way. */
    method Mentioned(mine: set<Element>, others: set<Element>, es: seq<Element>) returns (r: set<Element>)
      requires mine !! others
      ensures r == mine + set e | e in es && e !in others
    {
      r := mine;
      for i := 0 to |es|
        invariant r == mine + set e | e in es[..i] && e !in others
      {
        assert es[..i + 1] == es[..i] + [es[i]];
        if es[i] !in others {
          r := r + {es[i]};
        }
      }
      assert es[..|es|] == es;
    }

    /** Append the keys that are not excluded, in any order. */
    method KeysOf(keys: set<Element>, before: seq<Element>, except: set<Element>) returns (r: seq<Element>)
      requires NoDuplicates(before) && forall e :: e in before ==> e !in keys || e in except
      ensures NoDuplicates(r) && forall e :: e in r <==> e in before || (e in keys && e !in except)
    {
      r := before;
      var todo := keys;
      while todo != {}
        invariant todo <= keys && NoDuplicates(r)
        invariant forall e :: e in r <==> e in before || (e in keys && e !in todo && e !in except)
      {
        var e := Pick(todo);
        todo := todo - {e};
        if e !in except {
          r := r + [e];
        }
      }
    }

    method Lookup(elem: Element, upds: seq<Upd>) returns (has: bool)
      ensures has == (elem in KeysAfter(elems.Keys, upds))
    {
      var hasElem := elem in elems;
      LatestMentionDecides(elems.Keys, upds, elem);
      if |upds| == 0 {
        return hasElem;
      }
      var i := |upds|;
      while i > 0
        invariant 0 <= i <= |upds|
        invariant Verdict(upds[i..], elem) == None
        invariant Verdict(upds[..], elem) == Verdict(upds, elem)
      {
        i := i - 1;
        assert upds[i..][1..] == upds[i + 1..];
        VerdictOfSuffix(upds, i, elem);
        match upds[i]
        case Add(e) => if e == elem { return true; }
        case AddAll(es) => if elem in es { return true; }
        case Remove(e) => if e == elem { return false; }
        case RemoveAll(es) => if elem in es { return false; }
      }
      assert upds[0..] == upds;
      return hasElem;
    }

    method Update(upd: Upd, draw: nat -> Unique) returns (down: Option<Op>)
      ensures down == Prepare(elems, upd, draw)
    {
      match upd
      case Add(e) => down := GetAddAllDownstreamArgs([e], draw);
      case Remove(e) => down := GetRemoveAllDownstreamArgs([e]);
      case AddAll(es) => down := GetAddAllDownstreamArgs(es, draw);
      case RemoveAll(es) => down := GetRemoveAllDownstreamArgs(es);
    }

    method GetAddAllDownstreamArgs(es: seq<Element>, draw: nat -> Unique) returns (down: Option<Op>)
      ensures down == PrepareAdd(es, draw)
    {
      var uniqueMap: map<Element, Unique> := map[];
      for i := 0 to |es|
        invariant uniqueMap == UniqueMap(es[..i], draw)
      {
        assert es[..i + 1][..i] == es[..i];
        uniqueMap := uniqueMap[es[i] := draw(i)];
      }
      assert es[..|es|] == es;
      return Some(DownAddAll(uniqueMap));
    }

    method GetRemoveAllDownstreamArgs(es: seq<Element>) returns (down: Option<Op>)
      ensures down == PrepareRemove(elems, es)
    {
      var uniqueMap: Elems := map[];
      for i := 0 to |es|
        invariant uniqueMap == Observed(elems, es[..i])
      {
        assert es[..i + 1] == es[..i] + [es[i]];
        if es[i] in elems {
          uniqueMap := uniqueMap[es[i] := elems[es[i]]];
        }
      }
      assert es[..|es|] == es;
      if |uniqueMap| == 0 {
        return None;
      }
      return Some(DownRemoveAll(uniqueMap));
    }

    method ApplyAddAll(toAdd: map<Element, Unique>) returns (effect: Effect)
      modifies this
      ensures elems == Apply(old(elems), DownAddAll(toAdd))
      ensures effect == EffectOf(old(elems), DownAddAll(toAdd))
    {
      var todo := toAdd.Keys;
      while todo != {}
        invariant todo <= toAdd.Keys
        invariant elems == Added(old(elems), toAdd - todo)
      {
        var key := Pick(todo);
        ghost var left := todo;
        todo := todo - {key};
        if key in elems {
          elems := elems[key := elems[key] + {toAdd[key]}];
        } else {
          elems := elems[key := {toAdd[key]}];
        }
        AddedStep(old(elems), toAdd, left, key);
      }
      assert toAdd - {} == toAdd;
      effect := AddAllEffect(toAdd);
    }

    method ApplyRemoveAll(toRem: Elems) returns (effect: Effect)
      modifies this
      ensures elems == Apply(old(elems), DownRemoveAll(toRem))
      ensures effect == EffectOf(old(elems), DownRemoveAll(toRem))
    {
      var removedMap: Elems := map[];
      var todo := toRem.Keys;
      assert Removed(elems, map[]) == elems;
      while todo != {}
        invariant todo <= toRem.Keys
        invariant elems == Removed(old(elems), toRem - todo)
        invariant removedMap == RemovedPart(old(elems), toRem - todo)
      {
        var key := Pick(todo);
        RemovedStep(old(elems), toRem, todo, key);
        todo := todo - {key};
        if key in elems {
          var existing, common := GetAndRemoveIntersection(elems[key], toRem[key]);
          removedMap := removedMap[key := common];
          if |existing| == 0 {
            elems := elems - {key};
          } else {
            elems := elems[key := existing];
          }
        }
      }
      assert toRem - {} == toRem;
      effect := RemoveAllEffect(removedMap);
    }

    method UndoAddAllEffect(added: map<Element, Unique>)
      modifies this
      ensures elems == Undo(old(elems), AddAllEffect(added))
    {
      ghost var named := map e | e in added :: {added[e]};
      var todo := added.Keys;
      assert Removed(elems, map[]) == elems;
      while todo != {}
        invariant todo <= added.Keys
        invariant elems == Removed(old(elems), named - todo)
      {
        var key := Pick(todo);
        RemovedStep(old(elems), named, todo, key);
        todo := todo - {key};
        if key in elems {
          var existing := elems[key] - {added[key]};
          if |existing| == 0 {
            elems := elems - {key};
          } else {
            elems := elems[key := existing];
          }
        }
      }
      assert named - {} == named;
    }

    method UndoRemoveAllEffect(removed: Elems)
      modifies this
      ensures elems == Undo(old(elems), RemoveAllEffect(removed))
    {
      var todo := removed.Keys;
      while todo != {}
        invariant todo <= removed.Keys
        invariant elems == Restored(old(elems), removed - todo)
      {
        var key := Pick(todo);
        RestoredStep(old(elems), removed, todo, key);
        todo := todo - {key};
        if key in elems {
          var uniques := AddUniques(elems[key], removed[key]);
          elems := elems[key := uniques];
        } else {
          var newSet := AddUniques({}, removed[key]);
          assert newSet == removed[key];
          elems := elems[key := newSet];
        }
      }
      assert removed - {} == removed;
    }
  }

  lemma {:induction false} VerdictOfSuffix(upds: seq<Upd>, i: nat, e: Element)
    requires i <= |upds|
    ensures Verdict(upds[i..], e).Some? ==> Verdict(upds, e) == Verdict(upds[i..], e)
  {
    if i > 0 {
      assert upds[i..] == upds[1..][i - 1..];
      VerdictOfSuffix(upds[1..], i - 1, e);
    }
  }

  lemma AddedStep(elems: Elems, added: map<Element, Unique>, todo: set<Element>, key: Element)
    requires key in todo && todo <= added.Keys
    ensures var before := Added(elems, added - todo);
            Added(elems, added - (todo - {key})) == before[key := if key in before then before[key] + {added[key]} else {added[key]}]
  {
  }

  lemma RemovedStep(elems: Elems, named: Elems, todo: set<Element>, key: Element)
    requires key in todo && todo <= named.Keys
    ensures var before := Removed(elems, named - todo);
            var left := Uniques(before, key) - named[key];
            && (key in before <==> key in elems) && Uniques(before, key) == Uniques(elems, key)
            && Removed(elems, named - (todo - {key}))
               == (if key !in before then before else if left == {} then before - {key} else before[key := left])
            && RemovedPart(elems, named - (todo - {key}))
               == (var part := RemovedPart(elems, named - todo);
                   if key in elems then part[key := elems[key] * named[key]] else part)
  {
  }

  lemma RestoredStep(elems: Elems, back: Elems, todo: set<Element>, key: Element)
    requires key in todo && todo <= back.Keys
    ensures var before := Restored(elems, back - todo);
            Restored(elems, back - (todo - {key})) == before[key := if key in before then before[key] + back[key] else back[key]]
  {
  }
}
