/** Reading earlier versions through the cache of potionDB/components/inverseOpVM.go: the version to undo
    from is itself often one that was rebuilt for an earlier read. */
module CachedReads {
  import opened GoMaps
  import opened Clocks
  import opened ClockBytes
  import opened ClockKeys
  import opened UndoLog
  import opened TimeTravel
  import opened SetHistory
  import opened SetRebuildAgain
  import A = AddWinsSet
  import C = CounterHistory

  type Versions<S, Op, Eff> = map<Bytes, Rebuild<S, Op, Eff>>

  /** A copy of the object, rebuilt to the target. */
  function Reverse<S, Op, Eff>(kind: Kind<S, Op, Eff>, target: Clock): Rebuild<S, Op, Eff> -> Rebuild<S, Op, Eff> {
    (c: Rebuild<S, Op, Eff>) => Rebuilt(kind, c.state, c.history, target)
  }

  /** The latest version: the state s after the history h. */
  function Latest<S, Op, Eff>(s: S, h: seq<Entry<Op, Eff>>): Rebuild<S, Op, Eff> {
    Rebuild(s, h, true)
  }

  ghost predicate ReadClock(t: Clock, ids: seq<int>) {
    NonNegative(t) && Orders(ids, t.Keys)
  }

  lemma SameOrder(a: Clock, b: Clock, ids: seq<int>)
    requires ReadClock(a, ids) && ReadClock(b, ids)
    ensures a.Keys == b.Keys
  {
    assert forall id :: id in a.Keys <==> id in ids;
    assert forall id :: id in b.Keys <==> id in ids;
  }

  // ---------------------------------------------------------------- what one read finds

  ghost predicate StaysInHistory<Op, Eff>(h: seq<Entry<Op, Eff>>, t: Clock) {
    Kept(h, t) == |h| || SomeHigher(h, Kept(h, t), t)
  }

  /** What a direct rebuild to t leaves, up to which higher entry stays in the history. */
  ghost predicate DirectCopy<S, Op, Eff>(kind: Kind<S, Op, Eff>, s: S, h: seq<Entry<Op, Eff>>, t: Clock, c: Rebuild<S, Op, Eff>) {
    var k := Kept(h, t);
    && c.state == Undone(kind, s, h, k)
    && c.ok
    && if k == |h| then c.history == h
       else exists i :: k <= i < |h| && CompareOf(h[i].ts, t) == HigherTs && c.history == h[..k] + [h[i]]
  }

  lemma DirectIsDirect<S, Op, Eff>(kind: Kind<S, Op, Eff>, s: S, h: seq<Entry<Op, Eff>>, t: Clock)
    requires StaysInHistory(h, t)
    ensures DirectCopy(kind, s, h, t, Rebuilt(kind, s, h, t))
  {
    RebuildUndoesSuffix(kind, s, h, t);
  }

  /** Undoing once more any entry that a rebuild to t may leave in the history changes nothing. */
  ghost predicate Harmless<S, Op, Eff>(kind: Kind<S, Op, Eff>, s: S, h: seq<Entry<Op, Eff>>, t: Clock) {
    var x := Undone(kind, s, h, Kept(h, t));
    forall i :: Kept(h, t) <= i < |h| && CompareOf(h[i].ts, t) == HigherTs ==> UndoEffects(kind, x, h[i].effects) == x
  }

  lemma HigherThanEarlier(c: Clock, ids: set<int>, t1: Clock, t2: Clock)
    requires c.Keys == t1.Keys == t2.Keys == ids && Leq(t2, t1) && CompareOf(c, t1) == HigherTs
    ensures CompareOf(c, t2) == HigherTs && !Leq(c, t1)
  {
    CompareDecides(c, t1);
    CompareDecides(c, t2);
    LeqIsPartialOrder(t2, t1, c);
    LeqIsPartialOrder(t1, c, t1);
  }

  /** A rebuild of a copy to a target that is not later reaches the state of a direct one. */
  lemma CopyState<S, Op, Eff>(kind: Kind<S, Op, Eff>, s: S, h: seq<Entry<Op, Eff>>, t1: Clock, m: nat, i: nat)
    requires Harmless(kind, s, h, t1) && m <= Kept(h, t1) <= i < |h| && CompareOf(h[i].ts, t1) == HigherTs
    ensures Undone(kind, Undone(kind, s, h, Kept(h, t1)), h[..Kept(h, t1)] + [h[i]], m) == Undone(kind, s, h, m)
  {
    var k := Kept(h, t1);
    UndoneLast(kind, Undone(kind, s, h, k), h[..k], h[i], m);
    UndoneSplits(kind, s, h, k, m);
  }

  /** The entry that it leaves at the end of the history is one that a direct rebuild might leave. */
  lemma CopyHistory<Op, Eff>(h: seq<Entry<Op, Eff>>, k: nat, m: nat, i: nat, t2: Clock, left: seq<Entry<Op, Eff>>)
    requires m <= k <= i < |h|
    requires var g := h[..k] + [h[i]];
             exists j :: m <= j < |g| && CompareOf(g[j].ts, t2) == HigherTs && left == g[..m] + [g[j]]
    ensures exists j :: m <= j < |h| && CompareOf(h[j].ts, t2) == HigherTs && left == h[..m] + [h[j]]
  {
    var g := h[..k] + [h[i]];
    var j :| m <= j < |g| && CompareOf(g[j].ts, t2) == HigherTs && left == g[..m] + [g[j]];
    assert g[..m] == h[..m];
    assert g[j] == h[if j < k then j else i];
  }

  lemma RebuiltCopy<S, Op, Eff>(kind: Kind<S, Op, Eff>, s: S, h: seq<Entry<Op, Eff>>, ids: set<int>, t1: Clock, t2: Clock, i: nat)
    requires SameIdsAll(h, ids) && t1.Keys == t2.Keys == ids && Leq(t2, t1) && Harmless(kind, s, h, t1)
    requires Kept(h, t1) <= i < |h| && CompareOf(h[i].ts, t1) == HigherTs
    ensures DirectCopy(kind, s, h, t2, Rebuilt(kind, Undone(kind, s, h, Kept(h, t1)), h[..Kept(h, t1)] + [h[i]], t2))
  {
    var k, m := Kept(h, t1), Kept(h, t2);
    var x, g := Undone(kind, s, h, k), h[..k] + [h[i]];
    HigherThanEarlier(h[i].ts, ids, t1, t2);
    RebuiltKeeps(h, k, h[i], ids, t1, t2);
    assert g[k] == h[i] && SomeHigher(g, m, t2);
    RebuildUndoesSuffix(kind, x, g, t2);
    CopyState(kind, s, h, t1, m, i);
    CopyHistory(h, k, m, i, t2, Rebuilt(kind, x, g, t2).history);
  }

  lemma RereadCopy<S, Op, Eff>(kind: Kind<S, Op, Eff>, s: S, h: seq<Entry<Op, Eff>>, ids: set<int>, t1: Clock, t2: Clock, c: Rebuild<S, Op, Eff>)
    requires SameIdsAll(h, ids) && t1.Keys == t2.Keys == ids && Leq(t2, t1) && Harmless(kind, s, h, t1)
    requires DirectCopy(kind, s, h, t1, c) && StaysInHistory(h, t2)
    ensures DirectCopy(kind, s, h, t2, Reverse(kind, t2)(c))
  {
    var k := Kept(h, t1);
    if k == |h| {
      assert Undone(kind, s, h, k) == s;
      DirectIsDirect(kind, s, h, t2);
    } else {
      var i :| k <= i < |h| && CompareOf(h[i].ts, t1) == HigherTs && c.history == h[..k] + [h[i]];
      RebuiltCopy(kind, s, h, ids, t1, t2, i);
    }
  }

  // ---------------------------------------------------------------- any sequence of reads

  /** Every cached version is what a direct rebuild leaves, at a clock at which undoing again is harmless. */
  ghost predicate Sound<S, Op, Eff>(kind: Kind<S, Op, Eff>, s: S, h: seq<Entry<Op, Eff>>, ids: seq<int>, cache: Versions<S, Op, Eff>) {
    forall key :: key in cache ==> SoundAt(kind, s, h, ids, key, cache[key])
  }

  ghost predicate SoundAt<S, Op, Eff>(kind: Kind<S, Op, Eff>, s: S, h: seq<Entry<Op, Eff>>, ids: seq<int>, key: Bytes, c: Rebuild<S, Op, Eff>) {
    exists t :: ReadClock(t, ids) && KeyOf(t, ids) == key && Harmless(kind, s, h, t) && DirectCopy(kind, s, h, t, c)
  }

  /** A read at the clock t. */
  ghost predicate ReadAt<S, Op, Eff>(kind: Kind<S, Op, Eff>, s: S, h: seq<Entry<Op, Eff>>, ids: seq<int>, t: Clock,
      cache: Versions<S, Op, Eff>, c: Rebuild<S, Op, Eff>, after: Versions<S, Op, Eff>)
  {
    var key := KeyOf(t, ids);
    && ReadClock(t, ids) && IsKey(key) && KeysOfSize(cache, |key|)
    && Reads(Latest(s, h), cache, key, Reverse(kind, t), c, after)
  }

  /** The i-th read is at the i-th clock and finds the i-th copy; at first nothing is cached. */
  ghost predicate ReadRun<S, Op, Eff>(kind: Kind<S, Op, Eff>, s: S, h: seq<Entry<Op, Eff>>, ids: seq<int>, clocks: seq<Clock>,
      caches: seq<Versions<S, Op, Eff>>, copies: seq<Rebuild<S, Op, Eff>>)
  {
    && |copies| == |clocks| && |caches| == |clocks| + 1 && caches[0] == map[]
    && forall i :: 0 <= i < |clocks| ==> ReadAt(kind, s, h, ids, clocks[i], caches[i], copies[i], caches[i + 1])
  }

  /** A read of a version that is cached. */
  lemma CachedIsDirect<S, Op, Eff>(kind: Kind<S, Op, Eff>, s: S, h: seq<Entry<Op, Eff>>, ids: seq<int>, t: Clock, c: Rebuild<S, Op, Eff>)
    requires ReadClock(t, ids) && SoundAt(kind, s, h, ids, KeyOf(t, ids), c)
    ensures DirectCopy(kind, s, h, t, c)
  {
    var t1 :| ReadClock(t1, ids) && KeyOf(t1, ids) == KeyOf(t, ids) && Harmless(kind, s, h, t1) && DirectCopy(kind, s, h, t1, c);
    SameOrder(t1, t, ids);
    KeyComparisonIsSound(t1, t, ids);
  }

  /** One rebuilt from a cached version with a key above. */
  lemma AboveIsDirect<S, Op, Eff>(kind: Kind<S, Op, Eff>, s: S, h: seq<Entry<Op, Eff>>, ids: seq<int>, t: Clock, key: Bytes, c: Rebuild<S, Op, Eff>)
    requires ReadClock(t, ids) && SameIdsAll(h, t.Keys) && StaysInHistory(h, t) && SoundAt(kind, s, h, ids, key, c)
    requires IsKey(KeyOf(t, ids)) && IsKey(key) && |KeyOf(t, ids)| == |key| && KeyLess(KeyOf(t, ids), key)
    ensures DirectCopy(kind, s, h, t, Reverse(kind, t)(c))
  {
    var t1 :| ReadClock(t1, ids) && KeyOf(t1, ids) == key && Harmless(kind, s, h, t1) && DirectCopy(kind, s, h, t1, c);
    SameOrder(t1, t, ids);
    KeyComparisonIsSound(t, t1, ids);
    CompareDecides(t, t1);
    RereadCopy(kind, s, h, t.Keys, t1, t, c);
  }

  lemma ReadIsDirect<S, Op, Eff>(kind: Kind<S, Op, Eff>, s: S, h: seq<Entry<Op, Eff>>, ids: seq<int>, t: Clock,
      cache: Versions<S, Op, Eff>, c: Rebuild<S, Op, Eff>, after: Versions<S, Op, Eff>)
    requires ReadAt(kind, s, h, ids, t, cache, c, after) && Sound(kind, s, h, ids, cache)
    requires SameIdsAll(h, t.Keys) && StaysInHistory(h, t)
    ensures DirectCopy(kind, s, h, t, c)
    ensures Harmless(kind, s, h, t) ==> Sound(kind, s, h, ids, after)
  {
    var key := KeyOf(t, ids);
    if key in cache {
      assert SoundAt(kind, s, h, ids, key, cache[key]);
      CachedIsDirect(kind, s, h, ids, t, c);
    } else {
      if SomeAbove(cache, key) {
        var best :| Closest(cache, key, best) && c == Reverse(kind, t)(cache[best]);
        assert SoundAt(kind, s, h, ids, best, cache[best]);
        AboveIsDirect(kind, s, h, ids, t, best, cache[best]);
      } else {
        DirectIsDirect(kind, s, h, t);
      }
      if Harmless(kind, s, h, t) {
        assert SoundAt(kind, s, h, ids, key, c);
        forall k | k in after ensures SoundAt(kind, s, h, ids, k, after[k]) {
          if k != key { assert SoundAt(kind, s, h, ids, k, cache[k]); }
        }
      }
    }
  }

  /** At each clock read, some higher entry is undone if any is, and undoing one of those again is harmless. */
  ghost predicate AllHarmless<S, Op, Eff>(kind: Kind<S, Op, Eff>, s: S, h: seq<Entry<Op, Eff>>, clocks: seq<Clock>) {
    forall i :: 0 <= i < |clocks| ==> StaysInHistory(h, clocks[i]) && Harmless(kind, s, h, clocks[i])
  }

  ghost predicate OverIds<Op, Eff>(h: seq<Entry<Op, Eff>>, ids: seq<int>) {
    forall i :: 0 <= i < |h| ==> Orders(ids, h[i].ts.Keys)
  }

  lemma SameIdsInRun<Op, Eff>(h: seq<Entry<Op, Eff>>, ids: seq<int>, t: Clock)
    requires ReadClock(t, ids) && OverIds(h, ids)
    ensures SameIdsAll(h, t.Keys)
  {
    forall i | 0 <= i < |h| ensures h[i].ts.Keys == t.Keys {
      assert Orders(ids, h[i].ts.Keys);
      assert forall id :: id in h[i].ts.Keys <==> id in ids;
      assert forall id :: id in t.Keys <==> id in ids;
    }
  }

  lemma NextRead<S, Op, Eff>(kind: Kind<S, Op, Eff>, s: S, h: seq<Entry<Op, Eff>>, ids: seq<int>, t: Clock,
      cache: Versions<S, Op, Eff>, c: Rebuild<S, Op, Eff>, after: Versions<S, Op, Eff>)
    requires ReadAt(kind, s, h, ids, t, cache, c, after) && Sound(kind, s, h, ids, cache)
    requires OverIds(h, ids) && StaysInHistory(h, t) && Harmless(kind, s, h, t)
    ensures Sound(kind, s, h, ids, after) && c.ok && c.state == Rebuilt(kind, s, h, t).state
  {
    SameIdsInRun(h, ids, t);
    ReadIsDirect(kind, s, h, ids, t, cache, c, after);
    RebuildUndoesSuffix(kind, s, h, t);
  }

  /** Whatever clocks are read in whatever order: if undoing a retained entry again is harmless at each of
      them, every read finds the state of a direct rebuild to its clock. */
  lemma {:induction false} ReadsAreExact<S, Op, Eff>(kind: Kind<S, Op, Eff>, s: S, h: seq<Entry<Op, Eff>>, ids: seq<int>,
      clocks: seq<Clock>, caches: seq<Versions<S, Op, Eff>>, copies: seq<Rebuild<S, Op, Eff>>, n: nat)
    requires ReadRun(kind, s, h, ids, clocks, caches, copies) && n <= |clocks|
    requires OverIds(h, ids) && AllHarmless(kind, s, h, clocks)
    ensures Sound(kind, s, h, ids, caches[n])
    ensures forall i :: 0 <= i < n ==> copies[i].ok && copies[i].state == Rebuilt(kind, s, h, clocks[i]).state
    decreases n
  {
    if n > 0 {
      ReadsAreExact(kind, s, h, ids, clocks, caches, copies, n - 1);
      NextRead(kind, s, h, ids, clocks[n - 1], caches[n - 1], copies[n - 1], caches[n]);
    }
  }

  // ---------------------------------------------------------------- two reads, exactly

  /** A read at t1 with nothing cached, which finds c1, and then one at t2, which finds c2. */
  ghost predicate TwoReads<S, Op, Eff>(kind: Kind<S, Op, Eff>, s: S, h: seq<Entry<Op, Eff>>, ids: seq<int>, t1: Clock, t2: Clock,
      c1: Rebuild<S, Op, Eff>, c2: Rebuild<S, Op, Eff>, cache: Versions<S, Op, Eff>, after: Versions<S, Op, Eff>)
  {
    ReadAt(kind, s, h, ids, t1, map[], c1, cache) && ReadAt(kind, s, h, ids, t2, cache, c2, after)
  }

  /** The key of t2 is below that of t1. */
  ghost predicate KeyBelow(ids: seq<int>, t2: Clock, t1: Clock) {
    var key1, key2 := KeyOf(t1, ids), KeyOf(t2, ids);
    IsKey(key1) && IsKey(key2) && |key1| == |key2| && KeyLess(key2, key1)
  }

  /** The second of two reads finds the state of a direct rebuild if and only if its key is not below the
      first one's or two rebuilds agree with one. */
  lemma SecondReadExactly<S, Op, Eff>(kind: Kind<S, Op, Eff>, s: S, h: seq<Entry<Op, Eff>>, ids: seq<int>, t1: Clock, t2: Clock,
      c1: Rebuild<S, Op, Eff>, c2: Rebuild<S, Op, Eff>, cache: Versions<S, Op, Eff>, after: Versions<S, Op, Eff>)
    requires TwoReads(kind, s, h, ids, t1, t2, c1, c2, cache, after)
    ensures c1 == Rebuilt(kind, s, h, t1)
    ensures KeyBelow(ids, t2, t1) ==> c2 == Rebuilt(kind, c1.state, c1.history, t2)
    ensures c2.state == Rebuilt(kind, s, h, t2).state <==> (KeyBelow(ids, t2, t1) ==> SecondAgrees(kind, s, h, t1, t2))
  {
    var key1, key2 := KeyOf(t1, ids), KeyOf(t2, ids);
    SameOrder(t1, t2, ids);
    KeyComparisonIsSound(t1, t2, ids);
    KeyLessIsStrict(key2, key1);
    assert cache == map[key1 := c1];
    if KeyBelow(ids, t2, t1) {
      assert key1 in cache && SomeAbove(cache, key2);
    }
  }

  lemma SecondReadIf<S, Op, Eff>(kind: Kind<S, Op, Eff>, s: S, h: seq<Entry<Op, Eff>>, ids: seq<int>, t1: Clock, t2: Clock,
      c1: Rebuild<S, Op, Eff>, c2: Rebuild<S, Op, Eff>, cache: Versions<S, Op, Eff>, after: Versions<S, Op, Eff>, agrees: bool)
    requires TwoReads(kind, s, h, ids, t1, t2, c1, c2, cache, after)
    requires KeyBelow(ids, t2, t1) ==> (SecondAgrees(kind, s, h, t1, t2) <==> agrees)
    ensures c2.state == Rebuilt(kind, s, h, t2).state <==> (KeyBelow(ids, t2, t1) ==> agrees)
  {
    SecondReadExactly(kind, s, h, ids, t1, t2, c1, c2, cache, after);
  }

  // ---------------------------------------------------------------- counters and sets

  lemma BelowIsEarlier(ids: seq<int>, t1: Clock, t2: Clock)
    requires ReadClock(t1, ids) && ReadClock(t2, ids)
    ensures t1.Keys == t2.Keys && (KeyBelow(ids, t2, t1) ==> Leq(t2, t1))
  {
    SameOrder(t1, t2, ids);
    KeyComparisonIsSound(t2, t1, ids);
    CompareDecides(t2, t1);
  }

  /** For a counter: unless the changes of the entry that the first read left in its copy add up to 0. */
  lemma CounterSecondReadExactly(value: int, h: seq<Entry<C.Op, C.Effect>>, ids: seq<int>, t1: Clock, t2: Clock,
      c1: Rebuild<int, C.Op, C.Effect>, c2: Rebuild<int, C.Op, C.Effect>,
      cache: Versions<int, C.Op, C.Effect>, after: Versions<int, C.Op, C.Effect>)
    requires TwoReads(C.CounterKind(), value, h, ids, t1, t2, c1, c2, cache, after)
    requires SameIdsAll(h, t1.Keys) && Kept(h, t1) < |h| && SomeHigher(h, Kept(h, t1), t1)
    ensures c2.state == Rebuilt(C.CounterKind(), value, h, t2).state
       <==> (KeyBelow(ids, t2, t1) ==> C.Total(Retained(h, t1).effects) == 0)
  {
    CounterBelow(value, h, ids, t1, t2);
    SecondReadIf(C.CounterKind(), value, h, ids, t1, t2, c1, c2, cache, after, C.Total(Retained(h, t1).effects) == 0);
  }

  lemma CounterBelow(value: int, h: seq<Entry<C.Op, C.Effect>>, ids: seq<int>, t1: Clock, t2: Clock)
    requires ReadClock(t1, ids) && ReadClock(t2, ids)
    requires SameIdsAll(h, t1.Keys) && Kept(h, t1) < |h| && SomeHigher(h, Kept(h, t1), t1)
    ensures KeyBelow(ids, t2, t1) ==>
      (SecondAgrees(C.CounterKind(), value, h, t1, t2) <==> C.Total(Retained(h, t1).effects) == 0)
  {
    BelowIsEarlier(ids, t1, t2);
    if KeyBelow(ids, t2, t1) { C.CounterSecondRebuild(value, h, t1.Keys, t1, t2); }
  }

  lemma EarlierKey(ids: seq<int>, t1: Clock, t2: Clock)
    requires ids == [1] && t1 == map[1 := 2] && t2 == map[1 := 0]
    ensures KeyBelow(ids, t2, t1)
  {
    KeyComparesHalves(t1, t2, ids);
    KeyComparesHalves(t2, t1, ids);
    assert !HalvesLeq(Get(t1, ids[0]), Get(t2, ids[0]));
    KeyLessIsStrict(KeyOf(t2, ids), KeyOf(t1, ids));
  }

  lemma FoundBelow<S, Op, Eff>(kind: Kind<S, Op, Eff>, s: S, h: seq<Entry<Op, Eff>>, ids: seq<int>, t1: Clock, t2: Clock,
      c1: Rebuild<S, Op, Eff>, c2: Rebuild<S, Op, Eff>, cache: Versions<S, Op, Eff>, after: Versions<S, Op, Eff>)
    ensures var once := Rebuilt(kind, s, h, t1);
            TwoReads(kind, s, h, ids, t1, t2, c1, c2, cache, after) && KeyBelow(ids, t2, t1) ==>
              c1.state == once.state && c2.state == Rebuilt(kind, once.state, once.history, t2).state
  {
    if TwoReads(kind, s, h, ids, t1, t2, c1, c2, cache, after) {
      SecondReadExactly(kind, s, h, ids, t1, t2, c1, c2, cache, after);
    }
  }

  /** A counter after increments of first and last, read in between and then at the start: the second read
      finds -last, where the counter was 0. */
  lemma CounterReadFails(first: int, last: int, h: seq<Entry<C.Op, C.Effect>>, ids: seq<int>, t1: Clock, t2: Clock,
      c1: Rebuild<int, C.Op, C.Effect>, c2: Rebuild<int, C.Op, C.Effect>,
      cache: Versions<int, C.Op, C.Effect>, after: Versions<int, C.Op, C.Effect>)
    requires h == [Entry(map[1 := 1], [C.Increment(first)], [C.IncrementEffect(first)]),
                   Entry(map[1 := 3], [C.Increment(last)], [C.IncrementEffect(last)])]
    requires ids == [1] && t1 == map[1 := 2] && t2 == map[1 := 0]
    requires TwoReads(C.CounterKind(), first + last, h, ids, t1, t2, c1, c2, cache, after)
    ensures c1.state == first && c2.state == -last
  {
    EarlierKey(ids, t1, t2);
    FoundBelow(C.CounterKind(), first + last, h, ids, t1, t2, c1, c2, cache, after);
    C.CounterSecondRebuildFails(first, last, h, t1, t2);
  }

  lemma SetBelow(s: A.Elems, h: seq<SetEntry>, ids: seq<int>, t1: Clock, t2: Clock)
    requires FreshLog(s, h) && Recorded(SetKind(), s, h) && UniquesOnce(s, h) && ReadClock(t1, ids) && ReadClock(t2, ids)
    requires SameIdsAll(h, t1.Keys) && Kept(h, t1) < |h| && SomeHigher(h, Kept(h, t1), t1)
    ensures KeyBelow(ids, t2, t1) ==>
      (SecondAgrees(SetKind(), Replay(SetKind(), s, h), h, t1, t2) <==> PutsNothingBack(s, h, t1, t2))
  {
    BelowIsEarlier(ids, t1, t2);
    if KeyBelow(ids, t2, t1) { SetSecondRebuildExactly(s, h, t1.Keys, t1, t2); }
  }

  /** For a set: unless undoing that entry again puts something back. */
  lemma SetSecondReadExactly(s: A.Elems, h: seq<SetEntry>, ids: seq<int>, t1: Clock, t2: Clock,
      c1: Rebuild<A.Elems, A.Op, A.Effect>, c2: Rebuild<A.Elems, A.Op, A.Effect>,
      cache: Versions<A.Elems, A.Op, A.Effect>, after: Versions<A.Elems, A.Op, A.Effect>)
    requires FreshLog(s, h) && Recorded(SetKind(), s, h) && UniquesOnce(s, h)
    requires TwoReads(SetKind(), Replay(SetKind(), s, h), h, ids, t1, t2, c1, c2, cache, after)
    requires SameIdsAll(h, t1.Keys) && Kept(h, t1) < |h| && SomeHigher(h, Kept(h, t1), t1)
    ensures c2.state == Rebuilt(SetKind(), Replay(SetKind(), s, h), h, t2).state
       <==> (KeyBelow(ids, t2, t1) ==> PutsNothingBack(s, h, t1, t2))
  {
    SetBelow(s, h, ids, t1, t2);
    SecondReadIf(SetKind(), Replay(SetKind(), s, h), h, ids, t1, t2, c1, c2, cache, after, PutsNothingBack(s, h, t1, t2));
  }

  /** The effects of all entries that are higher than the target are settled in the kept ones. */
  ghost predicate AllSettled(s: A.Elems, h: seq<SetEntry>, t: Clock) {
    forall i :: Kept(h, t) <= i < |h| && CompareOf(h[i].ts, t) == HigherTs ==>
      h[i].effects != [] && Settled(Replay(SetKind(), s, h[..Kept(h, t)]), h[i].effects[0])
  }

  lemma SetHarmlessExactly(s: A.Elems, h: seq<SetEntry>, t: Clock)
    requires FreshLog(s, h) && Recorded(SetKind(), s, h)
    ensures Harmless(SetKind(), Replay(SetKind(), s, h), h, t) <==> AllSettled(s, h, t)
  {
    var k := Kept(h, t);
    var x := Replay(SetKind(), s, h[..k]);
    UndoneIs(s, h, k);
    ReplayNeverLeavesEmpty(s, h[..k]);
    forall i | k <= i < |h| ensures |h[i].effects| == 1 && (UndoEffects(SetKind(), x, h[i].effects) == x <==> Settled(x, h[i].effects[0])) {
      OneEffect(s, h, i);
      RetainedUndo(x, h[i]);
    }
  }

  /** All reads of a set are exact, in any order, when at each clock read the effects of the higher entries
      are settled in the kept ones: no later add was there before, and all that later removes took still is. */
  lemma SetReadsAreExact(s: A.Elems, h: seq<SetEntry>, ids: seq<int>, clocks: seq<Clock>,
      caches: seq<Versions<A.Elems, A.Op, A.Effect>>, copies: seq<Rebuild<A.Elems, A.Op, A.Effect>>)
    requires FreshLog(s, h) && Recorded(SetKind(), s, h)
    requires ReadRun(SetKind(), Replay(SetKind(), s, h), h, ids, clocks, caches, copies)
    requires OverIds(h, ids)
    requires forall i :: 0 <= i < |clocks| ==> StaysInHistory(h, clocks[i]) && AllSettled(s, h, clocks[i])
    ensures forall i :: 0 <= i < |clocks| ==> copies[i].ok && copies[i].state == Replay(SetKind(), s, h[..Kept(h, clocks[i])])
  {
    forall i | 0 <= i < |clocks| ensures StaysInHistory(h, clocks[i]) && Harmless(SetKind(), Replay(SetKind(), s, h), h, clocks[i]) {
      SetHarmlessExactly(s, h, clocks[i]);
    }
    ReadsAreExact(SetKind(), Replay(SetKind(), s, h), h, ids, clocks, caches, copies, |clocks|);
    forall i | 0 <= i < |clocks| ensures copies[i].state == Replay(SetKind(), s, h[..Kept(h, clocks[i])]) {
      RebuildUndoesSuffix(SetKind(), Replay(SetKind(), s, h), h, clocks[i]);
      UndoneIs(s, h, Kept(h, clocks[i]));
    }
  }
}
