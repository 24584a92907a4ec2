/** What applying an add or a remove keeps in the top-K of TopKRmv: the invariant of the visible and the
    hidden adds, the exact condition under which a remove keeps it, and which adds are stored at all. */
module TopKInvariant {
  import opened GoMaps
  import opened Clocks
  import opened TopKRmv

  ghost predicate IsHidden(hidden: Hidden, x: Elem) {
    x.id in hidden && x in hidden[x.id]
  }

  /** A hidden add of a visible id is not higher than the visible one. */
  ghost predicate HiddenLow(elems: Elems, hidden: Hidden) {
    forall x :: IsHidden(hidden, x) && x.id in elems ==> !IsHigher(x, elems[x.id])
  }

  /** A hidden add of an id that is not visible is below the smallest visible one of a full top. */
  ghost predicate InvisibleLow(elems: Elems, hidden: Hidden, smallest: Elem, maxElems: nat) {
    forall x :: IsHidden(hidden, x) && x.id !in elems ==> |elems| == maxElems && IsHigher(smallest, x)
  }

  ghost predicate NoneEmpty(hidden: Hidden) {
    forall id :: id in hidden ==> hidden[id] != {}
  }

  ghost predicate Inv(s: State) {
    && WellFormed(s)
    && |s.elems| <= s.maxElems
    && IsMinOf(s.elems, s.smallest)
    && NoneEmpty(s.hidden)
    && HiddenLow(s.elems, s.hidden)
    && InvisibleLow(s.elems, s.hidden, s.smallest, s.maxElems)
  }

  lemma EmptyTopKeepsInv(s: State)
    requires s.maxElems >= 1 && s.elems == map[] && s.smallest == ZERO && s.hidden == map[]
    ensures Inv(s)
  {
  }

  // ---------------------------------------------------------------- the hidden adds

  lemma HideHides(hidden: Hidden, y: Elem)
    requires KeyedHidden(hidden) && y.ts >= 1
    ensures forall x :: IsHidden(Hide(hidden, y), x) <==> IsHidden(hidden, x) || x == y
    ensures KeyedHidden(Hide(hidden, y))
    ensures NoneEmpty(hidden) ==> NoneEmpty(Hide(hidden, y))
  {
    assert y in Hide(hidden, y)[y.id];
  }

  lemma UnhideTakesOne(hidden: Hidden, y: Elem)
    requires KeyedHidden(hidden)
    ensures forall x :: IsHidden(Unhide(hidden, y), x) <==> IsHidden(hidden, x) && x != y
    ensures NoneEmpty(hidden) ==> NoneEmpty(Unhide(hidden, y))
  {
    forall x { UnhideAt(hidden, y, x); }
  }

  lemma UnhideAt(hidden: Hidden, y: Elem, x: Elem)
    requires KeyedHidden(hidden)
    ensures IsHidden(Unhide(hidden, y), x) <==> IsHidden(hidden, x) && x != y
  {
    if x.id == y.id && IsHidden(hidden, x) && x != y {
      assert x in HiddenOf(hidden, y.id) - {y};
    }
  }

  ghost predicate Seen(x: Elem, id: int, vc: Clock) {
    x.id == id && x.ts <= Get(vc, x.replica)
  }

  lemma RecordedHidden(s: State, id: int, vc: Clock)
    requires KeyedHidden(s.hidden)
    ensures forall x :: IsHidden(Recorded(s, id, vc).hidden, x) <==> IsHidden(s.hidden, x) && !Seen(x, id, vc)
    ensures NoneEmpty(s.hidden) ==> NoneEmpty(Recorded(s, id, vc).hidden)
    ensures HiddenOf(Recorded(s, id, vc).hidden, id) == Survivors(s, id, vc)
  {
    var hidden := HiddenAfter(s, id, vc);
    forall x ensures IsHidden(hidden, x) <==> IsHidden(s.hidden, x) && !Seen(x, id, vc) {
      if x.id == id && id in s.hidden {
        assert x in Survivors(s, id, vc) <==> x in s.hidden[id] && x.ts > Get(vc, x.replica);
      }
    }
  }

  // ---------------------------------------------------------------- adds

  /** The smallest of a top with one add put in place of a lower one of the same id, or put on top. */
  lemma MinAfterPut(elems: Elems, m: Elem, x: Elem)
    requires Keyed(elems) && IsMinOf(elems, m) && x.ts >= 1
    requires x.id in elems ==> IsHigher(x, elems[x.id])
    ensures x.id !in elems ==> IsMinOf(elems[x.id := x], if elems == map[] || IsHigher(m, x) then x else m)
    ensures x.id in elems && m != elems[x.id] ==> IsMinOf(elems[x.id := x], m)
    ensures x.id in elems ==> var m' := MinOf(elems[x.id := x]); m' == m || IsHigher(m', m)
  {
    var now := elems[x.id := x];
    MinExists(now);
    var m' := MinOf(now);
    assert m'.id != x.id ==> elems[m'.id] == m';
  }

  lemma InsertReplacing(s: State, x: Elem)
    requires Inv(s) && x.ts >= 1 && x.id in s.elems && IsHigher(x, s.elems[x.id])
    ensures Inv(Inserted(s, x))
  {
    var e, elems := s.elems[x.id], s.elems[x.id := x];
    var s' := Inserted(s, x);
    MinAfterPut(s.elems, s.smallest, x);
    MinExists(elems);
    HideHides(s.hidden, e);
    assert |elems| == |s.elems| by { assert elems.Keys == s.elems.Keys; assert |elems.Keys| == |s.elems.Keys|; }
    forall y | IsHidden(s'.hidden, y) && y.id in elems ensures !IsHigher(y, elems[y.id]) {
      assert y != e ==> IsHidden(s.hidden, y);
    }
    forall y | IsHidden(s'.hidden, y) && y.id !in elems ensures |elems| == s.maxElems && IsHigher(s'.smallest, y) {
      assert IsHidden(s.hidden, y) && IsHigher(s.smallest, y);
    }
  }

  lemma InsertIntoSpace(s: State, x: Elem)
    requires Inv(s) && x.ts >= 1 && x.id !in s.elems && |s.elems| < s.maxElems
    ensures Inv(Inserted(s, x))
  {
    MinAfterPut(s.elems, s.smallest, x);
    assert |s.elems[x.id := x]| == |s.elems| + 1;
    forall y | IsHidden(s.hidden, y) ensures y.id in s.elems {
    }
  }

  lemma InsertEvicting(s: State, x: Elem)
    requires Inv(s) && x.ts >= 1 && x.id !in s.elems && |s.elems| == s.maxElems && IsHigher(x, s.smallest)
    ensures Inv(Inserted(s, x))
  {
    var m := s.smallest;
    assert s.elems != map[];
    var rest := s.elems - {m.id};
    var elems := rest[x.id := x];
    assert |elems| == |s.elems| by {
      assert rest.Keys == s.elems.Keys - {m.id} && |rest.Keys| == |s.elems.Keys| - 1;
    }
    MinExists(elems);
    var m' := MinOf(elems);
    assert IsHigher(m', m) by { if m'.id != x.id { assert s.elems[m'.id] == m'; } }
    HideHides(s.hidden, m);
    forall y | IsHidden(Hide(s.hidden, m), y) && y.id in elems ensures !IsHigher(y, elems[y.id]) {
      if y.id != x.id { assert elems[y.id] == s.elems[y.id]; }
    }
    forall y | IsHidden(Hide(s.hidden, m), y) && y.id !in elems ensures IsHigher(m', y) {
      if y != m && y.id in s.elems { assert y.id == m.id; }
    }
  }

  lemma InsertHiding(s: State, x: Elem)
    requires Inv(s) && x.ts >= 1
    requires if x.id in s.elems then !IsHigher(x, s.elems[x.id]) else |s.elems| == s.maxElems && !IsHigher(x, s.smallest)
    ensures Inv(Inserted(s, x))
  {
    HideHides(s.hidden, x);
  }

  /** Every add, from any replica and in any order, keeps the invariant. */
  lemma AddKeepsInv(s: State, x: Elem)
    requires Inv(s) && x.ts >= 1
    ensures Inv(Added(s, x))
  {
    var s' := s.(vc := SeenBy(s.vc, x));
    if !Suppressed(s, x) {
      if x.id in s.elems {
        if IsHigher(x, s.elems[x.id]) { InsertReplacing(s', x); } else { InsertHiding(s', x); }
      } else if |s.elems| < s.maxElems {
        InsertIntoSpace(s', x);
      } else if IsHigher(x, s.smallest) {
        InsertEvicting(s', x);
      } else {
        InsertHiding(s', x);
      }
    }
  }

  // ---------------------------------------------------------------- removes

  lemma RecordKeepsInv(s: State, id: int, vc: Clock)
    requires Inv(s)
    ensures Inv(Recorded(s, id, vc))
  {
    RecordedHidden(s, id, vc);
    var r := Recorded(s, id, vc);
    forall i, x | i in r.hidden && x in r.hidden[i] ensures x.id == i && x.ts >= 1 {
      assert i in s.hidden && x in s.hidden[i];
    }
  }

  /** The promoted element leaves the cached minimum right: in a full top it must be below all other
      visible ones, and otherwise it must replace the minimum or be above it. */
  ghost predicate FitsMinimum(s: State, id: int, h: Elem)
    requires id in s.elems
  {
    if WasFull(s, id) then forall i :: i in s.elems && i != id ==> IsHigher(s.elems[i], h)
    else s.elems[id] == s.smallest || IsHigher(h, s.smallest)
  }

  lemma SizeWithout(elems: Elems, id: int)
    requires id in elems
    ensures |elems - {id}| == |elems| - 1
  {
    assert (elems - {id}).Keys == elems.Keys - {id};
    assert |(elems - {id}).Keys| == |elems.Keys| - 1;
  }

  lemma MinWithout(elems: Elems, m: Elem, id: int)
    requires Keyed(elems) && IsMinOf(elems, m) && id in elems && elems[id] != m
    ensures IsMinOf(elems - {id}, m)
  {
    assert m.id in elems - {id};
  }

  /** Without a promoted element. */
  lemma TakenKeepsInv(s: State, id: int)
    requires Inv(s) && id in s.elems && Promotes(s, id, ZERO)
    ensures Inv(Taken(s, id, ZERO))
  {
    var e, elems := s.elems[id], s.elems - {id};
    SizeWithout(s.elems, id);
    MinExists(elems);
    if e != s.smallest { MinWithout(s.elems, s.smallest, id); }
    forall x | IsHidden(s.hidden, x) ensures x.id in elems {
      if WasFull(s, id) { assert !IsCandidate(s.hidden, elems, x); }
    }
  }

  lemma TakenHidden(s: State, id: int, h: Elem)
    requires Inv(s) && id in s.elems && Promotes(s, id, h) && h != ZERO
    ensures IsHidden(s.hidden, h) && h.id !in s.elems - {id}
    ensures var s' := Taken(s, id, h);
            && WellFormed(s') && |s'.elems| == |s.elems| && NoneEmpty(s'.hidden) && HiddenLow(s'.elems, s'.hidden)
  {
    var elems := s.elems - {id};
    SizeWithout(s.elems, id);
    TakenIsWellFormed(s, id, h);
    UnhideTakesOne(s.hidden, h);
    assert h in HiddenOf(s.hidden, h.id);
    forall x | IsHidden(Unhide(s.hidden, h), x) && x.id in elems[h.id := h] ensures !IsHigher(x, elems[h.id := h][x.id]) {
      assert IsHidden(s.hidden, x);
      if x.id == h.id {
        assert WasFull(s, id) ==> IsCandidate(s.hidden, elems, x);
      }
    }
  }

  /** A promotion into a top that was full. */
  lemma TakenFull(s: State, id: int, h: Elem)
    requires Inv(s) && id in s.elems && Promotes(s, id, h) && h != ZERO && WasFull(s, id)
    ensures Inv(Taken(s, id, h)) <==> FitsMinimum(s, id, h)
  {
    var s', elems := Taken(s, id, h), s.elems - {id};
    TakenHidden(s, id, h);
    SizeWithout(s.elems, id);
    UnhideTakesOne(s.hidden, h);
    forall x | IsHidden(s'.hidden, x) && x.id !in s'.elems ensures IsHigher(h, x) {
      assert IsCandidate(s.hidden, elems, x);
    }
    if FitsMinimum(s, id, h) {
      forall i | i in s'.elems && i != h.id ensures IsHigher(s'.elems[i], h) {
        assert i in s.elems && s'.elems[i] == s.elems[i];
      }
      assert IsMinOf(s'.elems, h);
    } else {
      var i :| i in s.elems && i != id && !IsHigher(s.elems[i], h);
      assert i in s'.elems && s'.elems[i] == s.elems[i];
    }
  }

  /** A promotion into a top with free space: only an add of the removed id can move up. */
  lemma TakenNotFull(s: State, id: int, h: Elem)
    requires Inv(s) && id in s.elems && Promotes(s, id, h) && h != ZERO && !WasFull(s, id)
    ensures Inv(Taken(s, id, h)) <==> FitsMinimum(s, id, h)
  {
    var s', m := Taken(s, id, h), s.smallest;
    TakenHidden(s, id, h);
    SizeWithout(s.elems, id);
    UnhideTakesOne(s.hidden, h);
    assert h.id == id && !IsHigher(h, s.elems[id]);
    assert s'.elems == s.elems[id := h] by { SameMap(s'.elems, s.elems[id := h]); }
    forall x | IsHidden(s'.hidden, x) ensures x.id in s'.elems {
    }
    forall i | i in s.elems && i != id ensures s'.elems[i] == s.elems[i] {
    }
    if s.elems[id] == m {
      assert IsMinOf(s'.elems, h);
    } else {
      assert m.id in s'.elems && s'.elems[m.id] == m;
      assert IsMinOf(s'.elems, m) <==> IsHigher(h, m);
    }
  }

  lemma TakenKeepsInvExactly(s: State, id: int, vc: Clock, h: Elem)
    requires Inv(s) && Takes(s, id, vc) && MayPromote(s, id, vc, h)
    ensures Inv(Removed(s, id, vc, h)) <==> h == ZERO || FitsMinimum(s, id, h)
  {
    RecordKeepsInv(s, id, vc);
    var r := Recorded(s, id, vc);
    assert FitsMinimum(r, id, h) <==> FitsMinimum(s, id, h);
    if h == ZERO { TakenKeepsInv(r, id); }
    else if WasFull(r, id) { TakenFull(r, id, h); }
    else { TakenNotFull(r, id, h); }
  }

  /** Known before the call: if the remove takes a visible add then, in a full top, every hidden add of the
      id that it has not seen is below all other visible ones; with free space, the add it takes is the
      smallest, or some such hidden add is above the smallest, or there is none. */
  ghost predicate SafeRemove(s: State, id: int, vc: Clock) {
    Takes(s, id, vc) ==>
      if WasFull(s, id) then forall x :: x in Survivors(s, id, vc) ==> BelowOthers(s.elems, id, x)
      else s.elems[id] == s.smallest || Survivors(s, id, vc) == {} || exists x :: x in Survivors(s, id, vc) && IsHigher(x, s.smallest)
  }

  ghost predicate BelowOthers(elems: Elems, id: int, x: Elem) {
    forall i :: i in elems && i != id ==> IsHigher(elems[i], x)
  }

  /** In a full top the promoted add is a survivor of the id, or of another id and then below all. */
  lemma FullPromotion(s: State, id: int, vc: Clock, h: Elem)
    requires Inv(s) && Takes(s, id, vc) && MayPromote(s, id, vc, h) && WasFull(s, id) && h != ZERO
    ensures h.id == id ==> h in Survivors(s, id, vc)
    ensures h.id != id ==> BelowOthers(s.elems, id, h)
    ensures forall x :: x in Survivors(s, id, vc) ==> !IsHigher(x, h)
  {
    var r := Recorded(s, id, vc);
    RecordedHidden(s, id, vc);
    assert WasFull(r, id) && IsCandidate(r.hidden, r.elems - {id}, h);
    assert IsHidden(r.hidden, h);
    if h.id != id {
      assert IsHidden(s.hidden, h) && h.id !in s.elems;
      forall i | i in s.elems && i != id ensures IsHigher(s.elems[i], h) {
        assert i == s.smallest.id || IsHigher(s.elems[i], s.smallest);
      }
    }
    forall x | x in Survivors(s, id, vc) ensures !IsHigher(x, h) {
      assert x in HiddenOf(r.hidden, id) && x.id == id;
      assert IsCandidate(r.hidden, r.elems - {id}, x);
    }
  }

  lemma FullIsSafeExactly(s: State, id: int, vc: Clock, h: Elem)
    requires Inv(s) && Takes(s, id, vc) && MayPromote(s, id, vc, h) && WasFull(s, id)
    ensures h == ZERO || FitsMinimum(s, id, h) <==> SafeRemove(s, id, vc)
  {
    if h != ZERO {
      FullPromotion(s, id, vc, h);
      if FitsMinimum(s, id, h) {
        forall x | x in Survivors(s, id, vc) ensures BelowOthers(s.elems, id, x) {
          forall i | i in s.elems && i != id ensures IsHigher(s.elems[i], x) {
            assert IsHigher(s.elems[i], h) && !IsHigher(x, h) && h.ts >= 1;
          }
        }
      }
    } else {
      RecordedHidden(s, id, vc);
      var r := Recorded(s, id, vc);
      forall x ensures x !in Survivors(s, id, vc) {
        assert x in HiddenOf(r.hidden, id) ==> IsCandidate(r.hidden, r.elems - {id}, x);
      }
    }
  }

  lemma SpaceIsSafeExactly(s: State, id: int, vc: Clock, h: Elem)
    requires Inv(s) && Takes(s, id, vc) && MayPromote(s, id, vc, h) && !WasFull(s, id)
    ensures h == ZERO || FitsMinimum(s, id, h) <==> SafeRemove(s, id, vc)
  {
    RecordedHidden(s, id, vc);
    var r := Recorded(s, id, vc);
    assert !WasFull(r, id) && IsHighestIn(Survivors(s, id, vc), h);
    forall x | x in Survivors(s, id, vc) ensures x.ts >= 1 {
    }
  }

  /** Exactly when a remove keeps the invariant, whichever add it promotes: when it is safe. */
  lemma RemoveKeepsInvExactly(s: State, id: int, vc: Clock, h: Elem)
    requires Inv(s) && MayPromote(s, id, vc, h)
    ensures Inv(Removed(s, id, vc, h)) <==> SafeRemove(s, id, vc)
  {
    if !Takes(s, id, vc) {
      RecordKeepsInv(s, id, vc);
    } else {
      TakenKeepsInvExactly(s, id, vc, h);
      if WasFull(s, id) { FullIsSafeExactly(s, id, vc, h); } else { SpaceIsSafeExactly(s, id, vc, h); }
    }
  }

  /** In particular, a remove that has seen every hidden add of its id keeps the invariant. */
  lemma FullRemoveKeepsInv(s: State, id: int, vc: Clock, h: Elem)
    requires Inv(s) && MayPromote(s, id, vc, h) && Survivors(s, id, vc) == {}
    ensures Inv(Removed(s, id, vc, h))
  {
    RemoveKeepsInvExactly(s, id, vc, h);
  }

  // ---------------------------------------------------------------- which adds are stored

  ghost predicate IsStored(s: State, x: Elem) {
    (x.id in s.elems && s.elems[x.id] == x) || IsHidden(s.hidden, x)
  }

  /** The add takes the place of a lower one of the same id from the same replica, which is forgotten. */
  ghost predicate Replaces(s: State, x: Elem) {
    x.id in s.elems && IsHigher(x, s.elems[x.id]) && s.elems[x.id].replica == x.replica
  }

  lemma InsertConservesVisible(s: State, x: Elem, y: Elem)
    requires WellFormed(s) && x.ts >= 1 && x.id in s.elems
    ensures IsStored(Inserted(s, x), x)
    ensures IsStored(Inserted(s, x), y) ==> IsStored(s, y) || y == x
    ensures IsStored(s, y) ==> IsStored(Inserted(s, x), y) || (Replaces(s, x) && y == s.elems[x.id])
  {
    if IsHigher(x, s.elems[x.id]) {
      HideHides(s.hidden, s.elems[x.id]);
    } else {
      HideHides(s.hidden, x);
    }
  }

  lemma InsertConservesInvisible(s: State, x: Elem, y: Elem)
    requires WellFormed(s) && x.ts >= 1 && x.id !in s.elems && IsMinOf(s.elems, s.smallest)
    ensures IsStored(Inserted(s, x), x)
    ensures IsStored(Inserted(s, x), y) <==> IsStored(s, y) || y == x
  {
    if |s.elems| < s.maxElems {
    } else if IsHigher(x, s.smallest) {
      HideHides(s.hidden, s.smallest);
    } else {
      HideHides(s.hidden, x);
    }
  }

  /** The lower add by the same replica that a higher one replaces is forgotten, unless it is hidden as well. */
  lemma ReplacedIsForgotten(s: State, x: Elem)
    requires WellFormed(s) && x.ts >= 1 && !Suppressed(s, x) && Replaces(s, x)
    ensures var e := s.elems[x.id]; IsStored(Added(s, x), e) <==> e in HiddenOf(s.hidden, x.id)
  {
  }

  /** An add that is not suppressed is stored, and of the others only the one it replaces is forgotten. */
  lemma AddConserves(s: State, x: Elem)
    requires Inv(s) && x.ts >= 1
    ensures Suppressed(s, x) ==> forall y :: IsStored(Added(s, x), y) <==> IsStored(s, y)
    ensures !Suppressed(s, x) ==> IsStored(Added(s, x), x)
    ensures !Suppressed(s, x) ==> forall y :: IsStored(Added(s, x), y) ==> IsStored(s, y) || y == x
    ensures !Suppressed(s, x) ==> forall y :: IsStored(s, y) ==> IsStored(Added(s, x), y) || (Replaces(s, x) && y == s.elems[x.id])
  {
    var s' := s.(vc := SeenBy(s.vc, x));
    forall y
      ensures Suppressed(s, x) ==> (IsStored(Added(s, x), y) <==> IsStored(s, y))
      ensures !Suppressed(s, x) ==> IsStored(Added(s, x), x)
      ensures !Suppressed(s, x) ==> (IsStored(Added(s, x), y) ==> IsStored(s, y) || y == x)
      ensures !Suppressed(s, x) ==> (IsStored(s, y) ==> IsStored(Added(s, x), y) || (Replaces(s, x) && y == s.elems[x.id]))
    {
      if x.id in s.elems { InsertConservesVisible(s', x, y); } else { InsertConservesInvisible(s', x, y); }
    }
  }

  /** A remove forgets exactly the adds that it has seen; a promotion only moves one. */
  lemma RemoveConserves(s: State, id: int, vc: Clock, h: Elem)
    requires WellFormed(s) && MayPromote(s, id, vc, h)
    ensures forall y :: IsStored(Removed(s, id, vc, h), y) <==> IsStored(s, y) && !Seen(y, id, vc)
  {
    RecordedHidden(s, id, vc);
    if Takes(s, id, vc) {
      RecordedKeyed(s, id, vc);
      forall y { TakenConserves(Recorded(s, id, vc), id, h, y); }
    }
  }

  lemma RecordedKeyed(s: State, id: int, vc: Clock)
    requires WellFormed(s)
    ensures WellFormed(Recorded(s, id, vc))
  {
    var r := Recorded(s, id, vc);
    forall i, x | i in r.hidden && x in r.hidden[i] ensures x.id == i && x.ts >= 1 {
      assert i in s.hidden && x in s.hidden[i];
    }
  }

  lemma TakenConserves(s: State, id: int, h: Elem, y: Elem)
    requires WellFormed(s) && id in s.elems && Promotes(s, id, h)
    ensures IsStored(Taken(s, id, h), y) <==> IsHidden(s.hidden, y) || (y.id != id && y.id in s.elems && s.elems[y.id] == y)
  {
    if h != ZERO {
      PromotedIsHidden(s, id, h);
      UnhideAt(s.hidden, h, y);
    }
  }

  lemma PromotedIsHidden(s: State, id: int, h: Elem)
    requires WellFormed(s) && id in s.elems && Promotes(s, id, h) && h != ZERO
    ensures IsHidden(s.hidden, h) && h.id !in s.elems - {id}
  {
    assert h in HiddenOf(s.hidden, h.id);
  }
}
