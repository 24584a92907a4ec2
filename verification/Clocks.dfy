/** The vector clocks of crdt/clocksi/clocksi.go: comparison, merge and update in place.

    Every comparison walks the receiver's entries in an arbitrary order, may stop early, and reads an
    id the other clock lacks as 0. */
module Clocks {
  import opened GoMaps

  type Clock = map<int, int>

  datatype TsResult = EqualTs | HigherTs | LowerTs | ConcurrentTs

  /** No entry of a exceeds that of b. */
  predicate Leq(a: Clock, b: Clock) {
    forall i :: i in a ==> a[i] <= Get(b, i)
  }

  predicate Geq(a: Clock, b: Clock) {
    forall i :: i in a ==> a[i] >= Get(b, i)
  }

  function CompareOf(a: Clock, b: Clock): TsResult {
    if Leq(a, b) then (if Geq(a, b) then EqualTs else LowerTs)
    else if Geq(a, b) then HigherTs else ConcurrentTs
  }

  ghost predicate SameIds(a: Clock, b: Clock) {
    a.Keys == b.Keys
  }

  ghost predicate Less(a: Clock, b: Clock) {
    Leq(a, b) && a != b
  }

  function Merged(a: Clock, b: Clock): Clock {
    map i | i in a :: if a[i] > Get(b, i) then a[i] else Get(b, i)
  }

  class ClockSiTimestamp {
    var vc: Clock

    constructor (ids: seq<int>)
      ensures vc == map id | id in ids :: 0
    {
      vc := map id | id in ids :: 0;
    }

    method Compare(other: ClockSiTimestamp?) returns (r: TsResult)
      ensures r == if other == null then HigherTs else CompareOf(vc, other.vc)
    {
      if other == null {
        return HigherTs;
      }
      var foundHigher, foundLower := false, false;
      var todo := vc.Keys;
      while todo != {}
        invariant todo <= vc.Keys
        invariant foundHigher <==> exists i :: i in vc.Keys - todo && vc[i] < Get(other.vc, i)
        invariant foundLower <==> exists i :: i in vc.Keys - todo && vc[i] > Get(other.vc, i)
        invariant !(foundHigher && foundLower)
      {
        var i := Pick(todo);
        ghost var seen := vc.Keys - todo;
        todo := todo - {i};
        assert vc.Keys - todo == seen + {i};
        if vc[i] < Get(other.vc, i) {
          foundHigher := true;
        } else if vc[i] > Get(other.vc, i) {
          foundLower := true;
        }
        if foundHigher && foundLower {
          return ConcurrentTs;
        }
      }
      if foundHigher {
        return LowerTs;
      } else if foundLower {
        return HigherTs;
      }
      return EqualTs;
    }

    method IsHigherOrEqual(other: ClockSiTimestamp?) returns (r: bool)
      ensures r == (other == null || Geq(vc, other.vc))
    {
      if other == null {
        return true;
      }
      var todo := vc.Keys;
      while todo != {}
        invariant todo <= vc.Keys
        invariant forall i :: i in vc && i !in todo ==> vc[i] >= Get(other.vc, i)
      {
        var i := Pick(todo);
        todo := todo - {i};
        if vc[i] < Get(other.vc, i) {
          return false;
        }
      }
      return true;
    }

    method IsLowerOrEqual(other: ClockSiTimestamp?) returns (r: bool)
      ensures r == (other != null && Leq(vc, other.vc))
    {
      if other == null {
        return false;
      }
      var todo := vc.Keys;
      while todo != {}
        invariant todo <= vc.Keys
        invariant forall i :: i in vc && i !in todo ==> vc[i] <= Get(other.vc, i)
      {
        var i := Pick(todo);
        todo := todo - {i};
        if vc[i] > Get(other.vc, i) {
          return false;
        }
      }
      return true;
    }

    method IsHigher(other: ClockSiTimestamp?) returns (r: bool)
      ensures r == (other == null || CompareOf(vc, other.vc) == HigherTs)
    {
      if other == null {
        return true;
      }
      var foundLower := false;
      var todo := vc.Keys;
      while todo != {}
        invariant todo <= vc.Keys
        invariant forall i :: i in vc && i !in todo ==> vc[i] >= Get(other.vc, i)
        invariant foundLower <==> exists i :: i in vc && i !in todo && vc[i] > Get(other.vc, i)
      {
        var i := Pick(todo);
        todo := todo - {i};
        if vc[i] < Get(other.vc, i) {
          return false;
        } else if vc[i] > Get(other.vc, i) {
          foundLower := true;
        }
      }
      return foundLower;
    }

    method IsLower(other: ClockSiTimestamp?) returns (r: bool)
      ensures r == (other != null && CompareOf(vc, other.vc) == LowerTs)
    {
      if other == null {
        return false;
      }
      var foundHigher := false;
      var todo := vc.Keys;
      while todo != {}
        invariant todo <= vc.Keys
        invariant forall i :: i in vc && i !in todo ==> vc[i] <= Get(other.vc, i)
        invariant foundHigher <==> exists i :: i in vc && i !in todo && vc[i] < Get(other.vc, i)
      {
        var i := Pick(todo);
        todo := todo - {i};
        if vc[i] > Get(other.vc, i) {
          return false;
        } else if vc[i] < Get(other.vc, i) {
          foundHigher := true;
        }
      }
      return foundHigher;
    }

    method IsEqual(other: ClockSiTimestamp?) returns (r: bool)
      ensures r == (other != null && CompareOf(vc, other.vc) == EqualTs)
    {
      if other == null {
        return false;
      }
      var todo := vc.Keys;
      while todo != {}
        invariant todo <= vc.Keys
        invariant forall i :: i in vc && i !in todo ==> vc[i] == Get(other.vc, i)
      {
        var i := Pick(todo);
        todo := todo - {i};
        if vc[i] != Get(other.vc, i) {
          assert !Leq(vc, other.vc) || !Geq(vc, other.vc);
          return false;
        }
      }
      return true;
    }

    method Merge(other: ClockSiTimestamp?) returns (merged: Clock)
      ensures merged == if other == null then vc else Merged(vc, other.vc)
    {
      if other == null {
        return vc;
      }
      merged := map[];
      var todo := vc.Keys;
      while todo != {}
        invariant todo <= vc.Keys
        invariant merged == Merged(vc, other.vc) - todo
      {
        var i := Pick(todo);
        if vc[i] > Get(other.vc, i) {
          merged := merged[i := vc[i]];
        } else {
          merged := merged[i := Get(other.vc, i)];
        }
        assert Merged(vc, other.vc) - (todo - {i}) == (Merged(vc, other.vc) - todo)[i := Merged(vc, other.vc)[i]];
        todo := todo - {i};
      }
      assert Merged(vc, other.vc) - {} == Merged(vc, other.vc);
    }

    /** Merge in place, keeping ids that only the other clock has if they are positive. */
    method MergeInto(other: ClockSiTimestamp?)
      modifies this
      ensures other == null ==> vc == old(vc)
      ensures other != null ==> forall i :: Get(vc, i) == Max(Get(old(vc), i), if i in old(other.vc) then old(other.vc)[i] else Get(old(vc), i))
      ensures other != null ==> vc.Keys == old(vc).Keys + set i | i in old(other.vc) && old(other.vc)[i] > Get(old(vc), i)
    {
      if other == null {
        return;
      }
      var otherVc := other.vc;
      var todo := otherVc.Keys;
      while todo != {}
        invariant todo <= otherVc.Keys
        invariant forall i :: Get(vc, i) == if i in otherVc && i !in todo then Max(Get(old(vc), i), otherVc[i]) else Get(old(vc), i)
        invariant vc.Keys == old(vc).Keys + set i | i in otherVc && i !in todo && otherVc[i] > Get(old(vc), i)
      {
        var i := Pick(todo);
        todo := todo - {i};
        if otherVc[i] > Get(vc, i) {
          vc := vc[i := otherVc[i]];
        }
      }
    }

    method SelfIncTimestamp(id: int)
      modifies this
      ensures vc == old(vc)[id := Get(old(vc), id) + 1]
      ensures !Leq(vc, old(vc)) && Leq(old(vc), vc)
    {
      vc := vc[id := Get(vc, id) + 1];
    }

    method UpdatePos(id: int, newValue: int)
      modifies this
      ensures Get(vc, id) == Max(Get(old(vc), id), newValue)
      ensures forall i :: i != id ==> Get(vc, i) == Get(old(vc), i)
      ensures vc.Keys == old(vc).Keys + (if newValue > Get(old(vc), id) then {id} else {})
      ensures Leq(old(vc), vc)
    {
      if Get(vc, id) < newValue {
        vc := vc[id := newValue];
      }
    }
  }

  function Max(a: int, b: int): int {
    if a >= b then a else b
  }

  // ---------------------------------------------------------------- the order on clocks of the same ids

  /** Over the same ids, Compare decides the pointwise order: Equal means equal, Lower and Higher are
      each other's mirror, and Concurrent is what is left. */
  lemma CompareDecides(a: Clock, b: Clock)
    requires SameIds(a, b)
    ensures CompareOf(a, b) == EqualTs <==> a == b
    ensures CompareOf(a, b) == LowerTs <==> Less(a, b)
    ensures CompareOf(a, b) == HigherTs <==> Less(b, a)
    ensures CompareOf(a, b) == ConcurrentTs <==> !Leq(a, b) && !Leq(b, a)
  {
    if Leq(a, b) && Geq(a, b) {
      forall i | i in a ensures a[i] == b[i] { assert Get(b, i) == b[i]; }
    }
  }

  lemma LeqIsPartialOrder(a: Clock, b: Clock, c: Clock)
    requires SameIds(a, b) && SameIds(b, c)
    ensures Leq(a, a)
    ensures Leq(a, b) && Leq(b, a) ==> a == b
    ensures Leq(a, b) && Leq(b, c) ==> Leq(a, c)
    ensures Less(a, b) && Leq(b, c) ==> Less(a, c)
  {
    CompareDecides(a, b);
    if Leq(a, b) && Leq(b, c) {
      forall i | i in a ensures a[i] <= Get(c, i) { assert a[i] <= b[i]; }
    }
  }

  /** Merge is the least clock above both. */
  lemma MergeIsLeastUpperBound(a: Clock, b: Clock, c: Clock)
    requires SameIds(a, b) && SameIds(b, c)
    ensures SameIds(Merged(a, b), a)
    ensures Leq(Merged(a, b), c) <==> Leq(a, c) && Leq(b, c)
  {
    var m := Merged(a, b);
    if Leq(m, c) {
      forall i | i in a ensures a[i] <= Get(c, i) && b[i] <= Get(c, i) { assert m[i] <= Get(c, i); }
    }
  }

  /** An entry the target does not exceed is never undone, and one that exceeds it is Higher or
      Concurrent: this holds whatever the ids. */
  lemma NotBelowIsHigherOrConcurrent(a: Clock, b: Clock)
    ensures !Leq(a, b) <==> CompareOf(a, b) == HigherTs || CompareOf(a, b) == ConcurrentTs
  {
  }

  /** Over different ids the comparisons are not an order: each of two clocks without negative entries is
      Higher than the other exactly if they agree on common ids and each has a positive entry that the
      other lacks. */
  lemma BothHigherExactly(a: Clock, b: Clock)
    requires (forall i :: i in a ==> a[i] >= 0) && (forall i :: i in b ==> b[i] >= 0)
    ensures CompareOf(a, b) == HigherTs && CompareOf(b, a) == HigherTs <==>
      && (forall i :: i in a && i in b ==> a[i] == b[i])
      && HasMore(a, b) && HasMore(b, a)
  {
    if Geq(a, b) && Geq(b, a) {
      forall i | i in a && i in b ensures a[i] == b[i] {
        assert a[i] >= Get(b, i) && b[i] >= Get(a, i);
      }
      HigherHasMore(a, b);
      HigherHasMore(b, a);
    }
  }

  ghost predicate HasMore(a: Clock, b: Clock) {
    exists i :: i in a && i !in b && a[i] > 0
  }

  lemma HigherHasMore(a: Clock, b: Clock)
    requires Geq(a, b) && forall i :: i in a && i in b ==> a[i] == b[i]
    ensures Leq(a, b) <==> !HasMore(a, b)
  {
    if HasMore(a, b) {
      var i :| i in a && i !in b && a[i] > 0;
      assert a[i] > Get(b, i);
    }
  }
}
