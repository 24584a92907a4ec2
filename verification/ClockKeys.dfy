/** Comparing map keys of clocks (ByteKey in crdt/clocksi/clocksi.go), and the cache lookup of
    potionDB/components/inverseOpVM.go that relies on it.

    A key holds eight big-endian bytes for every id; the comparisons walk it in chunks of four bytes, so
    each 64-bit value is compared as two independent 32-bit numbers. */
module ClockKeys {
  import opened GoMaps
  import opened Clocks
  import opened ClockBytes

  const HALF := 0x1_0000_0000

  ghost predicate IsKey(b: Bytes) {
    AreBytes(b) && |b| % 4 == 0
  }

  /** The number in the c-th chunk of four bytes. */
  function Chunk(b: Bytes, c: nat): int
    requires 4 * c + 4 <= |b|
  {
    ((b[4 * c] * 256 + b[4 * c + 1]) * 256 + b[4 * c + 2]) * 256 + b[4 * c + 3]
  }

  ghost predicate ChunksLeq(a: Bytes, b: Bytes, n: nat)
    requires |a| == |b| && 4 * n <= |a|
  {
    forall c :: 0 <= c < n ==> Chunk(a, c) <= Chunk(b, c)
  }

  ghost predicate KeyLeq(a: Bytes, b: Bytes)
    requires IsKey(a) && IsKey(b) && |a| == |b|
  {
    ChunksLeq(a, b, |a| / 4)
  }

  ghost predicate KeyLess(a: Bytes, b: Bytes)
    requires IsKey(a) && IsKey(b) && |a| == |b|
  {
    KeyLeq(a, b) && exists c :: 0 <= c < |a| / 4 && Chunk(a, c) < Chunk(b, c)
  }

  // ---------------------------------------------------------------- the comparisons

  /** The first byte that differs decides the order of a chunk; without one the chunks are equal. */
  lemma FirstDifferenceDecides(a: Bytes, b: Bytes, i: nat, j: nat)
    requires AreBytes(a) && AreBytes(b) && |a| == |b| && i % 4 == 0 && i + 4 <= |a| && j <= 4
    requires a[i..i + j] == b[i..i + j]
    ensures j < 4 && a[i + j] < b[i + j] ==> Chunk(a, i / 4) < Chunk(b, i / 4)
    ensures j < 4 && a[i + j] > b[i + j] ==> Chunk(a, i / 4) > Chunk(b, i / 4)
    ensures j == 4 ==> Chunk(a, i / 4) == Chunk(b, i / 4)
    ensures j < 4 && a[i + j] == b[i + j] ==> a[i..i + (j + 1)] == b[i..i + (j + 1)]
  {
    assert forall k :: i <= k < i + j ==> a[k] == a[i..i + j][k - i] && b[k] == b[i..i + j][k - i];
    assert 4 * (i / 4) == i;
  }

  method IsLower(our: Bytes, other: Bytes) returns (r: bool)
    requires IsKey(our) && IsKey(other) && |our| == |other|
    ensures r == KeyLess(our, other)
  {
    var foundHigher := false;
    var i := 0;
    while i < |our|
      invariant 0 <= i <= |our| && i % 4 == 0 && ChunksLeq(our, other, i / 4)
      invariant foundHigher <==> exists c :: 0 <= c < i / 4 && Chunk(our, c) < Chunk(other, c)
    {
      var j := 0;
      var higherHere := false;
      while j < 4
        invariant 0 <= j <= 4 && our[i..i + j] == other[i..i + j]
        invariant !higherHere
      {
        FirstDifferenceDecides(our, other, i, j);
        if our[i + j] > other[i + j] {
          return false;
        } else if our[i + j] < other[i + j] {
          higherHere := true;
          break;
        }
        j := j + 1;
      }
      FirstDifferenceDecides(our, other, i, j);
      foundHigher := foundHigher || higherHere;
      i := i + 4;
    }
    return foundHigher;
  }

  method IsHigher(our: Bytes, other: Bytes) returns (r: bool)
    requires IsKey(our) && IsKey(other) && |our| == |other|
    ensures r == KeyLess(other, our)
  {
    var foundLower := false;
    var i := 0;
    while i < |our|
      invariant 0 <= i <= |our| && i % 4 == 0 && ChunksLeq(other, our, i / 4)
      invariant foundLower <==> exists c :: 0 <= c < i / 4 && Chunk(other, c) < Chunk(our, c)
    {
      var j := 0;
      var lowerHere := false;
      while j < 4
        invariant 0 <= j <= 4 && other[i..i + j] == our[i..i + j]
        invariant !lowerHere
      {
        FirstDifferenceDecides(other, our, i, j);
        if our[i + j] < other[i + j] {
          return false;
        } else if our[i + j] > other[i + j] {
          lowerHere := true;
          break;
        }
        j := j + 1;
      }
      FirstDifferenceDecides(other, our, i, j);
      foundLower := foundLower || lowerHere;
      i := i + 4;
    }
    return foundLower;
  }

  method IsLowerOrEqual(our: Bytes, other: Bytes) returns (r: bool)
    requires IsKey(our) && IsKey(other) && |our| == |other|
    ensures r == KeyLeq(our, other)
  {
    var i := 0;
    while i < |our|
      invariant 0 <= i <= |our| && i % 4 == 0 && ChunksLeq(our, other, i / 4)
    {
      var j := 0;
      while j < 4
        invariant 0 <= j <= 4 && our[i..i + j] == other[i..i + j]
      {
        FirstDifferenceDecides(our, other, i, j);
        if our[i + j] > other[i + j] {
          return false;
        } else if our[i + j] < other[i + j] {
          break;
        }
        j := j + 1;
      }
      FirstDifferenceDecides(our, other, i, j);
      i := i + 4;
    }
    return true;
  }

  method IsEqual(our: Bytes, other: Bytes) returns (r: bool)
    requires |our| == |other|
    ensures r == (our == other)
  {
    for i := 0 to |our|
      invariant forall k :: 0 <= k < i ==> our[k] == other[k]
    {
      if our[i] != other[i] {
        return false;
      }
    }
    return true;
  }

  // ---------------------------------------------------------------- what a key says about its clock

  ghost predicate NonNegative(vc: Clock) {
    forall id :: id in vc ==> 0 <= vc[id] < HALF * HALF / 2
  }

  lemma BigHalves(v: int)
    requires 0 <= v < HALF * HALF
    ensures var b := Big(v, 8); |b| == 8 && AreBytes(b) && Chunk(b, 0) == v / HALF && Chunk(b, 1) == v % HALF
  {
    var v1 := v / 256;
    var v2 := v1 / 256;
    var v3 := v2 / 256;
    var v4 := v3 / 256;
    BigFour(v4);
    assert Big(v3, 5) == Big(v4, 4) + [v3 % 256];
    assert Big(v2, 6) == Big(v3, 5) + [v2 % 256];
    assert Big(v1, 7) == Big(v2, 6) + [v1 % 256];
    assert Big(v, 8) == Big(v1, 7) + [v % 256];
    assert v4 == v / HALF;
  }

  lemma BigFour(v: int)
    requires 0 <= v < HALF
    ensures var b := Big(v, 4); |b| == 4 && AreBytes(b) && Chunk(b, 0) == v
  {
    var v1 := v / 256;
    var v2 := v1 / 256;
    var v3 := v2 / 256;
    assert v3 / 256 == 0;
    assert Big(v3, 1) == [v3];
    assert Big(v2, 2) == [v3, v2 % 256];
    assert Big(v1, 3) == [v3, v2 % 256, v1 % 256];
    assert Big(v, 4) == [v3, v2 % 256, v1 % 256, v % 256];
  }

  lemma {:induction false} KeyLength(vc: Clock, ids: seq<int>)
    requires NonNegative(vc)
    ensures |KeyOf(vc, ids)| == 8 * |ids| && IsKey(KeyOf(vc, ids))
  {
    if ids != [] {
      KeyLength(vc, ids[..|ids| - 1]);
      BigHalves(Get(vc, ids[|ids| - 1]));
    }
  }

  /** The k-th group of eight bytes holds the two halves of v. */
  ghost predicate Holds(b: Bytes, k: nat, v: int) {
    8 * k + 8 <= |b| && Chunk(b, 2 * k) == v / HALF && Chunk(b, 2 * k + 1) == v % HALF
  }

  lemma HoldsInConcat(a: Bytes, b: Bytes, k: nat, v: int)
    ensures Holds(a, k, v) ==> Holds(a + b, k, v)
    ensures |a| == 8 * k && Holds(b, 0, v) ==> Holds(a + b, k, v)
  {
  }

  lemma {:induction false} KeyHolds(vc: Clock, ids: seq<int>, k: nat)
    requires NonNegative(vc) && k < |ids|
    ensures Holds(KeyOf(vc, ids), k, Get(vc, ids[k]))
  {
    var n := |ids| - 1;
    if k < n {
      KeyHolds(vc, ids[..n], k);
      assert ids[..n][k] == ids[k];
      HoldsInConcat(KeyOf(vc, ids[..n]), Big(Get(vc, ids[n]), 8), k, Get(vc, ids[k]));
    } else {
      KeyLength(vc, ids[..n]);
      LastHolds(KeyOf(vc, ids[..n]), k, Get(vc, ids[k]));
    }
  }

  lemma LastHolds(a: Bytes, k: nat, v: int)
    requires |a| == 8 * k && 0 <= v < HALF * HALF
    ensures Holds(a + Big(v, 8), k, v)
  {
    BigHalves(v);
    HoldsInConcat(a, Big(v, 8), k, v);
  }

  ghost predicate HalvesLeq(x: int, y: int) {
    x / HALF <= y / HALF && x % HALF <= y % HALF
  }

  ghost predicate AllHalvesLeq(a: Clock, b: Clock, ids: seq<int>) {
    forall k :: 0 <= k < |ids| ==> HalvesLeq(Get(a, ids[k]), Get(b, ids[k]))
  }

  lemma HalvesDecide(x: int, y: int)
    ensures HalvesLeq(x, y) ==> x <= y
    ensures HalvesLeq(x, y) && HalvesLeq(y, x) ==> x == y
  {
    assert x == HALF * (x / HALF) + x % HALF && y == HALF * (y / HALF) + y % HALF;
  }

  /** Exactly what the key comparison compares, for clocks over the same ids: both halves of every value. */
  lemma KeyComparesHalves(a: Clock, b: Clock, ids: seq<int>)
    requires NonNegative(a) && NonNegative(b)
    ensures |KeyOf(a, ids)| == |KeyOf(b, ids)| == 8 * |ids| && IsKey(KeyOf(a, ids)) && IsKey(KeyOf(b, ids))
    ensures KeyLeq(KeyOf(a, ids), KeyOf(b, ids)) <==> AllHalvesLeq(a, b, ids)
  {
    KeyLength(a, ids);
    KeyLength(b, ids);
    var ka, kb := KeyOf(a, ids), KeyOf(b, ids);
    forall k: nat | k < |ids|
      ensures HalvesLeq(Get(a, ids[k]), Get(b, ids[k])) <==> Chunk(ka, 2 * k) <= Chunk(kb, 2 * k) && Chunk(ka, 2 * k + 1) <= Chunk(kb, 2 * k + 1)
    {
      KeyHolds(a, ids, k);
      KeyHolds(b, ids, k);
    }
    PairsOfChunks(ka, kb, |ids|);
  }

  lemma PairsOfChunks(a: Bytes, b: Bytes, n: nat)
    requires IsKey(a) && IsKey(b) && |a| == |b| == 8 * n
    ensures KeyLeq(a, b) <==> forall k: nat :: k < n ==> Chunk(a, 2 * k) <= Chunk(b, 2 * k) && Chunk(a, 2 * k + 1) <= Chunk(b, 2 * k + 1)
  {
    if forall k: nat :: k < n ==> Chunk(a, 2 * k) <= Chunk(b, 2 * k) && Chunk(a, 2 * k + 1) <= Chunk(b, 2 * k + 1) {
      forall c: nat | c < 2 * n ensures Chunk(a, c) <= Chunk(b, c) {
        var k := c / 2;
        assert Chunk(a, 2 * k) <= Chunk(b, 2 * k) && Chunk(a, 2 * k + 1) <= Chunk(b, 2 * k + 1);
        assert c == 2 * k || c == 2 * k + 1;
      }
    }
  }

  /** Strictly below is below and not equal. */
  lemma KeyLessIsStrict(a: Bytes, b: Bytes)
    requires IsKey(a) && IsKey(b) && |a| == |b|
    ensures KeyLess(a, b) <==> KeyLeq(a, b) && !KeyLeq(b, a)
    ensures KeyLeq(a, b) && KeyLeq(b, a) <==> a == b
  {
    if KeyLeq(a, b) && KeyLeq(b, a) {
      forall i: nat | i < |a| ensures a[i] == b[i] {
        var c := i / 4;
        assert Chunk(a, c) <= Chunk(b, c) && Chunk(b, c) <= Chunk(a, c);
        SameChunk(a, b, c);
        assert i == 4 * c + i % 4;
      }
    }
  }

  lemma SameChunk(a: Bytes, b: Bytes, c: nat)
    requires AreBytes(a) && AreBytes(b) && 4 * c + 4 <= |a| == |b| && Chunk(a, c) == Chunk(b, c)
    ensures a[4 * c] == b[4 * c] && a[4 * c + 1] == b[4 * c + 1] && a[4 * c + 2] == b[4 * c + 2] && a[4 * c + 3] == b[4 * c + 3]
  {
  }

  /** The key comparison is sound: LowerOrEqual, Lower and (read the other way round) Higher on keys imply
      the same on the clocks, and equality of keys is equality of clocks. */
  lemma KeyComparisonIsSound(a: Clock, b: Clock, ids: seq<int>)
    requires NonNegative(a) && NonNegative(b) && SameIds(a, b) && Orders(ids, a.Keys)
    ensures IsKey(KeyOf(a, ids)) && IsKey(KeyOf(b, ids)) && |KeyOf(a, ids)| == |KeyOf(b, ids)|
    ensures KeyLeq(KeyOf(a, ids), KeyOf(b, ids)) ==> Leq(a, b)
    ensures KeyLess(KeyOf(a, ids), KeyOf(b, ids)) ==> CompareOf(a, b) == LowerTs
    ensures KeyOf(a, ids) == KeyOf(b, ids) <==> a == b
  {
    KeyComparesHalves(a, b, ids);
    KeyComparesHalves(b, a, ids);
    KeyLessIsStrict(KeyOf(a, ids), KeyOf(b, ids));
    CompareDecides(a, b);
    if AllHalvesLeq(a, b, ids) { HalvesBound(a, b, ids); }
    if AllHalvesLeq(b, a, ids) { HalvesBound(b, a, ids); }
    LeqIsPartialOrder(a, b, a);
  }

  lemma HalvesBound(a: Clock, b: Clock, ids: seq<int>)
    requires SameIds(a, b) && Orders(ids, a.Keys) && AllHalvesLeq(a, b, ids)
    ensures Leq(a, b)
  {
    forall id | id in a ensures a[id] <= Get(b, id) {
      assert id in ids;
      var k: nat :| k < |ids| && ids[k] == id;
      assert HalvesLeq(Get(a, ids[k]), Get(b, ids[k]));
      HalvesDecide(a[id], Get(b, id));
    }
  }

  /** It is not complete: a clock that carries into the high half is higher, but its key is incomparable. */
  lemma KeyComparisonIsIncomplete()
    ensures var a, b := map[1 := 5], map[1 := HALF];
            && CompareOf(a, b) == LowerTs
            && IsKey(KeyOf(a, [1])) && IsKey(KeyOf(b, [1])) && |KeyOf(a, [1])| == |KeyOf(b, [1])|
            && !KeyLeq(KeyOf(a, [1]), KeyOf(b, [1])) && !KeyLeq(KeyOf(b, [1]), KeyOf(a, [1]))
  {
    var a, b := map[1 := 5], map[1 := HALF];
    KeyComparesHalves(a, b, [1]);
    KeyComparesHalves(b, a, [1]);
    assert !HalvesLeq(Get(a, [1][0]), Get(b, [1][0])) && !HalvesLeq(Get(b, [1][0]), Get(a, [1][0]));
    assert Leq(a, b) && !Geq(a, b) by { assert a[1] < Get(b, 1); }
  }

  lemma KeyLessTransitive(a: Bytes, b: Bytes, c: Bytes)
    requires IsKey(a) && IsKey(b) && IsKey(c) && |a| == |b| == |c|
    requires KeyLess(a, b) && KeyLess(b, c)
    ensures KeyLess(a, c)
  {
    var k :| 0 <= k < |a| / 4 && Chunk(a, k) < Chunk(b, k);
    assert Chunk(b, k) <= Chunk(c, k);
    forall i | 0 <= i < |a| / 4 ensures Chunk(a, i) <= Chunk(c, i) {
      assert Chunk(a, i) <= Chunk(b, i) <= Chunk(c, i);
    }
  }

  // ---------------------------------------------------------------- the version cache

  /** All keys were made from clocks over the same ids. */
  ghost predicate KeysOfSize<Object>(cache: map<Bytes, Object>, size: nat) {
    forall k :: k in cache ==> IsKey(k) && |k| == size
  }

  /** Some cached version is strictly above the key. */
  ghost predicate SomeAbove<Object>(cache: map<Bytes, Object>, key: Bytes)
    requires IsKey(key) && KeysOfSize(cache, |key|)
  {
    exists k :: k in cache && KeyLess(key, k)
  }

  /** A cached version strictly above the key such that no other such version is below it. */
  ghost predicate Closest<Object>(cache: map<Bytes, Object>, key: Bytes, best: Bytes)
    requires IsKey(key) && KeysOfSize(cache, |key|)
  {
    && best in cache && KeyLess(key, best)
    && forall k :: k in cache && KeyLess(key, k) ==> !KeyLess(k, best)
  }

  /** A read at a key: the version cached under it, or else one rebuilt from a closest version above it, or
      from the latest if there is none, and cached from then on. */
  ghost predicate Reads<Object>(latest: Object, cache: map<Bytes, Object>, key: Bytes, reverse: Object -> Object,
      obj: Object, after: map<Bytes, Object>)
    requires IsKey(key) && KeysOfSize(cache, |key|)
  {
    if key in cache then obj == cache[key] && after == cache
    else
      && after == cache[key := obj]
      && if SomeAbove(cache, key) then exists best :: Closest(cache, key, best) && obj == reverse(cache[best])
         else obj == reverse(latest)
  }

  /** The versions of one object: the latest and those rebuilt for earlier reads, by clock key. */
  class InverseOpVM<Object> {
    var latest: Object
    var oldVersions: map<Bytes, Object>

    constructor (obj: Object)
      ensures latest == obj && oldVersions == map[]
    {
      latest := obj;
      oldVersions := map[];
    }

    ghost predicate Valid(size: nat)
      reads this
    {
      KeysOfSize(oldVersions, size)
    }

    /** The read of an earlier version: reverse is the copy that is rebuilt to the clock read. */
    method ReadOld(readKey: Bytes, reverse: Object -> Object) returns (obj: Object)
      requires IsKey(readKey) && Valid(|readKey|)
      modifies this`oldVersions
      ensures Valid(|readKey|)
      ensures Reads(latest, old(oldVersions), readKey, reverse, obj, oldVersions)
    {
      if readKey in oldVersions {
        obj := oldVersions[readKey];
      } else {
        var found, bestKey, closest := GetClosestMatch(readKey);
        obj := reverse(closest);
        oldVersions := oldVersions[readKey := obj];
      }
    }

    /** The version to undo operations from: a cached one strictly above the read clock such that no other
        such version is below it, or the latest if no cached version is above the read clock. */
    method GetClosestMatch(readKey: Bytes) returns (found: bool, bestKey: Bytes, obj: Object)
      requires IsKey(readKey) && Valid(|readKey|)
      ensures found <==> SomeAbove(oldVersions, readKey)
      ensures !found ==> obj == latest
      ensures found ==> Closest(oldVersions, readKey, bestKey) && obj == oldVersions[bestKey]
    {
      found, bestKey, obj := false, [], latest;
      var todo := oldVersions.Keys;
      while todo != {}
        invariant todo <= oldVersions.Keys
        invariant found <==> exists k :: k in oldVersions && k !in todo && KeyLess(readKey, k)
        invariant !found ==> obj == latest
        invariant found ==> bestKey in oldVersions && obj == oldVersions[bestKey] && KeyLess(readKey, bestKey)
        invariant found ==> forall k :: k in oldVersions && k !in todo && KeyLess(readKey, k) ==> !KeyLess(k, bestKey)
      {
        var cacheKey := Pick(todo);
        todo := todo - {cacheKey};
        var above := IsHigher(cacheKey, readKey);
        if above {
          var better := !found;
          if found {
            better := IsLower(cacheKey, bestKey);
          }
          if better {
            forall k | found && k in oldVersions && k !in todo && k != cacheKey && KeyLess(readKey, k) ensures !KeyLess(k, cacheKey) {
              if KeyLess(k, cacheKey) { KeyLessTransitive(k, cacheKey, bestKey); }
            }
            found, bestKey, obj := true, cacheKey, oldVersions[cacheKey];
          }
        }
      }
    }
  }
}
