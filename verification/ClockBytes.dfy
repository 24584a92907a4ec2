/** The two byte forms of a vector clock in crdt/clocksi/clocksi.go: the wire form (ToBytes and
    FromBytes, little-endian, entries in any order) and the map key (getMapByteKey, big-endian values in
    id order) with its comparisons. */
module ClockBytes {
  import opened GoMaps
  import opened Clocks

  type Bytes = seq<int>

  ghost predicate AreBytes(b: Bytes) {
    forall i :: 0 <= i < |b| ==> 0 <= b[i] < 256
  }

  // ---------------------------------------------------------------- integers as bytes

  function Pow256(k: nat): int {
    if k == 0 then 1 else 256 * Pow256(k - 1)
  }

  /** PutUint: k bytes, the least significant first. */
  function Little(v: int, k: nat): Bytes
    decreases k, v
  {
    if k == 0 then [] else [v % 256] + Little(v / 256, k - 1)
  }

  function FromLittle(b: Bytes): int {
    if b == [] then 0 else b[0] + 256 * FromLittle(b[1..])
  }

  lemma {:induction false} LittleRoundTrip(v: int, k: nat)
    requires 0 <= v < Pow256(k)
    ensures |Little(v, k)| == k && AreBytes(Little(v, k)) && FromLittle(Little(v, k)) == v
  {
    if k > 0 {
      LittleRoundTrip(v / 256, k - 1);
      assert Little(v, k)[1..] == Little(v / 256, k - 1);
    }
  }

  /** The conversion to the unsigned type of the same width, and back. */
  function Unsigned(v: int, width: int): int
    requires width > 0
  {
    if v < 0 then v + width else v
  }

  function Signed(u: int, width: int): int
    requires width > 0
  {
    if 2 * u >= width then u - width else u
  }

  const W16 := 0x1_0000
  const W64 := 0x1_0000_0000_0000_0000

  predicate IsInt16(v: int) { -0x8000 <= v < 0x8000 }

  predicate IsInt64(v: int) { -0x8000_0000_0000_0000 <= v < 0x8000_0000_0000_0000 }

  lemma Widths()
    ensures Pow256(2) == W16 && Pow256(4) == 0x1_0000_0000 && Pow256(8) == W64
  {
    assert Pow256(1) == 256;
    assert Pow256(3) == 256 * Pow256(2);
    assert Pow256(5) == 256 * Pow256(4);
    assert Pow256(6) == 256 * Pow256(5);
    assert Pow256(7) == 256 * Pow256(6);
  }

  // ---------------------------------------------------------------- the wire form

  /** One entry: the id in the first two of eight bytes, then the value in eight. */
  function Entry(id: int, v: int): Bytes {
    Little(Unsigned(id, W16), 2) + [0, 0, 0, 0, 0, 0] + Little(Unsigned(v, W64), 8)
  }

  function EntryId(e: Bytes): int
    requires |e| == 16
  {
    Signed(FromLittle(e[..2]), W16)
  }

  function EntryValue(e: Bytes): int
    requires |e| == 16
  {
    Signed(FromLittle(e[8..]), W64)
  }

  ghost predicate Encodable(vc: Clock) {
    forall id :: id in vc ==> IsInt16(id) && IsInt64(vc[id])
  }

  lemma EntryRoundTrip(id: int, v: int)
    requires IsInt16(id) && IsInt64(v)
    ensures var e := Entry(id, v); |e| == 16 && AreBytes(e) && EntryId(e) == id && EntryValue(e) == v
  {
    Widths();
    LittleRoundTrip(Unsigned(id, W16), 2);
    LittleRoundTrip(Unsigned(v, W64), 8);
    var e := Entry(id, v);
    assert e[..2] == Little(Unsigned(id, W16), 2);
    assert e[8..] == Little(Unsigned(v, W64), 8);
  }

  lemma LittleTwo(b: Bytes)
    requires |b| == 2
    ensures FromLittle(b) == b[0] + 256 * b[1]
  {
    assert b[1..][1..] == [] && FromLittle(b[1..]) == b[1] + 256 * FromLittle(b[1..][1..]);
  }

  lemma LittleEight(b: Bytes)
    requires |b| == 8
    ensures FromLittle(b) ==
      b[0] + 256 * (b[1] + 256 * (b[2] + 256 * (b[3] + 256 * (b[4] + 256 * (b[5] + 256 * (b[6] + 256 * b[7]))))))
  {
    assert FromLittle(b[1..]) == b[1] + 256 * FromLittle(b[2..]) by { assert b[1..][1..] == b[2..]; }
    assert FromLittle(b[2..]) == b[2] + 256 * FromLittle(b[3..]) by { assert b[2..][1..] == b[3..]; }
    assert FromLittle(b[3..]) == b[3] + 256 * FromLittle(b[4..]) by { assert b[3..][1..] == b[4..]; }
    assert FromLittle(b[4..]) == b[4] + 256 * FromLittle(b[5..]) by { assert b[4..][1..] == b[5..]; }
    assert FromLittle(b[5..]) == b[5] + 256 * FromLittle(b[6..]) by { assert b[5..][1..] == b[6..]; }
    LittleTwo(b[6..]);
  }

  /** Where the bytes of an entry are: two for the id, six zeros and eight for the value, the least significant
      first, negative numbers in two's complement. */
  lemma EntryLayout(id: int, v: int)
    requires IsInt16(id) && IsInt64(v)
    ensures var e := Entry(id, v);
            && |e| == 16 && AreBytes(e) && e[2..8] == [0, 0, 0, 0, 0, 0]
            && e[0] + 256 * e[1] == id + (if id < 0 then 0x1_0000 else 0)
            && e[8] + 256 * (e[9] + 256 * (e[10] + 256 * (e[11] + 256 * (e[12] + 256 * (e[13] + 256 * (e[14] + 256 * e[15]))))))
               == v + (if v < 0 then 0x1_0000_0000_0000_0000 else 0)
  {
    Widths();
    EntryRoundTrip(id, v);
    LittleRoundTrip(Unsigned(id, W16), 2);
    LittleRoundTrip(Unsigned(v, W64), 8);
    LittleTwo(Little(Unsigned(id, W16), 2));
    LittleEight(Little(Unsigned(v, W64), 8));
  }

  /** The entries of the given ids, one after the other. */
  function Encode(vc: Clock, ids: seq<int>): Bytes {
    if ids == [] then []
    else Encode(vc, ids[..|ids| - 1]) + Entry(ids[|ids| - 1], Get(vc, ids[|ids| - 1]))
  }

  lemma EncodeSnoc(vc: Clock, ids: seq<int>, id: int)
    ensures Encode(vc, ids + [id]) == Encode(vc, ids) + Entry(id, Get(vc, id))
  {
    assert (ids + [id])[..|ids|] == ids;
  }

  /** The map built from the first n entries; a later entry of the same id wins. */
  function DecodeEntries(b: Bytes, n: nat): Clock
    requires 16 * n <= |b|
  {
    if n == 0 then map[]
    else DecodeEntries(b, n - 1)[EntryId(b[16 * (n - 1)..16 * n]) := EntryValue(b[16 * (n - 1)..16 * n])]
  }

  /** The empty string stands for the clock with id 0 at 0; bytes after the last whole entry are ignored. */
  function Decode(b: Bytes): Clock {
    if |b| == 0 then map[0 := 0] else DecodeEntries(b, |b| / 16)
  }

  lemma {:induction false} DecodePrefix(b: Bytes, tail: Bytes, n: nat)
    requires 16 * n <= |b|
    ensures DecodeEntries(b + tail, n) == DecodeEntries(b, n)
  {
    if n > 0 {
      DecodePrefix(b, tail, n - 1);
      assert (b + tail)[16 * (n - 1)..16 * n] == b[16 * (n - 1)..16 * n];
    }
  }

  lemma DecodeSnoc(b: Bytes, e: Bytes, n: nat)
    requires |b| == 16 * n && |e| == 16
    ensures DecodeEntries(b + e, n + 1) == DecodeEntries(b, n)[EntryId(e) := EntryValue(e)]
  {
    DecodePrefix(b, e, n);
    assert (b + e)[16 * n..16 * (n + 1)] == e;
  }

  lemma {:induction false} DecodeEncode(vc: Clock, ids: seq<int>)
    requires Encodable(vc) && forall id :: id in ids ==> id in vc
    ensures |Encode(vc, ids)| == 16 * |ids|
    ensures DecodeEntries(Encode(vc, ids), |ids|) == Entries(vc, ids)
  {
    if ids != [] {
      var front, last := ids[..|ids| - 1], ids[|ids| - 1];
      assert ids == front + [last];
      assert last in vc;
      DecodeEncode(vc, front);
      DecodeOneMore(vc, front, last);
    }
  }

  lemma DecodeOneMore(vc: Clock, front: seq<int>, last: int)
    requires Encodable(vc) && last in vc
    requires |Encode(vc, front)| == 16 * |front|
    requires DecodeEntries(Encode(vc, front), |front|) == Entries(vc, front)
    ensures |Encode(vc, front + [last])| == 16 * |front + [last]|
    ensures DecodeEntries(Encode(vc, front + [last]), |front + [last]|) == Entries(vc, front + [last])
  {
    EncodeSnoc(vc, front, last);
    EntryRoundTrip(last, vc[last]);
    DecodeSnoc(Encode(vc, front), Entry(last, vc[last]), |front|);
    EntriesMore(vc, front, last);
  }

  /** FromBytes undoes ToBytes, whatever order the map was iterated in, for every clock but the empty one. */
  lemma WireRoundTrip(vc: Clock, ids: seq<int>)
    requires Encodable(vc) && Orders(ids, vc.Keys)
    ensures Decode(Encode(vc, ids)) == vc <==> vc != map[]
  {
    EntriesAll(vc, ids);
    DecodeEncode(vc, ids);
    DecodeWhole(Encode(vc, ids), |ids|);
  }

  /** The empty string is read back as the clock with id 0 at 0. */
  lemma NothingIsZero()
    ensures Decode(Encode(map[], [])) == map[0 := 0]
  {
  }

  lemma DecodeWhole(b: Bytes, n: nat)
    requires |b| == 16 * n
    ensures n > 0 ==> Decode(b) == DecodeEntries(b, n)
    ensures n == 0 ==> Decode(b) != map[]
  {
    if n == 0 { assert 0 in Decode(b); }
  }

  /** The bytes hold the entries of the given ids, in the order ids. */
  ghost predicate Written(vc: Clock, done: set<int>, ids: seq<int>, bytes: Bytes) {
    Orders(ids, done) && bytes == Encode(vc, ids)
  }

  lemma WrittenMore(vc: Clock, done: set<int>, ids: seq<int>, bytes: Bytes, id: int)
    requires Written(vc, done, ids, bytes) && id !in done
    ensures Written(vc, done + {id}, ids + [id], bytes + Entry(id, Get(vc, id)))
  {
    OrdersMore(ids, done, id);
    EncodeSnoc(vc, ids, id);
  }

  method ToBytes(vc: Clock) returns (bytes: Bytes)
    ensures exists ids :: Written(vc, vc.Keys, ids, bytes)
  {
    bytes := [];
    ghost var ids: seq<int> := [];
    var todo := vc.Keys;
    while todo != {}
      invariant todo <= vc.Keys && Written(vc, vc.Keys - todo, ids, bytes)
    {
      var i := Pick(todo);
      WrittenMore(vc, vc.Keys - todo, ids, bytes, i);
      bytes := bytes + Entry(i, vc[i]);
      ids := ids + [i];
      assert vc.Keys - (todo - {i}) == vc.Keys - todo + {i};
      todo := todo - {i};
    }
    assert vc.Keys - {} == vc.Keys;
  }

  method FromBytes(bytes: Bytes) returns (vc: Clock)
    ensures vc == Decode(bytes)
  {
    vc := map[];
    if |bytes| == 0 {
      vc := vc[0 := 0];
    } else {
      var nEntries := |bytes| / 16;
      for i := 0 to nEntries
        invariant vc == DecodeEntries(bytes, i)
      {
        var e := bytes[16 * i..16 * (i + 1)];
        vc := vc[Signed(FromLittle(e[..2]), W16) := Signed(FromLittle(e[8..]), W64)];
      }
    }
  }

  // ---------------------------------------------------------------- the map key

  ghost predicate Sorted(ids: seq<int>) {
    forall i, j :: 0 <= i < j < |ids| ==> ids[i] < ids[j]
  }

  /** PutUint64: k bytes, the most significant first. */
  function Big(v: int, k: nat): Bytes
    decreases k, v
  {
    if k == 0 then [] else Big(v / 256, k - 1) + [v % 256]
  }

  function KeyOf(vc: Clock, ids: seq<int>): Bytes {
    if ids == [] then [] else KeyOf(vc, ids[..|ids| - 1]) + Big(Get(vc, ids[|ids| - 1]), 8)
  }

  /** GetSortedKeys, the keys of the map in any order and then sorted, is the one increasing order. */
  method GetSortedKeys(vc: Clock) returns (keys: seq<int>)
    ensures Sorted(keys) && Orders(keys, vc.Keys)
  {
    keys := [];
    var todo := vc.Keys;
    while todo != {}
      invariant todo <= vc.Keys && Sorted(keys)
      invariant forall id :: id in keys <==> id in vc.Keys - todo
    {
      var key := Pick(todo);
      assert key !in keys;
      var at := 0;
      while at < |keys| && keys[at] < key
        invariant 0 <= at <= |keys| && forall j :: 0 <= j < at ==> keys[j] < key
      {
        at := at + 1;
      }
      ghost var before := keys;
      keys := keys[..at] + [key] + keys[at..];
      assert forall id :: id in keys <==> id in before || id == key;
      todo := todo - {key};
    }
  }

  method GetMapByteKey(vc: Clock) returns (key: Bytes)
    ensures exists ids :: Sorted(ids) && Orders(ids, vc.Keys) && key == KeyOf(vc, ids)
  {
    var keys := GetSortedKeys(vc);
    key := [];
    for i := 0 to |keys|
      invariant key == KeyOf(vc, keys[..i])
    {
      assert keys[..i + 1][..i] == keys[..i];
      key := key + Big(Get(vc, keys[i]), 8);
    }
    assert keys[..|keys|] == keys;
  }

  lemma HasMember<T>(s: seq<T>)
    ensures s == [] || exists x :: x in s
  {
    if s != [] { assert s[0] in s; }
  }

  lemma LastIsLargest(a: seq<int>, x: int)
    requires Sorted(a) && x in a
    ensures x <= a[|a| - 1] && (x in a[..|a| - 1] <==> x != a[|a| - 1])
  {
    var i :| 0 <= i < |a| && a[i] == x;
    if i < |a| - 1 { assert a[..|a| - 1][i] == x; }
  }

  lemma LastIsSame(a: seq<int>, b: seq<int>)
    requires Sorted(a) && Sorted(b) && a != [] && b != [] && a[|a| - 1] in b && b[|b| - 1] in a
    ensures a[|a| - 1] == b[|b| - 1]
  {
    LastIsLargest(b, a[|a| - 1]);
    LastIsLargest(a, b[|b| - 1]);
  }

  lemma FrontAt(a: seq<int>, x: int)
    requires Sorted(a) && a != []
    ensures x in a[..|a| - 1] <==> x in a && x != a[|a| - 1]
  {
    if x in a { LastIsLargest(a, x); }
  }

  /** The sorted order of a set of ids is unique, so keys of clocks over the same ids line up. */
  lemma {:induction false} SortedIsUnique(a: seq<int>, b: seq<int>)
    requires Sorted(a) && Sorted(b) && forall x :: x in a <==> x in b
    ensures a == b
  {
    if a == [] {
      HasMember(b);
    } else {
      assert a[0] in a;
      assert a[|a| - 1] in a && b[|b| - 1] in b;
      LastIsSame(a, b);
      var front, other := a[..|a| - 1], b[..|b| - 1];
      forall x ensures x in front <==> x in other {
        FrontAt(a, x);
        FrontAt(b, x);
      }
      SortedIsUnique(front, other);
      assert a == front + [a[|a| - 1]] && b == other + [b[|b| - 1]];
    }
  }
}
