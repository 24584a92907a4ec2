/** The remove-wins map of embedded CRDTs of crdt/crdt/rwEmbMapCRDT.go, with counters embedded.

    A remove carries the issuer's remove counter; an update carries, for every replica, the highest
    remove counter recorded for any of the keys it touches, and takes effect on a key only where it
    covers every remove recorded for that key. */
module RemoveWinsMap {
  import opened GoMaps
  import opened Options

  type Key = string

  datatype Mark = Mark(ts: int, mark: bool)

  datatype Upd = Update(upds: map<Key, int>) | Remove(keys: seq<Key>)

  datatype Op =
    | UpdateAll(upds: map<Key, int>, rmvEntries: map<int, int>, replicaID: int)
    | RemoveAll(rems: seq<Key>, ts: int, replicaID: int)

  datatype RW = RW(self: int, entries: map<Key, int>, removes: map<Key, map<int, Mark>>, rmvClock: map<int, int>)

  function Initial(ids: seq<int>, self: int): RW {
    RW(self, map[], map[], map id | id in ids :: 0)
  }

  // ---------------------------------------------------------------- prepare

  /** The remove counter of replica id recorded for key k. */
  function Ts(removes: map<Key, map<int, Mark>>, k: Key, id: int): int {
    if k in removes && id in removes[k] then removes[k][id].ts else 0
  }

  /** The highest remove counter of id over the keys, 0 if there is none. */
  ghost function MaxTs(removes: map<Key, map<int, Mark>>, keys: set<Key>, id: int): int {
    if keys == {} then 0
    else
      var k :| k in keys;
      var rest := MaxTs(removes, keys - {k}, id);
      if Ts(removes, k, id) > rest then Ts(removes, k, id) else rest
  }

  ghost predicate IsMaxTs(removes: map<Key, map<int, Mark>>, keys: set<Key>, id: int, m: int) {
    && (m == 0 || exists k :: k in keys && m == Ts(removes, k, id))
    && m >= 0
    && forall k :: k in keys ==> Ts(removes, k, id) <= m
  }

  lemma {:induction false} MaxTsIsMax(removes: map<Key, map<int, Mark>>, keys: set<Key>, id: int)
    ensures IsMaxTs(removes, keys, id, MaxTs(removes, keys, id))
    decreases keys
  {
    if keys != {} {
      var k :| k in keys && MaxTs(removes, keys, id) ==
        var rest := MaxTs(removes, keys - {k}, id);
        if Ts(removes, k, id) > rest then Ts(removes, k, id) else rest;
      MaxTsIsMax(removes, keys - {k}, id);
      assert keys == keys - {k} + {k};
    }
  }

  ghost function RecordedBy(removes: map<Key, map<int, Mark>>, keys: set<Key>): set<int> {
    set k, id | k in keys && k in removes && id in removes[k] :: id
  }

  /** The remove clocks that an update of these keys carries. */
  ghost function RmvEntries(removes: map<Key, map<int, Mark>>, keys: set<Key>): map<int, int> {
    map id | id in RecordedBy(removes, keys) && MaxTs(removes, keys, id) > 0 :: MaxTs(removes, keys, id)
  }

  /** The keys of a remove that the map holds, in the order given. */
  function Present(entries: map<Key, int>, keys: seq<Key>): seq<Key> {
    if keys == [] then []
    else
      var last := keys[|keys| - 1];
      var front := Present(entries, keys[..|keys| - 1]);
      if last in entries then front + [last] else front
  }

  lemma {:induction false} PresentKeys(entries: map<Key, int>, keys: seq<Key>, k: Key)
    ensures k in Present(entries, keys) <==> k in keys && k in entries
  {
    if keys != [] {
      PresentKeys(entries, keys[..|keys| - 1], k);
      assert keys == keys[..|keys| - 1] + [keys[|keys| - 1]];
    }
  }

  ghost function Prepare(s: RW, upd: Upd): Option<Op> {
    match upd
    case Update(upds) =>
      var rmv := RmvEntries(s.removes, upds.Keys);
      if |upds| == 0 && |rmv| == 0 then None else Some(UpdateAll(upds, rmv, s.self))
    case Remove(keys) =>
      var rems := Present(s.entries, keys);
      if rems == [] then None else Some(RemoveAll(rems, Get(s.rmvClock, s.self) + 1, s.self))
  }

  // ---------------------------------------------------------------- effect

  /** An update takes effect on k only if its clocks cover every remove recorded for k. */
  predicate Covers(removes: map<Key, map<int, Mark>>, k: Key, rmv: map<int, int>) {
    k in removes ==> forall id :: id in removes[k] ==> id in rmv && removes[k][id].ts <= rmv[id]
  }

  /** The update's replica is marked in the records of the keys it takes effect on. */
  function Marked(removes: map<Key, map<int, Mark>>, done: set<Key>, rmv: map<int, int>, id: int): map<Key, map<int, Mark>> {
    map k | k in removes ::
      if k in done && Covers(removes, k, rmv) && id in removes[k]
      then removes[k][id := removes[k][id].(mark := true)] else removes[k]
  }

  /** The embedded counters after the updates of the keys in `done`. */
  function Updated(s: RW, upds: map<Key, int>, done: set<Key>, rmv: map<int, int>): map<Key, int>
    requires done <= upds.Keys
  {
    map k | k in s.entries.Keys + done && (k in s.entries || Covers(s.removes, k, rmv)) ::
      Get(s.entries, k) + if k in done && Covers(s.removes, k, rmv) then upds[k] else 0
  }

  /** Recording a remove sets the clock of its issuer and clears every mark of the key. */
  function Recorded(removes: map<Key, map<int, Mark>>, k: Key, id: int, ts: int): map<int, Mark> {
    var prior := if k in removes then removes[k] else map[];
    map r | r in prior.Keys + {id} :: Mark(if r == id then ts else prior[r].ts, false)
  }

  function RecordedAll(removes: map<Key, map<int, Mark>>, rems: seq<Key>, id: int, ts: int): map<Key, map<int, Mark>> {
    map k | k in removes.Keys + (set x | x in rems) ::
      if k in rems then Recorded(removes, k, id, ts) else removes[k]
  }

  function Without(entries: map<Key, int>, rems: seq<Key>): map<Key, int> {
    map k | k in entries && k !in rems :: entries[k]
  }

  function Apply(s: RW, op: Op): RW {
    match op
    case UpdateAll(upds, rmv, id) =>
      s.(entries := Updated(s, upds, upds.Keys, rmv), removes := Marked(s.removes, upds.Keys, rmv, id))
    case RemoveAll(rems, ts, id) =>
      s.(entries := Without(s.entries, rems),
         removes := RecordedAll(s.removes, rems, id, ts),
         rmvClock := if Get(s.rmvClock, id) < ts then s.rmvClock[id := ts] else s.rmvClock)
  }

  function Higher(ts: int, rmvClk: map<int, Mark>, id: int): int {
    if id in rmvClk && rmvClk[id].ts > ts then rmvClk[id].ts else ts
  }

  ghost predicate Collected(rmv: map<int, int>, removes: map<Key, map<int, Mark>>, keys: set<Key>) {
    && (forall id :: IsMaxTs(removes, keys, id, Get(rmv, id)))
    && (forall id :: id in rmv ==> rmv[id] > 0)
  }

  lemma CollectedStep(rmv: map<int, int>, raised: map<int, int>, removes: map<Key, map<int, Mark>>, keys: set<Key>, key: Key)
    requires Collected(rmv, removes, keys)
    requires forall id :: id in raised ==> raised[id] > 0
    requires forall id :: Get(raised, id) == Higher(Get(rmv, id), if key in removes then removes[key] else map[], id)
    ensures Collected(raised, removes, keys + {key})
  {
    forall id ensures IsMaxTs(removes, keys + {key}, id, Get(raised, id)) {
      assert IsMaxTs(removes, keys, id, Get(rmv, id));
      assert key in keys + {key};
    }
  }

  lemma CollectedAll(rmv: map<int, int>, removes: map<Key, map<int, Mark>>, keys: set<Key>)
    requires Collected(rmv, removes, keys)
    ensures rmv == RmvEntries(removes, keys)
  {
    var all := RmvEntries(removes, keys);
    forall id ensures (id in rmv <==> id in all) && Get(rmv, id) == Get(all, id) {
      MaxTsIsMax(removes, keys, id);
      assert IsMaxTs(removes, keys, id, Get(rmv, id));
      assert Get(rmv, id) == MaxTs(removes, keys, id);
    }
    forall id | id in rmv ensures rmv[id] == all[id] {
      assert Get(rmv, id) == Get(all, id);
    }
  }

  /** One more key of an update. */
  lemma UpdatedStep(s: RW, upds: map<Key, int>, done: set<Key>, rmv: map<int, int>, key: Key)
    requires done <= upds.Keys && key in upds && key !in done
    ensures var before := Updated(s, upds, done, rmv);
            Updated(s, upds, done + {key}, rmv) ==
            if Covers(s.removes, key, rmv) then before[key := Get(before, key) + upds[key]] else before
  {
  }

  lemma MarkedStep(removes: map<Key, map<int, Mark>>, done: set<Key>, rmv: map<int, int>, id: int, key: Key)
    requires key !in done
    ensures var before := Marked(removes, done, rmv, id);
            && (key in before <==> key in removes) && (key in removes ==> before[key] == removes[key])
            && Marked(removes, done + {key}, rmv, id)
            == if Covers(removes, key, rmv) && key in removes && id in removes[key]
               then before[key := removes[key][id := removes[key][id].(mark := true)]] else before
  {
  }

  /** One more key of a remove. */
  lemma NothingRemoved(entries: map<Key, int>, removes: map<Key, map<int, Mark>>, ts: int, id: int)
    ensures Without(entries, []) == entries
    ensures RecordedAll(removes, [], id, ts) == removes
  {
  }

  lemma WithoutStep(entries: map<Key, int>, rems: seq<Key>, key: Key)
    ensures Without(entries, rems + [key]) == Without(entries, rems) - {key}
  {
    forall k ensures k in rems + [key] <==> k in rems || k == key {}
  }

  lemma RecordStep(removes: map<Key, map<int, Mark>>, rems: seq<Key>, ts: int, id: int, key: Key)
    ensures var before := RecordedAll(removes, rems, id, ts);
            RecordedAll(removes, rems + [key], id, ts) == before[key := Recorded(before, key, id, ts)]
  {
    var before, after := RecordedAll(removes, rems, id, ts), RecordedAll(removes, rems + [key], id, ts);
    forall k ensures k in rems + [key] <==> k in rems || k == key {}
    assert after.Keys == before.Keys + {key};
    RecordedAgain(removes, rems, ts, id, key);
    forall k | k in after && k != key ensures after[k] == before[k] {}
  }

  /** Recording the same remove twice for one key changes nothing. */
  lemma RecordedAgain(removes: map<Key, map<int, Mark>>, rems: seq<Key>, ts: int, id: int, key: Key)
    ensures Recorded(RecordedAll(removes, rems, id, ts), key, id, ts) == Recorded(removes, key, id, ts)
  {
  }

  // ---------------------------------------------------------------- updates as a list

  datatype KeyUpd = KeyUpd(key: Key, change: int)

  /** An update of one key. */
  function ApplyOne(s: RW, key: Key, change: int, rmv: map<int, int>, id: int): RW {
    if !Covers(s.removes, key, rmv) then s
    else
      s.(entries := s.entries[key := Get(s.entries, key) + change],
         removes := if key in s.removes && id in s.removes[key]
                    then s.removes[key := s.removes[key][id := s.removes[key][id].(mark := true)]] else s.removes)
  }

  /** The pairs applied one by one. */
  function ApplyPairs(s: RW, pairs: seq<KeyUpd>, rmv: map<int, int>, id: int): RW {
    if pairs == [] then s
    else
      var last := pairs[|pairs| - 1];
      ApplyOne(ApplyPairs(s, pairs[..|pairs| - 1], rmv, id), last.key, last.change, rmv, id)
  }

  predicate DistinctKeys(pairs: seq<KeyUpd>) {
    forall i, j :: 0 <= i < j < |pairs| ==> pairs[i].key != pairs[j].key
  }

  ghost predicate IsMapOf(pairs: seq<KeyUpd>, upds: map<Key, int>) {
    && (forall i :: 0 <= i < |pairs| ==> pairs[i].key in upds && upds[pairs[i].key] == pairs[i].change)
    && (forall k :: k in upds ==> exists i :: 0 <= i < |pairs| && pairs[i].key == k)
  }

  function KeysOf(pairs: seq<KeyUpd>): set<Key> {
    set i | 0 <= i < |pairs| :: pairs[i].key
  }

  lemma KeysOfMore(pairs: seq<KeyUpd>, n: nat)
    requires n < |pairs|
    ensures KeysOf(pairs[..n + 1]) == KeysOf(pairs[..n]) + {pairs[n].key}
    ensures DistinctKeys(pairs) ==> pairs[n].key !in KeysOf(pairs[..n])
  {
    forall k ensures k in KeysOf(pairs[..n + 1]) <==> k in KeysOf(pairs[..n]) || k == pairs[n].key {
      if k in KeysOf(pairs[..n]) {
        var i :| 0 <= i < n && pairs[..n][i].key == k;
        assert pairs[..n + 1][i].key == k;
      }
      if k == pairs[n].key { assert pairs[..n + 1][n].key == k; }
    }
  }

  /** Marking does not change what an update covers. */
  lemma MarkedCovers(removes: map<Key, map<int, Mark>>, done: set<Key>, rmv: map<int, int>, id: int, k: Key)
    ensures Covers(Marked(removes, done, rmv, id), k, rmv) <==> Covers(removes, k, rmv)
  {
    MarkedKeepsTs(removes, done, rmv, id, k);
  }

  ghost function AfterKeys(s: RW, upds: map<Key, int>, done: set<Key>, rmv: map<int, int>, id: int): RW
    requires done <= upds.Keys
  {
    s.(entries := Updated(s, upds, done, rmv), removes := Marked(s.removes, done, rmv, id))
  }

  lemma AfterOneMore(s: RW, upds: map<Key, int>, done: set<Key>, rmv: map<int, int>, id: int, key: Key)
    requires done <= upds.Keys && key in upds && key !in done
    ensures AfterKeys(s, upds, done + {key}, rmv, id) == ApplyOne(AfterKeys(s, upds, done, rmv, id), key, upds[key], rmv, id)
  {
    MarkedCovers(s.removes, done, rmv, id, key);
    UpdatedStep(s, upds, done, rmv, key);
    MarkedStep(s.removes, done, rmv, id, key);
  }

  lemma AfterNone(s: RW, upds: map<Key, int>, rmv: map<int, int>, id: int)
    ensures AfterKeys(s, upds, {}, rmv, id) == s
  {
    assert Updated(s, upds, {}, rmv) == s.entries && Marked(s.removes, {}, rmv, id) == s.removes;
  }

  lemma KeysWithin(pairs: seq<KeyUpd>, upds: map<Key, int>, n: nat)
    requires IsMapOf(pairs, upds) && n <= |pairs|
    ensures KeysOf(pairs[..n]) <= upds.Keys
  {
  }

  lemma ApplyMore(s: RW, pairs: seq<KeyUpd>, rmv: map<int, int>, id: int, n: nat)
    requires n < |pairs|
    ensures ApplyPairs(s, pairs[..n + 1], rmv, id)
         == ApplyOne(ApplyPairs(s, pairs[..n], rmv, id), pairs[n].key, pairs[n].change, rmv, id)
  {
    assert pairs[..n + 1][..n] == pairs[..n];
  }

  lemma {:induction false} PairsStep(s: RW, pairs: seq<KeyUpd>, upds: map<Key, int>, rmv: map<int, int>, id: int, n: nat)
    requires DistinctKeys(pairs) && IsMapOf(pairs, upds) && n <= |pairs| && KeysOf(pairs[..n]) <= upds.Keys
    ensures ApplyPairs(s, pairs[..n], rmv, id) == AfterKeys(s, upds, KeysOf(pairs[..n]), rmv, id)
  {
    if n == 0 {
      AfterNone(s, upds, rmv, id);
    } else {
      KeysWithin(pairs, upds, n - 1);
      PairsStep(s, pairs, upds, rmv, id, n - 1);
      KeysOfMore(pairs, n - 1);
      ApplyMore(s, pairs, rmv, id, n - 1);
      AfterOneMore(s, upds, KeysOf(pairs[..n - 1]), rmv, id, pairs[n - 1].key);
    }
  }

  /** A list with distinct keys, in any order, has the effect of the map with the same updates. */
  lemma ListIsMap(s: RW, pairs: seq<KeyUpd>, upds: map<Key, int>, rmv: map<int, int>, id: int)
    requires DistinctKeys(pairs) && IsMapOf(pairs, upds)
    ensures ApplyPairs(s, pairs, rmv, id) == Apply(s, UpdateAll(upds, rmv, id))
  {
    KeysWithin(pairs, upds, |pairs|);
    PairsStep(s, pairs, upds, rmv, id, |pairs|);
    assert pairs[..|pairs|] == pairs;
    assert KeysOf(pairs) == upds.Keys;
  }

  /** The changes of the pairs with key k. */
  function ChangeFor(pairs: seq<KeyUpd>, k: Key): int {
    if pairs == [] then 0
    else ChangeFor(pairs[..|pairs| - 1], k) + if pairs[|pairs| - 1].key == k then pairs[|pairs| - 1].change else 0
  }

  ghost predicate HasKey(pairs: seq<KeyUpd>, k: Key) {
    exists i :: 0 <= i < |pairs| && pairs[i].key == k
  }

  lemma OneAt(s: RW, key: Key, change: int, rmv: map<int, int>, id: int, k: Key)
    ensures var s', takes := ApplyOne(s, key, change, rmv, id), k == key && Covers(s.removes, key, rmv);
            && (Covers(s'.removes, k, rmv) <==> Covers(s.removes, k, rmv))
            && (k in s'.entries <==> k in s.entries || takes)
            && Get(s'.entries, k) == Get(s.entries, k) + if takes then change else 0
  {
  }

  /** A list, repeated keys included, adds to each key all changes given for it, if the update covers the
      removes recorded for the key, and changes no other key. */
  lemma {:induction false} ListAt(s: RW, pairs: seq<KeyUpd>, rmv: map<int, int>, id: int, k: Key)
    ensures var s', takes := ApplyPairs(s, pairs, rmv, id), Covers(s.removes, k, rmv);
            && (Covers(s'.removes, k, rmv) <==> takes)
            && (k in s'.entries <==> k in s.entries || (takes && HasKey(pairs, k)))
            && Get(s'.entries, k) == Get(s.entries, k) + if takes then ChangeFor(pairs, k) else 0
    decreases |pairs|
  {
    if pairs != [] {
      var front, last := pairs[..|pairs| - 1], pairs[|pairs| - 1];
      ListAt(s, front, rmv, id, k);
      OneAt(ApplyPairs(s, front, rmv, id), last.key, last.change, rmv, id, k);
      assert HasKey(pairs, k) <==> HasKey(front, k) || last.key == k by {
        if HasKey(front, k) { var i :| 0 <= i < |front| && front[i].key == k; assert pairs[i].key == k; }
        if last.key == k { assert pairs[|pairs| - 1].key == k; }
      }
    }
  }

  // ---------------------------------------------------------------- the object

  class RWEmbMapCrdt {
    const replicaID: int
    var entries: map<Key, int>
    var removes: map<Key, map<int, Mark>>
    var rmvClock: map<int, int>

    function State(): RW
      reads this
    {
      RW(replicaID, entries, removes, rmvClock)
    }

    constructor (ids: seq<int>, self: int)
      ensures State() == Initial(ids, self)
    {
      replicaID := self;
      entries, removes := map[], map[];
      rmvClock := map id | id in ids :: 0;
    }

    method GetUpdateAllDownstreamArgs(upds: map<Key, int>) returns (down: Option<Op>)
      ensures down == Prepare(State(), Update(upds))
    {
      var rmvEntries: map<int, int> := map[];
      var todo := upds.Keys;
      ghost var done: set<Key> := {};
      while todo != {}
        invariant todo !! done && todo + done == upds.Keys
        invariant Collected(rmvEntries, removes, done)
      {
        var key := Pick(todo);
        todo := todo - {key};
        ghost var before := rmvEntries;
        if key in removes {
          rmvEntries := Raise(rmvEntries, removes[key]);
        }
        CollectedStep(before, rmvEntries, removes, done, key);
        done := done + {key};
      }
      assert done == upds.Keys;
      CollectedAll(rmvEntries, removes, upds.Keys);
      if |upds| == 0 && |rmvEntries| == 0 {
        return None;
      }
      return Some(UpdateAll(upds, rmvEntries, replicaID));
    }

    /** Raise the collected clocks to the ones recorded for one more key. */
    method Raise(rmvEntries: map<int, int>, rmvClk: map<int, Mark>) returns (raised: map<int, int>)
      requires forall id :: id in rmvEntries ==> rmvEntries[id] > 0
      ensures forall id :: id in raised ==> raised[id] > 0
      ensures forall id :: Get(raised, id) == Higher(Get(rmvEntries, id), rmvClk, id)
    {
      raised := rmvEntries;
      var left := rmvClk.Keys;
      while left != {}
        invariant left <= rmvClk.Keys
        invariant forall id :: id in raised ==> raised[id] > 0
        invariant forall id :: Get(raised, id) == if id in left then Get(rmvEntries, id) else Higher(Get(rmvEntries, id), rmvClk, id)
      {
        var replica := Pick(left);
        left := left - {replica};
        if rmvClk[replica].ts > Get(raised, replica) {
          raised := raised[replica := rmvClk[replica].ts];
        }
      }
    }

    method GetRemoveAllDownstreamArgs(keys: seq<Key>) returns (down: Option<Op>)
      ensures down == Prepare(State(), Remove(keys))
    {
      var toRemove: seq<Key> := [];
      for i := 0 to |keys|
        invariant toRemove == Present(entries, keys[..i])
      {
        assert keys[..i + 1][..i] == keys[..i];
        if keys[i] in entries {
          toRemove := toRemove + [keys[i]];
        }
      }
      assert keys[..|keys|] == keys;
      if toRemove == [] {
        return None;
      }
      return Some(RemoveAll(toRemove, Get(rmvClock, replicaID) + 1, replicaID));
    }

    method ApplyUpdateAll(upds: map<Key, int>, remClks: map<int, int>, remoteID: int)
      modifies this
      ensures State() == Apply(old(State()), UpdateAll(upds, remClks, remoteID))
    {
      if |removes| == 0 {
        assert removes == map[];
        if |entries| == 0 {
          assert entries == map[];
          InsertIntoEmpty(upds, remClks);
        } else {
          InsertUnchecked(upds, remClks);
        }
        assert Marked(removes, upds.Keys, remClks, remoteID) == removes;
      } else {
        InsertChecked(upds, remClks, remoteID);
      }
    }

    /** No removes are recorded and no entries exist: every counter is new. */
    method InsertIntoEmpty(upds: map<Key, int>, ghost remClks: map<int, int>)
      requires removes == map[] && entries == map[]
      modifies `entries
      ensures entries == Updated(old(State()), upds, upds.Keys, remClks)
    {
      var todo := upds.Keys;
      ghost var done: set<Key> := {};
      assert Updated(old(State()), upds, {}, remClks) == entries;
      while todo != {}
        invariant todo !! done && todo + done == upds.Keys
        invariant entries == Updated(old(State()), upds, done, remClks)
      {
        var key := Pick(todo);
        todo := todo - {key};
        var emb, _ := GetOrCreate(key);
        UpdatedStep(old(State()), upds, done, remClks, key);
        entries := entries[key := emb + upds[key]];
        done := done + {key};
      }
      assert done == upds.Keys;
    }

    /** No removes are recorded: every update takes effect without a check. */
    method InsertUnchecked(upds: map<Key, int>, ghost remClks: map<int, int>)
      requires removes == map[]
      modifies `entries
      ensures entries == Updated(old(State()), upds, upds.Keys, remClks)
    {
      var todo := upds.Keys;
      ghost var done: set<Key> := {};
      assert Updated(old(State()), upds, {}, remClks) == entries;
      while todo != {}
        invariant todo !! done && todo + done == upds.Keys
        invariant entries == Updated(old(State()), upds, done, remClks)
      {
        var key := Pick(todo);
        todo := todo - {key};
        var emb, isNew := GetOrCreate(key);
        UpdatedStep(old(State()), upds, done, remClks, key);
        if isNew {
          entries := entries[key := emb + upds[key]];
        } else {
          entries := entries[key := entries[key] + upds[key]];
        }
        done := done + {key};
      }
      assert done == upds.Keys;
    }

    /** The same for updates given as a list, which may repeat a key. */
    method ApplyUpdateAllArray(upds: seq<KeyUpd>, remClks: map<int, int>, remoteID: int)
      modifies this
      ensures State() == ApplyPairs(old(State()), upds, remClks, remoteID)
    {
      if |removes| == 0 {
        assert removes == map[];
        InsertList(upds, remClks, remoteID);
      } else {
        for i := 0 to |upds|
          invariant State() == ApplyPairs(old(State()), upds[..i], remClks, remoteID)
        {
          assert upds[..i + 1][..i] == upds[..i];
          ApplyUpdate(upds[i].key, upds[i].change, remClks, remoteID);
        }
        assert upds[..|upds|] == upds;
      }
    }

    method InsertList(upds: seq<KeyUpd>, ghost remClks: map<int, int>, ghost remoteID: int)
      requires removes == map[]
      modifies `entries
      ensures State() == ApplyPairs(old(State()), upds, remClks, remoteID)
    {
      var wasEmpty := |entries| == 0;
      for i := 0 to |upds|
        invariant removes == map[]
        invariant State() == ApplyPairs(old(State()), upds[..i], remClks, remoteID)
      {
        assert upds[..i + 1][..i] == upds[..i];
        InsertOne(upds[i].key, upds[i].change, wasEmpty, remClks, remoteID);
      }
      assert upds[..|upds|] == upds;
    }

    method InsertOne(key: Key, change: int, wasEmpty: bool, ghost remClks: map<int, int>, ghost remoteID: int)
      requires removes == map[]
      modifies `entries
      ensures State() == ApplyOne(old(State()), key, change, remClks, remoteID)
    {
      var emb, isNew := GetOrCreate(key);
      if wasEmpty || isNew {
        entries := entries[key := emb + change];
      } else {
        entries := entries[key := entries[key] + change];
      }
    }

    method InsertChecked(upds: map<Key, int>, remClks: map<int, int>, remoteID: int)
      modifies `entries, `removes
      ensures entries == Updated(old(State()), upds, upds.Keys, remClks)
      ensures removes == Marked(old(removes), upds.Keys, remClks, remoteID)
    {
      var todo := upds.Keys;
      ghost var done: set<Key> := {};
      assert Updated(old(State()), upds, {}, remClks) == entries;
      assert Marked(old(removes), {}, remClks, remoteID) == removes;
      while todo != {}
        invariant todo !! done && todo + done == upds.Keys
        invariant entries == Updated(old(State()), upds, done, remClks)
        invariant removes == Marked(old(removes), done, remClks, remoteID)
      {
        var key := Pick(todo);
        todo := todo - {key};
        UpdatedStep(old(State()), upds, done, remClks, key);
        MarkedStep(old(removes), done, remClks, remoteID, key);
        ApplyUpdate(key, upds[key], remClks, remoteID);
        done := done + {key};
      }
      assert done == upds.Keys;
    }

    /** The slow path for one key: the update must surpass every recorded remove. */
    method ApplyUpdate(key: Key, change: int, remClks: map<int, int>, remoteID: int)
      modifies `entries, `removes
      ensures entries == if Covers(old(removes), key, remClks)
                         then old(entries)[key := Get(old(entries), key) + change] else old(entries)
      ensures removes == if Covers(old(removes), key, remClks) && key in old(removes) && remoteID in old(removes)[key]
                         then old(removes)[key := old(removes)[key][remoteID := old(removes)[key][remoteID].(mark := true)]]
                         else old(removes)
    {
      var canAdd := key !in removes;
      if key in removes {
        canAdd := CheckRemoves(removes[key], remClks);
        if canAdd && remoteID in removes[key] {
          if !removes[key][remoteID].mark {
            removes := removes[key := removes[key][remoteID := removes[key][remoteID].(mark := true)]];
          } else {
            assert removes[key][remoteID].(mark := true) == removes[key][remoteID];
            assert removes[key][remoteID := removes[key][remoteID]] == removes[key];
            assert removes[key := removes[key]] == removes;
          }
        }
      }
      if canAdd {
        var emb, _ := GetOrCreate(key);
        entries := entries[key := emb + change];
      }
    }

    /** The scan over the recorded removes of a key, which stops at the first one not covered. */
    method CheckRemoves(remEntry: map<int, Mark>, remClks: map<int, int>) returns (canAdd: bool)
      ensures canAdd == forall id :: id in remEntry ==> id in remClks && remEntry[id].ts <= remClks[id]
    {
      canAdd := true;
      var nMarks := 0;
      var left := remEntry.Keys;
      while left != {}
        invariant left <= remEntry.Keys
        invariant forall id :: id in remEntry && id !in left ==> id in remClks && remEntry[id].ts <= remClks[id]
        invariant canAdd
      {
        var replica := Pick(left);
        left := left - {replica};
        if replica !in remClks || remEntry[replica].ts > remClks[replica] {
          canAdd := false;
          break;
        } else if remEntry[replica].mark {
          nMarks := nMarks + 1;
        }
      }
    }

    method GetOrCreate(key: Key) returns (emb: int, isNew: bool)
      ensures emb == Get(entries, key) && isNew == (key !in entries)
    {
      isNew := key !in entries;
      emb := if isNew then 0 else entries[key];
    }

    method ApplyRemoveAll(toRem: seq<Key>, remoteReplicaID: int, remoteClk: int)
      modifies this
      ensures State() == Apply(old(State()), RemoveAll(toRem, remoteClk, remoteReplicaID))
    {
      if Get(rmvClock, remoteReplicaID) < remoteClk {
        rmvClock := rmvClock[remoteReplicaID := remoteClk];
      }
      RecordAll(toRem, remoteReplicaID, remoteClk);
    }

    /** The loop over the keys. */
    method RecordAll(toRem: seq<Key>, id: int, clk: int)
      modifies `entries, `removes
      ensures entries == Without(old(entries), toRem)
      ensures removes == RecordedAll(old(removes), toRem, id, clk)
    {
      NothingRemoved(entries, removes, clk, id);
      for i := 0 to |toRem|
        invariant entries == Without(old(entries), toRem[..i])
        invariant removes == RecordedAll(old(removes), toRem[..i], id, clk)
      {
        WithoutStep(old(entries), toRem[..i], toRem[i]);
        RecordStep(old(removes), toRem[..i], clk, id, toRem[i]);
        assert toRem[..i + 1] == toRem[..i] + [toRem[i]];
        RemoveKey(toRem[i], id, clk);
      }
      assert toRem[..|toRem|] == toRem;
    }

    method RemoveKey(key: Key, id: int, clk: int)
      modifies `entries, `removes
      ensures entries == old(entries) - {key}
      ensures removes == old(removes)[key := Recorded(old(removes), key, id, clk)]
    {
      var remEntry := RecordRemove(if key in removes then removes[key] else map[], id, clk);
      removes := removes[key := remEntry];
      if key in entries {
        entries := entries - {key};
      }
    }

    method RecordRemove(entry: map<int, Mark>, id: int, clk: int) returns (remEntry: map<int, Mark>)
      ensures remEntry == map r | r in entry.Keys + {id} :: Mark(if r == id then clk else entry[r].ts, false)
    {
      remEntry := entry[id := Mark(clk, false)];
      if |remEntry| > 1 {
        remEntry := map r | r in remEntry :: remEntry[r].(mark := false);
      } else {
        OnlyKey(remEntry, id);
      }
    }
  }

  lemma OnlyKey(m: map<int, Mark>, id: int)
    requires id in m && |m| <= 1
    ensures m.Keys == {id}
  {
    assert |m.Keys - {id}| == |m.Keys| - 1;
    assert m.Keys == {id} + (m.Keys - {id});
  }

  /** What an update does to one key. */
  lemma UpdateAt(s: RW, op: Op, k: Key)
    requires op.UpdateAll?
    ensures var takes := k in op.upds && Covers(s.removes, k, op.rmvEntries);
            var s' := Apply(s, op);
            && (k in s'.entries <==> k in s.entries || takes)
            && Get(s'.entries, k) == Get(s.entries, k) + if takes then op.upds[k] else 0
  {
  }

  /** Marking changes no recorded counter. */
  lemma MarkedKeepsTs(removes: map<Key, map<int, Mark>>, done: set<Key>, rmv: map<int, int>, id: int, k: Key)
    ensures var marked := Marked(removes, done, rmv, id);
            && (k in marked <==> k in removes)
            && (k in removes ==> marked[k].Keys == removes[k].Keys)
            && (k in removes ==> forall r :: r in removes[k] ==> marked[k][r].ts == removes[k][r].ts)
  {
  }

  /** With no removes recorded anywhere, the check is vacuous: the fast path equals the slow one. */
  lemma FastPathIsSlowPath(s: RW, upds: map<Key, int>, rmv: map<int, int>, id: int)
    requires s.removes == map[]
    ensures var s' := Apply(s, UpdateAll(upds, rmv, id));
            && s'.removes == map[]
            && s'.entries.Keys == s.entries.Keys + upds.Keys
            && forall k :: Get(s'.entries, k) == Get(s.entries, k) + Get(upds, k)
  {
  }

  // ---------------------------------------------------------------- what a request does

  /** The map after a request was prepared and, unless there is nothing to do, applied. */
  ghost function Requested(s: RW, upd: Upd): RW {
    var op := Prepare(s, upd);
    if op.Some? then Apply(s, op.value) else s
  }

  /** A remove takes out exactly the keys requested, present or not, and leaves the other entries alone. */
  lemma RemoveRequest(s: RW, keys: seq<Key>)
    ensures Requested(s, Remove(keys)).entries == map k | k in s.entries && k !in keys :: s.entries[k]
  {
    forall k { PresentKeys(s.entries, keys, k); }
  }

  /** It names the requested keys that are present, and sends nothing if there is none. */
  lemma RemoveNames(s: RW, keys: seq<Key>)
    ensures var op := Prepare(s, Remove(keys));
            && (op.None? <==> forall k :: k in keys ==> k !in s.entries)
            && (op.Some? ==> op.value.RemoveAll? && op.value.replicaID == s.self && op.value.ts == Get(s.rmvClock, s.self) + 1
                             && forall k :: k in op.value.rems <==> k in keys && k in s.entries)
  {
    forall k { PresentKeys(s.entries, keys, k); }
    if Present(s.entries, keys) != [] {
      assert Present(s.entries, keys)[0] in Present(s.entries, keys);
    }
  }

  /** Recorded remove counters are positive. */
  ghost predicate Positive(removes: map<Key, map<int, Mark>>) {
    forall k, id :: k in removes && id in removes[k] ==> removes[k][id].ts >= 1
  }

  lemma OwnRemovesCovered(removes: map<Key, map<int, Mark>>, keys: set<Key>, k: Key)
    requires Positive(removes) && k in keys
    ensures Covers(removes, k, RmvEntries(removes, keys))
  {
    if k in removes {
      forall id | id in removes[k] ensures id in RmvEntries(removes, keys) && removes[k][id].ts <= RmvEntries(removes, keys)[id] {
        MaxTsIsMax(removes, keys, id);
        assert 1 <= Ts(removes, k, id) <= MaxTs(removes, keys, id);
        assert id in RecordedBy(removes, keys);
      }
    }
  }

  lemma CoveredUpdate(s: RW, upds: map<Key, int>, rmv: map<int, int>)
    requires forall k :: k in upds ==> Covers(s.removes, k, rmv)
    ensures Updated(s, upds, upds.Keys, rmv) == map k | k in s.entries.Keys + upds.Keys :: Get(s.entries, k) + Get(upds, k)
  {
  }

  /** An update takes effect on all of its keys where it is requested: each holds its old value plus its
      change, and no other key changes. */
  lemma UpdateRequest(s: RW, upds: map<Key, int>)
    requires Positive(s.removes)
    ensures Requested(s, Update(upds)).entries == map k | k in s.entries.Keys + upds.Keys :: Get(s.entries, k) + Get(upds, k)
  {
    var rmv := RmvEntries(s.removes, upds.Keys);
    forall k | k in upds ensures Covers(s.removes, k, rmv) {
      OwnRemovesCovered(s.removes, upds.Keys, k);
    }
    CoveredUpdate(s, upds, rmv);
    if |upds| == 0 { assert upds == map[]; }
  }
}
