/** Go's maps and integers as the model needs them: a missing key reads as 0, integer division
    truncates toward zero, and the values of a map can be added up in any order. */
module GoMaps {

  function Get<K>(m: map<K, int>, k: K): int {
    if k in m then m[k] else 0
  }

  /** Go's `/` : truncates toward zero, where Dafny's division rounds down for a positive divisor. */
  function Quo(a: int, b: int): int
    requires b > 0
  {
    if a >= 0 then a / b else -((-a) / b)
  }

  /** Go's `%` : the remainder has the sign of the dividend. */
  function Rem(a: int, b: int): int
    requires b > 0
  {
    if a >= 0 then a % b else -((-a) % b)
  }

  lemma QuoRem(a: int, b: int)
    requires b > 0
    ensures a == b * Quo(a, b) + Rem(a, b)
    ensures a >= 0 ==> 0 <= Rem(a, b) < b && 0 <= Quo(a, b)
    ensures a <= 0 ==> -b < Rem(a, b) <= 0 && Quo(a, b) <= 0
  {
    if a >= 0 {
      DivMod(a, b);
    } else {
      DivMod(-a, b);
      assert b * (-((-a) / b)) == -(b * ((-a) / b));
    }
  }

  lemma DivMod(n: nat, b: int)
    requires b > 0
    ensures n == b * (n / b) + n % b && 0 <= n % b < b && 0 <= n / b
  {
  }

  lemma TimesAtLeast(b: int, q: int)
    requires b > 0 && q >= 0
    ensures b * q >= q
  {
    assert b * q == (b - 1) * q + q;
    assert (b - 1) * q >= 0;
  }

  lemma QuoShrinks(a: int, b: int)
    requires b > 0
    ensures a >= 0 ==> Quo(a, b) <= a
  {
    QuoRem(a, b);
    var q, r := Quo(a, b), Rem(a, b);
    if a >= 0 {
      TimesAtLeast(b, q);
    }
  }

  /** Maps are equal when they have the same keys and values. */
  lemma SameMap<K(!new), V>(a: map<K, V>, b: map<K, V>)
    requires a.Keys == b.Keys && forall k :: k in a ==> a[k] == b[k]
    ensures a == b
  {
  }

  lemma SameKeysAfterUpdate<K, V>(m: map<K, V>, k: K, v: V)
    requires k in m
    ensures m[k := v].Keys == m.Keys
  {
  }

  /** The next key of a `range` loop: any one of those not yet visited. */
  method Pick<K(==)>(todo: set<K>) returns (k: K)
    requires todo != {}
    ensures k in todo
  {
    k :| k in todo;
  }

  /** One way of ranging over the keys: each of them once. */
  ghost predicate Orders<K(!new)>(ids: seq<K>, keys: set<K>) {
    && (forall i, j :: 0 <= i < j < |ids| ==> ids[i] != ids[j])
    && forall id :: id in ids <==> id in keys
  }

  lemma OrdersMore<K(!new)>(ids: seq<K>, keys: set<K>, id: K)
    requires Orders(ids, keys) && id !in keys
    ensures Orders(ids + [id], keys + {id})
  {
    assert id !in ids;
    assert forall x :: x in ids + [id] <==> x in ids || x == id;
  }

  /** The entries of the keys in ids. */
  ghost function Entries<K, V>(m: map<K, V>, ids: seq<K>): map<K, V> {
    map id | id in ids && id in m :: m[id]
  }

  lemma EntriesMore<K, V>(m: map<K, V>, ids: seq<K>, id: K)
    requires id in m
    ensures Entries(m, ids + [id]) == Entries(m, ids)[id := m[id]]
  {
    assert forall x :: x in ids + [id] <==> x in ids || x == id;
  }

  lemma EntriesAll<K(!new), V>(m: map<K, V>, ids: seq<K>)
    requires Orders(ids, m.Keys)
    ensures Entries(m, ids) == m
    ensures ids == [] <==> m == map[]
  {
    if ids == [] {
      assert m.Keys == {};
    } else {
      assert ids[0] in ids;
    }
  }

  ghost function Sum<K>(m: map<K, int>): int
    decreases |m|
  {
    if m == map[] then 0 else
      var k :| k in m;
      m[k] + Sum(m - {k})
  }

  lemma {:induction false} SumWithout<K>(m: map<K, int>, k: K)
    requires k in m
    ensures Sum(m) == m[k] + Sum(m - {k})
    decreases |m|
  {
    var j :| j in m && Sum(m) == m[j] + Sum(m - {j});
    if j != k {
      SumWithout(m - {j}, k);
      SumWithout(m - {k}, j);
      assert m - {j} - {k} == m - {k} - {j};
    }
  }

  lemma SumUpdate<K>(m: map<K, int>, k: K, v: int)
    ensures Sum(m[k := v]) == Sum(m) - Get(m, k) + v
  {
    SumWithout(m[k := v], k);
    if k in m {
      SumWithout(m, k);
      assert m[k := v] - {k} == m - {k};
    } else {
      assert m[k := v] - {k} == m;
    }
  }

  lemma {:induction false} SumNonNegative<K>(m: map<K, int>)
    requires forall k :: k in m ==> m[k] >= 0
    ensures Sum(m) >= 0
    ensures forall k :: k in m ==> m[k] <= Sum(m)
    decreases |m|
  {
    if m != map[] {
      var j :| j in m && Sum(m) == m[j] + Sum(m - {j});
      SumNonNegative(m - {j});
      forall k | k in m ensures m[k] <= Sum(m) {
        if k != j { assert k in m - {j}; }
      }
    }
  }

  lemma TimesOneMore(n: int, b: int)
    ensures (n + 1) * b == n * b + b
  {
  }

  /** A bound on every value bounds the sum: the average never exceeds the maximum. */
  lemma {:induction false} SumAtMost<K>(m: map<K, int>, bound: int)
    requires forall k :: k in m ==> m[k] <= bound
    ensures Sum(m) <= |m| * bound
    decreases |m|
  {
    if m != map[] {
      var j :| j in m && Sum(m) == m[j] + Sum(m - {j});
      SumAtMost(m - {j}, bound);
      assert |m - {j}| == |m| - 1 by { assert (m - {j}).Keys == m.Keys - {j}; assert |(m-{j}).Keys| == |m.Keys| - 1; }
      TimesOneMore(|m| - 1, bound);
    }
  }
}
