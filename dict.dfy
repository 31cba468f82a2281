/** Python dictionaries as insertion-ordered association lists. Assigning to
    a present key overwrites its value and keeps its position; a new key goes
    to the end. Iteration order is insertion order. */
module Dict {
  import opened Wrappers

  type Dict<K, V> = seq<(K, V)>

  function Keys<K, V>(d: Dict<K, V>): (ks: seq<K>)
    ensures |ks| == |d| && forall i | 0 <= i < |d| :: ks[i] == d[i].0
  {
    seq(|d|, i requires 0 <= i < |d| => d[i].0)
  }

  ghost predicate Distinct<K>(ks: seq<K>) {
    forall i, j | 0 <= i < j < |ks| :: ks[i] != ks[j]
  }

  /** `d.get(k)` */
  function Get<K(==), V>(d: Dict<K, V>, k: K): (r: Option<V>)
    ensures r.Some? <==> k in Keys(d)
    decreases |d|
  {
    if d == [] then None
    else if d[0].0 == k then Some(d[0].1)
    else
      assert Keys(d) == [d[0].0] + Keys(d[1..]);
      Get(d[1..], k)
  }

  /** What `d.get(k)` returns is a value stored under `k`. */
  lemma {:induction false} GetStored<K, V>(d: Dict<K, V>, k: K)
    requires Get(d, k).Some?
    ensures exists i | 0 <= i < |d| :: d[i] == (k, Get(d, k).value)
    decreases |d|
  {
    if d[0].0 != k {
      GetStored(d[1..], k);
      var i :| 0 <= i < |d[1..]| && d[1..][i] == (k, Get(d, k).value);
      assert d[i + 1] == (k, Get(d, k).value);
    }
  }

  /** `d[k] = v` */
  function Put<K(==), V>(d: Dict<K, V>, k: K, v: V): (r: Dict<K, V>)
    ensures Keys(r) == if k in Keys(d) then Keys(d) else Keys(d) + [k]
    decreases |d|
  {
    if d == [] then [(k, v)]
    else if d[0].0 == k then
      var r := [(k, v)] + d[1..];
      assert Keys(r) == Keys(d);
      r
    else
      var rest := Put(d[1..], k, v);
      var r := [d[0]] + rest;
      assert Keys(d) == [d[0].0] + Keys(d[1..]);
      assert Keys(r) == [d[0].0] + Keys(rest);
      r
  }

  /** After `d[k] = v`, `d.get(k)` is `v`. */
  lemma {:induction false} PutGet<K, V>(d: Dict<K, V>, k: K, v: V)
    ensures Get(Put(d, k, v), k) == Some(v)
    decreases |d|
  {
    if d != [] && d[0].0 != k {
      PutGet(d[1..], k, v);
      assert Put(d, k, v)[1..] == Put(d[1..], k, v);
    }
  }

  /** `d[k] = v` leaves every other key's value alone. */
  lemma {:induction false} PutGetOther<K, V>(d: Dict<K, V>, k: K, v: V, k': K)
    requires k' != k
    ensures Get(Put(d, k, v), k') == Get(d, k')
    decreases |d|
  {
    if d == [] {
    } else if d[0].0 == k {
      assert Put(d, k, v)[1..] == d[1..];
    } else {
      PutGetOther(d[1..], k, v, k');
      assert Put(d, k, v)[1..] == Put(d[1..], k, v);
    }
  }

  /** `for k, v in pairs: d[k] = v` */
  function PutAll<K(==), V>(d: Dict<K, V>, pairs: seq<(K, V)>): Dict<K, V>
    decreases |pairs|
  {
    if pairs == [] then d else PutAll(Put(d, pairs[0].0, pairs[0].1), pairs[1..])
  }

  /** A key no pair assigns keeps its value. */
  lemma {:induction false} PutAllUntouched<K, V>(d: Dict<K, V>, pairs: seq<(K, V)>, k: K)
    requires forall j | 0 <= j < |pairs| :: pairs[j].0 != k
    ensures Get(PutAll(d, pairs), k) == Get(d, k)
    decreases |pairs|
  {
    if pairs != [] {
      PutGetOther(d, pairs[0].0, pairs[0].1, k);
      PutAllUntouched(Put(d, pairs[0].0, pairs[0].1), pairs[1..], k);
    }
  }

  /** The last assignment to a key decides its value. */
  lemma {:induction false} PutAllLastWins<K, V>(d: Dict<K, V>, pairs: seq<(K, V)>, i: nat)
    requires i < |pairs| && forall j | i < j < |pairs| :: pairs[j].0 != pairs[i].0
    ensures Get(PutAll(d, pairs), pairs[i].0) == Some(pairs[i].1)
    decreases |pairs|
  {
    var d' := Put(d, pairs[0].0, pairs[0].1);
    if i == 0 {
      PutGet(d, pairs[0].0, pairs[0].1);
      PutAllUntouched(d', pairs[1..], pairs[0].0);
    } else {
      PutAllLastWins(d', pairs[1..], i - 1);
    }
  }

  /** Assignment keeps the keys distinct. */
  lemma PutDistinct<K, V>(d: Dict<K, V>, k: K, v: V)
    requires Distinct(Keys(d))
    ensures Distinct(Keys(Put(d, k, v)))
  {
  }

  /** Position of the value Python's `max(d, key=d.get)` picks: the first
      position holding the largest value. */
  function ArgMaxIndex<K>(d: Dict<K, real>): (i: nat)
    requires |d| > 0
    ensures i < |d|
    ensures forall j | 0 <= j < |d| :: d[j].1 <= d[i].1
    ensures forall j | 0 <= j < i :: d[j].1 < d[i].1
    decreases |d|
  {
    if |d| == 1 then 0
    else
      var b := ArgMaxIndex(d[..|d| - 1]);
      if d[|d| - 1].1 > d[b].1 then |d| - 1 else b
  }

  /** `max(d, key=d.get, default=None)`: the first key whose value is
      maximal; `None` for an empty dictionary (where `max` without a default
      raises). */
  function ArgMax<K>(d: Dict<K, real>): (r: Option<K>)
    ensures r.None? <==> d == []
    ensures r.Some? ==> exists i | 0 <= i < |d| :: d[i].0 == r.value
                          && (forall j | 0 <= j < |d| :: d[j].1 <= d[i].1)
                          && (forall j | 0 <= j < i :: d[j].1 < d[i].1)
  {
    if d == [] then None else Some(d[ArgMaxIndex(d)].0)
  }
}
