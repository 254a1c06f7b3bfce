/**
 A model of Python's `dict`: the entries in insertion order, each key at most once.
 Assigning to an existing key keeps its position and replaces its value; assigning
 to a new key appends it. The order matters for `{v: k for k, v in d.items()}`,
 where a later entry overwrites an earlier one with the same value.
 */
module PyDict {
  import opened Wrappers

  type Dict<K, V> = seq<(K, V)>

  /** No key occurs twice: the invariant every real dict satisfies. */
  predicate DistinctKeys<K(==), V>(d: Dict<K, V>) {
    forall i, j | 0 <= i < j < |d| :: d[i].0 != d[j].0
  }

  /** `k in d`. */
  predicate HasKey<K(==), V>(d: Dict<K, V>, k: K) {
    exists i | 0 <= i < |d| :: d[i].0 == k
  }

  /** The keys in iteration order. */
  function Keys<K, V>(d: Dict<K, V>): (ks: seq<K>)
    ensures |ks| == |d|
    ensures forall i | 0 <= i < |d| :: ks[i] == d[i].0
  {
    seq(|d|, i requires 0 <= i < |d| => d[i].0)
  }

  /** `d.get(k)`: the value stored under `k`, or None. */
  function Get<K(==), V>(d: Dict<K, V>, k: K): (r: Option<V>)
    ensures r.Some? <==> HasKey(d, k)
    ensures DistinctKeys(d) ==>
              forall i | 0 <= i < |d| && d[i].0 == k :: r == Some(d[i].1)
  {
    if d == [] then None
    else if d[0].0 == k then Some(d[0].1)
    else
      var r := Get(d[1..], k);
      assert forall i | 1 <= i < |d| :: d[1..][i - 1] == d[i];
      r
  }

  /** `d[k] = v`: an existing key keeps its place and takes the new value; a new key goes last. */
  function Put<K(==), V>(d: Dict<K, V>, k: K, v: V): (r: Dict<K, V>)
    ensures Keys(r) == if HasKey(d, k) then Keys(d) else Keys(d) + [k]
    ensures DistinctKeys(d) ==> DistinctKeys(r)
  {
    if HasKey(d, k) then
      var r := seq(|d|, i requires 0 <= i < |d| => if d[i].0 == k then (k, v) else d[i]);
      assert Keys(r) == Keys(d);
      r
    else
      var r := d + [(k, v)];
      assert Keys(r) == Keys(d) + [k];
      r
  }

  /** Reading back after `d[k] = v`: `k` holds `v`, every other key what it held before. */
  lemma GetPut<K, V>(d: Dict<K, V>, k: K, v: V, k': K)
    requires DistinctKeys(d)
    ensures Get(Put(d, k, v), k') == if k' == k then Some(v) else Get(d, k')
  {
    var r := Put(d, k, v);
    assert Keys(r)[..|d|] == Keys(d);
    assert HasKey(r, k') <==> HasKey(d, k') || k' == k by {
      if HasKey(r, k') {
        var i :| 0 <= i < |r| && r[i].0 == k';
        assert Keys(r)[i] == k';
      }
      if HasKey(d, k') {
        var i :| 0 <= i < |d| && d[i].0 == k';
        assert Keys(r)[i] == k';
      }
      if k' == k && !HasKey(d, k) {
        assert r[|d|].0 == k;
      }
    }
    if HasKey(r, k') {
      var i :| 0 <= i < |r| && r[i].0 == k';
      if i < |d| {
        assert d[i].0 == k';
      }
    }
  }

  /** The dict comprehension `{k: v for (k, v) in ps}`: later pairs overwrite earlier ones. */
  function FromPairs<K(==), V>(ps: seq<(K, V)>): (d: Dict<K, V>)
    ensures DistinctKeys(d)
  {
    if ps == [] then []
    else Put(FromPairs(ps[..|ps| - 1]), ps[|ps| - 1].0, ps[|ps| - 1].1)
  }

  /** `d.update(e)`: the entries of `e` are assigned into `d` in order. */
  function Update<K(==), V>(d: Dict<K, V>, e: Dict<K, V>): (r: Dict<K, V>)
    ensures DistinctKeys(d) ==> DistinctKeys(r)
  {
    if e == [] then d
    else Put(Update(d, e[..|e| - 1]), e[|e| - 1].0, e[|e| - 1].1)
  }

  /** Each entry with key and value exchanged, order kept. */
  function Swapped<K, V>(d: Dict<K, V>): (s: seq<(V, K)>)
    ensures |s| == |d|
    ensures forall i | 0 <= i < |d| :: s[i] == (d[i].1, d[i].0)
  {
    seq(|d|, i requires 0 <= i < |d| => (d[i].1, d[i].0))
  }

  /** `{v: k for k, v in d.items()}`. */
  function Inverse<K, V(==)>(d: Dict<K, V>): Dict<V, K> {
    FromPairs(Swapped(d))
  }

  /** Index `i` holds the last pair of `ps` with its key. */
  predicate LastWithKey<K(==), V>(ps: seq<(K, V)>, i: int) {
    0 <= i < |ps| && forall j | i < j < |ps| :: ps[j].0 != ps[i].0
  }

  /** A comprehension keeps exactly the keys it sees. */
  lemma {:induction false} FromPairsHasKey<K, V>(ps: seq<(K, V)>, k: K)
    ensures HasKey(FromPairs(ps), k) <==> exists i | 0 <= i < |ps| :: ps[i].0 == k
    decreases |ps|
  {
    if ps != [] {
      var n := |ps| - 1;
      var init := ps[..n];
      assert FromPairs(ps) == Put(FromPairs(init), ps[n].0, ps[n].1);
      FromPairsHasKey(init, k);
      GetPut(FromPairs(init), ps[n].0, ps[n].1, k);
      if exists i | 0 <= i < |ps| :: ps[i].0 == k {
        var i :| 0 <= i < |ps| && ps[i].0 == k;
        if i < n {
          assert init[i].0 == k;
        }
      }
      if exists i | 0 <= i < n :: init[i].0 == k {
        var i :| 0 <= i < n && init[i].0 == k;
        assert ps[i].0 == k;
      }
    }
  }

  /** A comprehension keeps, for each key, the value of the last pair with that key. */
  lemma {:induction false} FromPairsGet<K, V>(ps: seq<(K, V)>, i: int)
    requires LastWithKey(ps, i)
    ensures Get(FromPairs(ps), ps[i].0) == Some(ps[i].1)
    decreases |ps|
  {
    var n := |ps| - 1;
    var init := ps[..n];
    var d := FromPairs(init);
    assert FromPairs(ps) == Put(d, ps[n].0, ps[n].1);
    GetPut(d, ps[n].0, ps[n].1, ps[i].0);
    if i < n {
      assert ps[n].0 != ps[i].0;
      assert init[i] == ps[i];
      assert LastWithKey(init, i) by {
        forall j | i < j < n ensures init[j].0 != init[i].0 {
          assert init[j] == ps[j];
        }
      }
      FromPairsGet(init, i);
      assert Get(d, ps[i].0) == Some(ps[i].1);
    }
  }

  /** A comprehension over pairs whose keys are already distinct is those pairs. */
  lemma {:induction false} FromDistinctPairs<K, V>(ps: seq<(K, V)>)
    requires DistinctKeys(ps)
    ensures FromPairs(ps) == ps
    decreases |ps|
  {
    if ps != [] {
      var n := |ps| - 1;
      var init := ps[..n];
      assert DistinctKeys(init) by {
        forall i, j | 0 <= i < j < n ensures init[i].0 != init[j].0 {
          assert init[i] == ps[i] && init[j] == ps[j];
        }
      }
      FromDistinctPairs(init);
      assert !HasKey(init, ps[n].0) by {
        forall i | 0 <= i < n ensures init[i].0 != ps[n].0 {
          assert init[i] == ps[i];
        }
      }
      assert init + [ps[n]] == ps;
    }
  }

  /** After `d.update(e)` a key of `e` holds `e`'s value; every other key keeps `d`'s. */
  lemma {:induction false} UpdateGet<K, V>(d: Dict<K, V>, e: Dict<K, V>, k: K)
    requires DistinctKeys(d) && DistinctKeys(e)
    ensures Get(Update(d, e), k) == if HasKey(e, k) then Get(e, k) else Get(d, k)
    decreases |e|
  {
    if e != [] {
      var n := |e| - 1;
      var init := e[..n];
      assert DistinctKeys(init);
      UpdateGet(d, init, k);
      GetPut(Update(d, init), e[n].0, e[n].1, k);
      if e[n].0 != k {
        if HasKey(init, k) {
          var i :| 0 <= i < n && init[i].0 == k;
          assert e[i] == init[i];
        }
        if HasKey(e, k) {
          var i :| 0 <= i < |e| && e[i].0 == k;
          assert init[i] == e[i];
        }
      } else {
        assert e[n].0 == k;
      }
    }
  }
}
