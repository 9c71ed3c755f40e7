/**
 * A JavaScript `Map`: its entries in insertion order. `set` on a present key
 * overwrites the value in place, `set` on a new key appends, `delete` removes
 * the entry, and iteration visits the entries in this order.
 */
module JsMap {
  import opened Wrappers

  type Entries<K, V> = seq<(K, V)>

  function Keys<K, V>(m: Entries<K, V>): (ks: seq<K>)
    ensures |ks| == |m| && forall i | 0 <= i < |m| :: ks[i] == m[i].0
  {
    seq(|m|, i requires 0 <= i < |m| => m[i].0)
  }

  /** No key occurs twice (every Map built with `Set` and `Delete` is like this). */
  predicate DistinctKeys<K(==), V>(m: Entries<K, V>) {
    forall i, j | 0 <= i < j < |m| :: m[i].0 != m[j].0
  }

  predicate HasKey<K(==), V>(m: Entries<K, V>, k: K) {
    exists i | 0 <= i < |m| :: m[i].0 == k
  }

  /** `map.get(k)`. */
  function Get<K(==), V>(m: Entries<K, V>, k: K): (r: Option<V>)
    ensures r.Some? <==> HasKey(m, k)
    ensures r.Some? ==> exists i | 0 <= i < |m| :: m[i] == (k, r.value)
    decreases |m|
  {
    if m == [] then None
    else if m[0].0 == k then Some(m[0].1)
    else
      var r := Get(m[1..], k);
      assert forall i | 0 <= i < |m| - 1 :: m[1..][i] == m[i + 1];
      r
  }

  /** `map.set(k, v)`. */
  function Set<K(==), V>(m: Entries<K, V>, k: K, v: V): (r: Entries<K, V>)
    decreases |m|
  {
    if m == [] then [(k, v)]
    else if m[0].0 == k then [(k, v)] + m[1..]
    else [m[0]] + Set(m[1..], k, v)
  }

  /** `map.delete(k)`. */
  function Delete<K(==), V>(m: Entries<K, V>, k: K): (r: Entries<K, V>)
    decreases |m|
  {
    if m == [] then []
    else if m[0].0 == k then Delete(m[1..], k)
    else [m[0]] + Delete(m[1..], k)
  }

  /** The entry at the front of a map is found by its key. */
  lemma GetEntry<K, V>(m: Entries<K, V>, i: nat)
    requires DistinctKeys(m) && i < |m|
    ensures Get(m, m[i].0) == Some(m[i].1)
  {
    if i > 0 {
      GetEntry(m[1..], i - 1);
    }
  }

  /** The position of `k` in a map that has it. */
  function IndexOf<K(==), V>(m: Entries<K, V>, k: K): (i: nat)
    requires HasKey(m, k)
    ensures i < |m| && m[i].0 == k
    ensures forall j | 0 <= j < i :: m[j].0 != k
    decreases |m|
  {
    if m[0].0 == k then 0
    else
      assert HasKey(m[1..], k) by {
        var i :| 0 <= i < |m| && m[i].0 == k;
        assert m[1..][i - 1].0 == k;
      }
      1 + IndexOf(m[1..], k)
  }

  /** `set` on a new key appends the entry. */
  lemma {:induction false} SetAbsent<K, V>(m: Entries<K, V>, k: K, v: V)
    requires !HasKey(m, k)
    ensures Set(m, k, v) == m + [(k, v)]
  {
    if m != [] {
      assert !HasKey(m[1..], k);
      SetAbsent(m[1..], k, v);
      assert m == [m[0]] + m[1..];
    }
  }

  /** `set` on a present key overwrites its entry in place. */
  lemma {:induction false} SetPresent<K, V>(m: Entries<K, V>, k: K, v: V)
    requires HasKey(m, k)
    ensures var i := IndexOf(m, k); Set(m, k, v) == m[..i] + [(k, v)] + m[i + 1..]
  {
    if m[0].0 != k {
      assert HasKey(m[1..], k) by {
        var i :| 0 <= i < |m| && m[i].0 == k;
        assert m[1..][i - 1].0 == k;
      }
      SetPresent(m[1..], k, v);
      var i := IndexOf(m, k);
      assert m[..i] == [m[0]] + m[1..][..i - 1];
      assert m[i + 1..] == m[1..][i..];
    }
  }

  /** After `set`, `k` gives `v` and every other key what it gave before. */
  lemma {:induction false} SetGet<K, V>(m: Entries<K, V>, k: K, v: V, k': K)
    ensures Get(Set(m, k, v), k') == if k' == k then Some(v) else Get(m, k')
    decreases |m|
  {
    if m != [] && m[0].0 != k {
      var r := Set(m, k, v);
      assert r[0] == m[0] && r[1..] == Set(m[1..], k, v);
      if m[0].0 != k' {
        SetGet(m[1..], k, v, k');
      }
    }
  }

  /** `set` keeps the keys distinct. */
  lemma SetDistinct<K, V>(m: Entries<K, V>, k: K, v: V)
    requires DistinctKeys(m)
    ensures DistinctKeys(Set(m, k, v))
  {
    var r := Set(m, k, v);
    if HasKey(m, k) {
      SetPresent(m, k, v);
      var i := IndexOf(m, k);
      assert |r| == |m| && r[i] == (k, v) && forall j | 0 <= j < |m| && j != i :: r[j] == m[j];
    } else {
      SetAbsent(m, k, v);
    }
  }

  /** `set` binds `k` to `v` and leaves every other key alone; keys stay distinct. */
  lemma SetSpec<K, V>(m: Entries<K, V>, k: K, v: V)
    requires DistinctKeys(m)
    ensures DistinctKeys(Set(m, k, v))
    ensures forall k' :: Get(Set(m, k, v), k') == if k' == k then Some(v) else Get(m, k')
  {
    SetDistinct(m, k, v);
    forall k' ensures Get(Set(m, k, v), k') == if k' == k then Some(v) else Get(m, k') {
      SetGet(m, k, v, k');
    }
  }

  /** `delete` keeps exactly the entries whose key differs from `k`. */
  lemma {:induction false} DeleteMembers<K, V>(m: Entries<K, V>, k: K)
    ensures forall e | e in Delete(m, k) :: e in m && e.0 != k
    ensures forall e | e in m && e.0 != k :: e in Delete(m, k)
  {
    if m != [] {
      DeleteMembers(m[1..], k);
      assert forall e :: e in m <==> e == m[0] || e in m[1..];
    }
  }

  /** `delete` unbinds `k`, leaves every other key alone, keeps the order of the rest. */
  lemma {:induction false} DeleteSpec<K, V>(m: Entries<K, V>, k: K)
    ensures forall k' :: Get(Delete(m, k), k') == if k' == k then None else Get(m, k')
    ensures DistinctKeys(m) ==> DistinctKeys(Delete(m, k))
    ensures forall e :: e in Delete(m, k) <==> e in m && e.0 != k
    ensures |Delete(m, k)| <= |m|
  {
    DeleteMembers(m, k);
    if m != [] {
      DeleteSpec(m[1..], k);
      var r := Delete(m, k);
      if m[0].0 != k && DistinctKeys(m) {
        forall j | 0 < j < |r| ensures r[j].0 != m[0].0 {
          var tail := m[1..];
          var d := Delete(tail, k);
          assert r == [m[0]] + d;
          var e := d[j - 1];
          DeleteMembers(tail, k);
          assert e in d;
          assert e in tail;
          var i :| 0 <= i < |tail| && tail[i] == e;
          assert m[i + 1] == e;
        }
      }
    }
  }

  /** Lookup in a concatenation finds the first part's entry first. */
  lemma {:induction false} GetConcat<K, V>(x: Entries<K, V>, y: Entries<K, V>, k: K)
    ensures Get(x + y, k) == if HasKey(x, k) then Get(x, k) else Get(y, k)
    decreases |x|
  {
    if x != [] {
      assert (x + y)[1..] == x[1..] + y;
      GetConcat(x[1..], y, k);
      if x[0].0 != k && HasKey(x, k) {
        var i :| 0 <= i < |x| && x[i].0 == k;
        assert x[1..][i - 1].0 == k;
      }
    } else {
      assert x + y == y;
    }
  }

  /** `delete` of a concatenation deletes from both parts. */
  lemma {:induction false} DeleteConcat<K, V>(x: Entries<K, V>, y: Entries<K, V>, k: K)
    ensures Delete(x + y, k) == Delete(x, k) + Delete(y, k)
    decreases |x|
  {
    if x != [] {
      assert (x + y)[1..] == x[1..] + y;
      DeleteConcat(x[1..], y, k);
    } else {
      assert x + y == y;
    }
  }

  /** `delete` of an absent key changes nothing. */
  lemma {:induction false} DeleteAbsent<K, V>(m: Entries<K, V>, k: K)
    requires !HasKey(m, k)
    ensures Delete(m, k) == m
    decreases |m|
  {
    if m != [] {
      DeleteAbsent(m[1..], k);
      assert m == [m[0]] + m[1..];
    }
  }

  /**
   * Moving the value of `from` in the first part of a map to a key neither
   * part has: the first part loses the entry and the new one goes last.
   */
  lemma MoveToEnd<K, V>(x: Entries<K, V>, y: Entries<K, V>, from: K, to: K, v: V)
    requires Get(x, from) == Some(v) && !HasKey(x, to) && !HasKey(y, from) && !HasKey(y, to)
    ensures Get(x + y, from) == Some(v)
    ensures Delete(Set(x + y, to, v), from) == Delete(x, from) + y + [(to, v)]
  {
    GetConcat(x, y, from);
    GetConcat(x, y, to);
    SetAbsent(x + y, to, v);
    DeleteConcat(x + y, [(to, v)], from);
    DeleteConcat(x, y, from);
    DeleteAbsent(y, from);
    assert Delete([(to, v)], from) == [(to, v)];
  }
}
