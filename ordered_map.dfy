/**
 * A JavaScript `Map` as the list of its entries in iteration order. Iteration order is
 * insertion order: `set` on a key already present keeps its place, `set` on a new key
 * appends it, and `delete` removes it, so a delete followed by a set moves a key last.
 */
module OrderedMap {
  import opened Wrappers

  function Keys<K, V>(m: seq<(K, V)>): (ks: seq<K>)
    ensures |ks| == |m|
    ensures forall i :: 0 <= i < |m| ==> ks[i] == m[i].0
  {
    if m == [] then [] else [m[0].0] + Keys(m[1..])
  }

  predicate Distinct<K(==)>(ks: seq<K>) {
    forall i, j :: 0 <= i < j < |ks| ==> ks[i] != ks[j]
  }

  /** A map holds each key at most once. */
  predicate Valid<K(==), V>(m: seq<(K, V)>) {
    Distinct(Keys(m))
  }

  /** `m.has(k)`. */
  predicate Has<K(==), V>(m: seq<(K, V)>, k: K) {
    k in Keys(m)
  }

  /** `m.get(k)`: the value stored for `k`, or `None` when `k` is absent. */
  function Get<K(==), V>(m: seq<(K, V)>, k: K): (r: Option<V>)
    ensures r.None? <==> !Has(m, k)
    ensures r.Some? ==> (k, r.value) in m
  {
    if m == [] then None
    else if m[0].0 == k then Some(m[0].1)
    else
      assert Keys(m) == [m[0].0] + Keys(m[1..]);
      Get(m[1..], k)
  }

  /** `m.set(k, v)`: an existing key keeps its position, a new key is appended. */
  function Set<K(==, !new), V>(m: seq<(K, V)>, k: K, v: V): (r: seq<(K, V)>)
    ensures Keys(r) == if Has(m, k) then Keys(m) else Keys(m) + [k]
    ensures Get(r, k) == Some(v)
    ensures forall k' :: k' != k ==> Get(r, k') == Get(m, k')
  {
    if m == [] then [(k, v)]
    else if m[0].0 == k then
      SetAtHead(m, v);
      [(k, v)] + m[1..]
    else
      var tail := Set(m[1..], k, v);
      SetBehindHead(m, k, v, tail);
      [m[0]] + tail
  }

  /** Setting the first key replaces its value in place. */
  lemma SetAtHead<K, V>(m: seq<(K, V)>, v: V)
    requires m != []
    ensures var k, r := m[0].0, [(m[0].0, v)] + m[1..];
      && Keys(r) == Keys(m) && Get(r, k) == Some(v)
      && forall k' :: k' != k ==> Get(r, k') == Get(m, k')
  {
    var r := [(m[0].0, v)] + m[1..];
    KeysCons(m[0], m[1..]);
    KeysCons((m[0].0, v), m[1..]);
    assert [m[0]] + m[1..] == m;
    assert r[1..] == m[1..];
  }

  /** Setting a key other than the first one is setting it in the rest. */
  lemma SetBehindHead<K, V>(m: seq<(K, V)>, k: K, v: V, tail: seq<(K, V)>)
    requires m != [] && m[0].0 != k
    requires Keys(tail) == if Has(m[1..], k) then Keys(m[1..]) else Keys(m[1..]) + [k]
    requires Get(tail, k) == Some(v)
    requires forall k' :: k' != k ==> Get(tail, k') == Get(m[1..], k')
    ensures var r := [m[0]] + tail;
      && Keys(r) == (if Has(m, k) then Keys(m) else Keys(m) + [k])
      && Get(r, k) == Some(v)
      && forall k' :: k' != k ==> Get(r, k') == Get(m, k')
  {
    KeysBehindHead(m, k, tail);
    var r := [m[0]] + tail;
    assert r[1..] == tail;
  }

  lemma KeysBehindHead<K, V>(m: seq<(K, V)>, k: K, tail: seq<(K, V)>)
    requires m != [] && m[0].0 != k
    requires Keys(tail) == if Has(m[1..], k) then Keys(m[1..]) else Keys(m[1..]) + [k]
    ensures Keys([m[0]] + tail) == (if Has(m, k) then Keys(m) else Keys(m) + [k])
  {
    KeysCons(m[0], m[1..]);
    KeysCons(m[0], tail);
    assert [m[0]] + m[1..] == m;
    assert Has(m, k) <==> Has(m[1..], k);
  }

  lemma KeysCons<K, V>(e: (K, V), m: seq<(K, V)>)
    ensures Keys([e] + m) == [e.0] + Keys(m)
  {
    assert ([e] + m)[1..] == m;
  }

  /** `m.delete(k)`: every other key keeps its value and its relative order. */
  function Delete<K(==, !new), V>(m: seq<(K, V)>, k: K): (r: seq<(K, V)>)
    ensures !Has(r, k)
    ensures forall k' :: k' != k ==> Get(r, k') == Get(m, k')
    ensures forall e :: e in r ==> e in m
    ensures !Has(m, k) ==> r == m
  {
    if m == [] then []
    else
      var rest := Delete(m[1..], k);
      assert Keys(m) == [m[0].0] + Keys(m[1..]);
      if m[0].0 == k then rest
      else
        var r := [m[0]] + rest;
        assert Keys(r) == [m[0].0] + Keys(rest);
        assert r[1..] == rest;
        r
  }

  /** `set` keeps every key unique. */
  lemma SetKeepsValid<K(!new), V>(m: seq<(K, V)>, k: K, v: V)
    requires Valid(m)
    ensures Valid(Set(m, k, v))
  {
    var ks := Keys(Set(m, k, v));
    if !Has(m, k) {
      assert ks == Keys(m) + [k];
      forall i, j | 0 <= i < j < |ks| ensures ks[i] != ks[j] {
        if j == |m| {
          assert ks[i] == Keys(m)[i];
        }
      }
    }
  }

  /** `delete` keeps every key unique. */
  lemma {:induction false} DeleteKeepsValid<K(!new), V>(m: seq<(K, V)>, k: K)
    requires Valid(m)
    ensures Valid(Delete(m, k))
  {
    if m != [] {
      assert Keys(m[1..]) == Keys(m)[1..];
      DeleteKeepsValid(m[1..], k);
      var rest := Delete(m[1..], k);
      if m[0].0 != k {
        forall j | 0 <= j < |rest| ensures rest[j].0 != m[0].0 {
          assert rest[j] in m[1..];
          var j' :| 0 <= j' < |m[1..]| && m[1..][j'] == rest[j];
          assert Keys(m)[0] != Keys(m)[j' + 1];
        }
        assert Delete(m, k) == [m[0]] + rest;
      }
    }
  }

  /** In a valid map the value `get` finds for a key is the one stored beside it. */
  lemma {:induction false} GetEntry<K, V>(m: seq<(K, V)>, i: nat)
    requires Valid(m) && i < |m|
    ensures Get(m, m[i].0) == Some(m[i].1)
  {
    if i > 0 {
      assert Keys(m)[0] != Keys(m)[i];
      assert Keys(m[1..]) == Keys(m)[1..];
      GetEntry(m[1..], i - 1);
    }
  }

  /** The rest of a valid map is valid and does not hold the first key. */
  lemma ValidTail<K, V>(m: seq<(K, V)>)
    requires Valid(m) && m != []
    ensures Valid(m[1..]) && !Has(m[1..], m[0].0)
  {
    KeysCons(m[0], m[1..]);
    assert [m[0]] + m[1..] == m;
    forall a, b | 0 <= a < b < |m[1..]| ensures Keys(m[1..])[a] != Keys(m[1..])[b] {
      assert Keys(m)[a + 1] != Keys(m)[b + 1];
    }
    forall j | 0 <= j < |m[1..]| ensures Keys(m[1..])[j] != m[0].0 {
      assert Keys(m)[0] != Keys(m)[j + 1];
    }
  }

  lemma DeleteCons<K(!new), V>(m: seq<(K, V)>, k: K)
    requires m != []
    ensures Delete(m, k) == if m[0].0 == k then Delete(m[1..], k) else [m[0]] + Delete(m[1..], k)
  {
  }

  lemma DeleteBehindHead<K(!new), V>(m: seq<(K, V)>, i: nat, k: K)
    requires 0 < i < |m| && m[0].0 != k
    requires Delete(m[1..], k) == m[1..][..i - 1] + m[1..][i..]
    ensures Delete(m, k) == m[..i] + m[i + 1..]
  {
    DeleteCons(m, k);
    ConsSlices(m, i);
  }

  lemma ConsSlices<T>(m: seq<T>, i: nat)
    requires 0 < i < |m|
    ensures [m[0]] + (m[1..][..i - 1] + m[1..][i..]) == m[..i] + m[i + 1..]
  {
    assert m[1..][..i - 1] == m[1..i] && m[1..][i..] == m[i + 1..];
    assert [m[0]] + m[1..i] == m[..i];
  }

  /** Deleting the key of entry `i` removes exactly that entry and keeps the others in order. */
  lemma {:induction false} DeleteRemovesEntry<K(!new), V>(m: seq<(K, V)>, i: nat)
    requires Valid(m) && i < |m|
    ensures Delete(m, m[i].0) == m[..i] + m[i + 1..]
  {
    ValidTail(m);
    if i == 0 {
      DeleteCons(m, m[i].0);
      assert m[..0] + m[1..] == m[1..];
    } else {
      assert Keys(m)[0] != Keys(m)[i];
      assert m[1..][i - 1] == m[i];
      DeleteRemovesEntry(m[1..], i - 1);
      DeleteBehindHead(m, i, m[i].0);
    }
  }

  /** `set` on a key the map does not hold appends one entry at the end. */
  lemma {:induction false} SetAppends<K(!new), V>(m: seq<(K, V)>, k: K, v: V)
    requires !Has(m, k)
    ensures Set(m, k, v) == m + [(k, v)]
  {
    if m != [] {
      KeysCons(m[0], m[1..]);
      assert [m[0]] + m[1..] == m;
      SetAppends(m[1..], k, v);
      assert [m[0]] + (m[1..] + [(k, v)]) == m + [(k, v)];
    }
  }

  /**
   * Deleting the key of entry `i` and setting it again moves it to the end of the iteration
   * order with its new value; every other entry keeps its place.
   */
  lemma DeleteThenSetMovesLast<K(!new), V>(m: seq<(K, V)>, i: nat, v: V)
    requires Valid(m) && i < |m|
    ensures Set(Delete(m, m[i].0), m[i].0, v) == m[..i] + m[i + 1..] + [(m[i].0, v)]
  {
    DeleteRemovesEntry(m, i);
    SetAppends(Delete(m, m[i].0), m[i].0, v);
  }
}
