/**
 * A plain JavaScript object used as a dictionary with string keys: its entries
 * in insertion order. `Object.entries` yields that order for keys that are not
 * integer-like (grade keys such as `1-practica-2`, and course ids
 * minted as `c<timestamp>`); integer-like keys, which it lists first in
 * ascending numeric order, are not distinguished here. Assigning an existing
 * key keeps its position; assigning a new key appends it.
 */
module OrderedObject {
  import opened Common

  type Entries<K, V> = seq<(K, V)>

  /** No key occurs twice, as in any JavaScript object. */
  predicate DistinctKeys<K(==), V>(o: Entries<K, V>) {
    forall i, j :: 0 <= i < j < |o| ==> o[i].0 != o[j].0
  }

  /** The keys, in order. */
  function Keys<K, V>(o: Entries<K, V>): (ks: seq<K>)
    ensures |ks| == |o| && forall i :: 0 <= i < |o| ==> ks[i] == o[i].0
  {
    if o == [] then [] else [o[0].0] + Keys(o[1..])
  }

  /** `o[k]`: the value stored under `k`, or None when `k` is not a key. */
  function Get<K(==), V>(o: Entries<K, V>, k: K): (r: Option<V>)
    ensures r.None? <==> forall i :: 0 <= i < |o| ==> o[i].0 != k
    ensures r.Some? ==> exists i :: 0 <= i < |o| && o[i] == (k, r.value)
  {
    if o == [] then None
    else if o[0].0 == k then Some(o[0].1)
    else
      var r := Get(o[1..], k);
      assert r.Some? ==> exists i :: 1 <= i < |o| && o[i] == (k, r.value) by {
        if r.Some? {
          var i :| 0 <= i < |o[1..]| && o[1..][i] == (k, r.value);
          assert o[i + 1] == (k, r.value);
        }
      }
      r
  }

  /** With distinct keys, an entry's value is what `Get` returns for its key. */
  lemma {:induction false} GetAt<K, V>(o: Entries<K, V>, i: nat)
    requires DistinctKeys(o) && i < |o|
    ensures Get(o, o[i].0) == Some(o[i].1)
  {
    if i > 0 {
      assert o[0].0 != o[i].0;
      assert DistinctKeys(o[1..]) by {
        forall a, b | 0 <= a < b < |o[1..]| ensures o[1..][a].0 != o[1..][b].0 {
          assert o[1..][a] == o[a + 1] && o[1..][b] == o[b + 1];
        }
      }
      GetAt(o[1..], i - 1);
    }
  }

  /** `Object.assign({}, o, { [k]: v })`: overwrite `k` in place, or append it. */
  function Put<K(==), V>(o: Entries<K, V>, k: K, v: V): (r: Entries<K, V>)
    ensures Get(o, k).Some? ==> |r| == |o| && Keys(r) == Keys(o)
    ensures Get(o, k).None? ==> r == o + [(k, v)]
  {
    if o == [] then [(k, v)]
    else if o[0].0 == k then [(k, v)] + o[1..]
    else
      var rest := Put(o[1..], k, v);
      assert ([o[0]] + rest)[1..] == rest;
      assert Get(o, k) == Get(o[1..], k);
      assert o == [o[0]] + o[1..];
      [o[0]] + rest
  }

  /** After `Put`, the key holds the new value. */
  lemma {:induction false} PutGetSame<K, V>(o: Entries<K, V>, k: K, v: V)
    ensures Get(Put(o, k, v), k) == Some(v)
  {
    if o != [] && o[0].0 != k {
      PutGetSame(o[1..], k, v);
      assert Put(o, k, v)[1..] == Put(o[1..], k, v);
    }
  }

  /** After `Put`, every other key holds what it held before. */
  lemma {:induction false} PutGetOther<K, V>(o: Entries<K, V>, k: K, v: V, k': K)
    requires k' != k
    ensures Get(Put(o, k, v), k') == Get(o, k')
  {
    if o != [] {
      if o[0].0 == k {
        assert Put(o, k, v)[1..] == o[1..];
      } else if o[0].0 != k' {
        PutGetOther(o[1..], k, v, k');
        assert Put(o, k, v)[1..] == Put(o[1..], k, v);
      }
    } else {
      assert Put(o, k, v) == [(k, v)];
    }
  }

  /** Every entry after `Put` is the new one or an entry that was already there. */
  lemma {:induction false} PutEntries<K, V>(o: Entries<K, V>, k: K, v: V, i: nat)
    requires i < |Put(o, k, v)|
    ensures Put(o, k, v)[i] == (k, v) || Put(o, k, v)[i] in o
  {
    if o != [] && i > 0 {
      if o[0].0 == k {
        assert Put(o, k, v)[i] == o[i];
      } else {
        PutEntries(o[1..], k, v, i - 1);
        assert Put(o, k, v)[i] == Put(o[1..], k, v)[i - 1];
      }
    }
  }

  /** `Put` keeps the keys distinct. */
  lemma {:induction false} PutDistinct<K, V>(o: Entries<K, V>, k: K, v: V)
    requires DistinctKeys(o)
    ensures DistinctKeys(Put(o, k, v))
  {
    var r := Put(o, k, v);
    if Get(o, k).Some? {
      forall i, j | 0 <= i < j < |r| ensures r[i].0 != r[j].0 {
        assert Keys(r)[i] == Keys(o)[i] && Keys(r)[j] == Keys(o)[j];
      }
    }
  }
}
