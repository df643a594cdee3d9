/** A Python `dict` as its insertion-ordered list of entries. Assigning to an
    existing key replaces the value where the key already stands; assigning to
    a new key appends it; iteration follows that order. */
module PyDict {
  import opened Wrappers

  type Dict<K, V> = seq<(K, V)>

  /** The keys, in iteration order. */
  function Keys<K, V>(d: Dict<K, V>): (ks: seq<K>)
    ensures |ks| == |d|
    ensures forall j :: 0 <= j < |d| ==> ks[j] == d[j].0
  {
    if d == [] then [] else [d[0].0] + Keys(d[1..])
  }

  /** No key stands twice: what every Python dict satisfies. */
  ghost predicate DistinctKeys<K, V>(d: Dict<K, V>)
  {
    forall i, j :: 0 <= i < j < |d| ==> d[i].0 != d[j].0
  }

  /** `d.get(k)`: the value stored under k, if any. */
  function Get<K(==), V>(d: Dict<K, V>, k: K): (r: Option<V>)
    ensures r.None? <==> forall j :: 0 <= j < |d| ==> d[j].0 != k
    ensures r.Some? ==> exists j :: 0 <= j < |d| && d[j] == (k, r.value)
  {
    if d == [] then None
    else if d[0].0 == k then Some(d[0].1)
    else
      var r := Get(d[1..], k);
      assert r.Some? ==> d[1..][0].0 == d[1].0;
      r
  }

  /** `d[k] = v`. */
  function Put<K(==), V>(d: Dict<K, V>, k: K, v: V): (r: Dict<K, V>)
    ensures |r| == |d| || |r| == |d| + 1
  {
    if d == [] then [(k, v)]
    else if d[0].0 == k then [(k, v)] + d[1..]
    else [d[0]] + Put(d[1..], k, v)
  }

  /** The first key, in iteration order, whose value is v: what a
      `for key, value in d.items(): if value is v: ... break` scan finds. */
  function FirstKeyOf<K, V(==)>(d: Dict<K, V>, v: V): (r: Option<K>)
    ensures r.None? <==> forall j :: 0 <= j < |d| ==> d[j].1 != v
    ensures r.Some? ==> exists j :: 0 <= j < |d| && d[j] == (r.value, v) &&
                                    forall i :: 0 <= i < j ==> d[i].1 != v
  {
    if d == [] then None
    else if d[0].1 == v then Some(d[0].0)
    else
      var r := FirstKeyOf(d[1..], v);
      if r.Some? then
        ghost var j :| 0 <= j < |d| - 1 && d[1..][j] == (r.value, v) &&
                     forall i :: 0 <= i < j ==> d[1..][i].1 != v;
        assert d[j + 1] == (r.value, v);
        assert forall i :: 0 <= i < j + 1 ==> d[i].1 != v by {
          forall i | 0 <= i < j + 1 ensures d[i].1 != v {
            if i > 0 { assert d[i] == d[1..][i - 1]; }
          }
        }
        r
      else r
  }

  /** Assigning to a key stores the new value under it. */
  lemma {:induction false} GetPutSame<K, V>(d: Dict<K, V>, k: K, v: V)
    ensures Get(Put(d, k, v), k) == Some(v)
  {
    if d != [] && d[0].0 != k {
      GetPutSame(d[1..], k, v);
      assert Put(d, k, v)[1..] == Put(d[1..], k, v);
    }
  }

  /** Assigning to a key leaves every other key's value as it was. */
  lemma {:induction false} GetPutOther<K, V>(d: Dict<K, V>, k: K, v: V, k': K)
    requires k' != k
    ensures Get(Put(d, k, v), k') == Get(d, k')
  {
    if d == [] {
    } else if d[0].0 == k {
      assert Put(d, k, v)[1..] == d[1..];
    } else {
      GetPutOther(d[1..], k, v, k');
      assert Put(d, k, v)[1..] == Put(d[1..], k, v);
    }
  }

  /** A key already present keeps its place in the order; a new key goes last. */
  lemma {:induction false} KeysPut<K, V>(d: Dict<K, V>, k: K, v: V)
    ensures Keys(Put(d, k, v)) == if k in Keys(d) then Keys(d) else Keys(d) + [k]
  {
    if d == [] {
    } else if d[0].0 == k {
      assert Keys(Put(d, k, v)) == Keys(d);
    } else {
      KeysPut(d[1..], k, v);
      assert Keys(d) == [d[0].0] + Keys(d[1..]);
      assert Put(d, k, v) == [d[0]] + Put(d[1..], k, v);
      assert k in Keys(d) <==> k in Keys(d[1..]);
    }
  }

  /** Assignment keeps the keys distinct. */
  lemma PutDistinct<K, V>(d: Dict<K, V>, k: K, v: V)
    requires DistinctKeys(d)
    ensures DistinctKeys(Put(d, k, v))
  {
    KeysPut(d, k, v);
    var r := Put(d, k, v);
    var ks := Keys(r);
    assert forall i, j :: 0 <= i < j < |r| ==> ks[i] != ks[j] by {
      if k in Keys(d) {
        assert ks == Keys(d);
      } else {
        assert ks == Keys(d) + [k];
      }
    }
  }

  /** Assignment keeps every value in a range the new value is in. */
  lemma {:induction false} PutValuesWithin<K>(d: Dict<K, int>, k: K, v: int, bound: int)
    requires forall j :: 0 <= j < |d| ==> 0 <= d[j].1 < bound
    requires 0 <= v < bound
    ensures forall j :: 0 <= j < |Put(d, k, v)| ==> 0 <= Put(d, k, v)[j].1 < bound
  {
    if d != [] && d[0].0 != k {
      PutValuesWithin(d[1..], k, v, bound);
    }
  }
}
