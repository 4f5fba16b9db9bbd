/**
 * A Python dict as an association list: lookups by key, and iteration in insertion order.
 * Assigning to a key that is present replaces its value where it stands; a new key goes
 * at the end.
 */
module OrderedDict {
  import opened Options

  type Dict<K, V> = seq<(K, V)>

  /** The keys in iteration order. */
  function Keys<K, V>(d: Dict<K, V>): (ks: seq<K>)
    ensures |ks| == |d|
    ensures forall i :: 0 <= i < |d| ==> ks[i] == d[i].0
    decreases |d|
  {
    if d == [] then [] else [d[0].0] + Keys(d[1..])
  }

  /** No key appears twice, as in every Python dict. */
  predicate DistinctKeys<K(==), V>(d: Dict<K, V>) {
    forall i, j :: 0 <= i < j < |d| ==> d[i].0 != d[j].0
  }

  /** d.get(k). */
  function Get<K(==), V>(d: Dict<K, V>, k: K): (r: Option<V>)
    decreases |d|
  {
    if d == [] then None
    else if d[0].0 == k then Some(d[0].1)
    else Get(d[1..], k)
  }

  /** A key is found exactly when it is one of the keys. */
  lemma {:induction false} GetFindsKeys<K, V>(d: Dict<K, V>, k: K)
    ensures Get(d, k).Some? <==> k in Keys(d)
    decreases |d|
  {
    if d != [] {
      KeysCons(d[0], d[1..]);
      assert [d[0]] + d[1..] == d;
      GetFindsKeys(d[1..], k);
    }
  }

  /** d[k] = v. */
  function Put<K(==), V>(d: Dict<K, V>, k: K, v: V): Dict<K, V>
    decreases |d|
  {
    if d == [] then [(k, v)]
    else if d[0].0 == k then [(k, v)] + d[1..]
    else [d[0]] + Put(d[1..], k, v)
  }

  /**
   * After d[k] = v, k maps to v and every other key keeps its lookup; a present key keeps
   * its place in iteration order, a new one goes last; keys stay distinct.
   */
  lemma {:induction false} PutSpec<K(!new), V>(d: Dict<K, V>, k: K, v: V)
    ensures Get(Put(d, k, v), k) == Some(v)
    ensures forall k' :: k' != k ==> Get(Put(d, k, v), k') == Get(d, k')
    ensures Keys(Put(d, k, v)) == if k in Keys(d) then Keys(d) else Keys(d) + [k]
    ensures DistinctKeys(d) ==> DistinctKeys(Put(d, k, v))
    decreases |d|
  {
    if d == [] {
    } else if d[0].0 == k {
      PutAtHead(d, k, v);
    } else {
      PutSpec(d[1..], k, v);
      PutBehindHead(d, k, v, Put(d[1..], k, v));
    }
  }

  /** One lookup after d[k] = v. */
  lemma GetPut<K(!new), V>(d: Dict<K, V>, k: K, v: V, k': K)
    ensures Get(Put(d, k, v), k') == if k' == k then Some(v) else Get(d, k')
  {
    PutSpec(d, k, v);
  }

  /** What Put promises, for the two lemmas that prove it branch by branch. */
  ghost predicate IsPut<K(!new), V>(d: Dict<K, V>, k: K, v: V, r: Dict<K, V>) {
    && Get(r, k) == Some(v)
    && (forall k' :: k' != k ==> Get(r, k') == Get(d, k'))
    && Keys(r) == (if k in Keys(d) then Keys(d) else Keys(d) + [k])
    && (DistinctKeys(d) ==> DistinctKeys(r))
  }

  lemma PutAtHead<K(!new), V>(d: Dict<K, V>, k: K, v: V)
    requires d != [] && d[0].0 == k
    ensures IsPut(d, k, v, [(k, v)] + d[1..])
  {
    var x, t := d[0], d[1..];
    assert d == [x] + t;
    var r := [(k, v)] + t;
    KeysCons(x, t);
    KeysCons((k, v), t);
    DistinctCons(x, t);
    DistinctCons((k, v), t);
    forall k' ensures Get(r, k') == if k' == k then Some(v) else Get(d, k') {
      GetCons((k, v), t, k');
      GetCons(x, t, k');
    }
  }

  lemma PutBehindHead<K(!new), V>(d: Dict<K, V>, k: K, v: V, rest: Dict<K, V>)
    requires d != [] && d[0].0 != k && IsPut(d[1..], k, v, rest)
    ensures IsPut(d, k, v, [d[0]] + rest)
  {
    var x, t := d[0], d[1..];
    assert d == [x] + t;
    var r := [x] + rest;
    KeysCons(x, t);
    KeysCons(x, rest);
    assert Keys(r) == if k in Keys(d) then Keys(d) else Keys(d) + [k];
    forall k' ensures Get(r, k') == if k' == k then Some(v) else Get(d, k') {
      GetCons(x, rest, k');
      GetCons(x, t, k');
    }
    if DistinctKeys(d) {
      DistinctCons(x, t);
      assert x.0 !in Keys(rest);
      DistinctCons(x, rest);
    }
  }

  lemma GetCons<K(!new), V>(x: (K, V), d: Dict<K, V>, k: K)
    ensures Get([x] + d, k) == if x.0 == k then Some(x.1) else Get(d, k)
  {
    assert ([x] + d)[1..] == d;
  }

  lemma DistinctCons<K, V>(x: (K, V), d: Dict<K, V>)
    ensures DistinctKeys([x] + d) <==> x.0 !in Keys(d) && DistinctKeys(d)
  {
    var r := [x] + d;
    if DistinctKeys(r) {
      forall i, j | 0 <= i < j < |d| ensures d[i].0 != d[j].0 {
        assert r[i + 1] == d[i] && r[j + 1] == d[j];
      }
      forall j | 0 <= j < |d| ensures d[j].0 != x.0 {
        assert r[0] == x && r[j + 1] == d[j];
      }
    }
  }

  lemma KeysCons<K, V>(x: (K, V), d: Dict<K, V>)
    ensures Keys([x] + d) == [x.0] + Keys(d)
  {
  }

  /** A dictionary with distinct keys is determined by its keys and its lookups. */
  lemma {:induction false} GetDeterminesValue<K, V>(d: Dict<K, V>, i: nat)
    requires DistinctKeys(d) && i < |d|
    ensures Get(d, d[i].0) == Some(d[i].1)
    decreases i
  {
    if i > 0 {
      assert d[0].0 != d[i].0;
      assert d[1..][i - 1] == d[i];
      GetDeterminesValue(d[1..], i - 1);
    }
  }

  /** Assigns d[k] = v for each pair of items, in order. */
  function PutAll<K(==, !new), V>(d: Dict<K, V>, items: seq<(K, V)>): (r: Dict<K, V>)
    decreases |items|
  {
    if items == [] then d else PutAll(Put(d, items[0].0, items[0].1), items[1..])
  }

  /** PutAll keeps the keys distinct and adds only keys of its pairs. */
  lemma {:induction false} PutAllKeys<K(!new), V>(d: Dict<K, V>, items: seq<(K, V)>, allowed: set<K>)
    requires forall k :: k in Keys(d) ==> k in allowed
    requires forall n :: 0 <= n < |items| ==> items[n].0 in allowed
    ensures forall k :: k in Keys(PutAll(d, items)) ==> k in allowed
    ensures DistinctKeys(d) ==> DistinctKeys(PutAll(d, items))
    decreases |items|
  {
    if items != [] {
      assert forall n :: 1 <= n < |items| ==> items[1..][n - 1] == items[n];
      PutSpec(d, items[0].0, items[0].1);
      PutAllKeys(Put(d, items[0].0, items[0].1), items[1..], allowed);
    }
  }

  /** The value of the last pair with key k, if there is one. */
  function LastValue<K(==), V>(items: seq<(K, V)>, k: K): Option<V>
    decreases |items|
  {
    if items == [] then None
    else if items[|items| - 1].0 == k then Some(items[|items| - 1].1)
    else LastValue(items[..|items| - 1], k)
  }

  /** After PutAll, a key holds the value of its last pair, or its old value when it has none. */
  lemma {:induction false} PutAllGet<K(!new), V>(d: Dict<K, V>, items: seq<(K, V)>, k: K)
    ensures Get(PutAll(d, items), k) == match LastValue(items, k)
                                          case Some(v) => Some(v)
                                          case None => Get(d, k)
    decreases |items|
  {
    if items != [] {
      var last := items[|items| - 1];
      var init := items[..|items| - 1];
      assert init + [last] == items;
      PutAllSnoc(d, init, last);
      GetPut(PutAll(d, init), last.0, last.1, k);
      PutAllGet(d, init, k);
    }
  }

  /** PutAll over items followed by one more pair is PutAll, then Put. */
  lemma {:induction false} PutAllSnoc<K(!new), V>(d: Dict<K, V>, items: seq<(K, V)>, x: (K, V))
    ensures PutAll(d, items + [x]) == Put(PutAll(d, items), x.0, x.1)
    decreases |items|
  {
    if items == [] {
      assert PutAll(d, [x]) == PutAll(Put(d, x.0, x.1), []);
    } else {
      assert (items + [x])[1..] == items[1..] + [x];
      PutAllSnoc(Put(d, items[0].0, items[0].1), items[1..], x);
    }
  }

  /** PutAll over the first n + 1 pairs is PutAll over the first n, then the pair at n. */
  lemma PutAllPrefix<K(!new), V>(d: Dict<K, V>, items: seq<(K, V)>, n: nat)
    requires n < |items|
    ensures PutAll(d, items[..n + 1]) == Put(PutAll(d, items[..n]), items[n].0, items[n].1)
  {
    assert items[..n + 1] == items[..n] + [items[n]];
    PutAllSnoc(d, items[..n], items[n]);
  }
}
