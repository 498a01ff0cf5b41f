/**
 * A Python `dict` with string keys, as the ordered list of its entries in
 * first-insertion order. `Put` keeps the keys distinct.
 */
module Dicts {
  type Dict<V> = seq<(string, V)>

  /** No key occurs in two entries: the dict counterpart of distinct descriptor names. */
  predicate DistinctKeys<V>(d: Dict<V>)
  {
    forall i, j :: 0 <= i < j < |d| ==> d[i].0 != d[j].0
  }

  /** The keys of `d`, in iteration order. */
  function Keys<V>(d: Dict<V>): (ks: seq<string>)
    ensures |ks| == |d|
    ensures forall i :: 0 <= i < |d| ==> ks[i] == d[i].0
  {
    if d == [] then [] else [d[0].0] + Keys(d[1..])
  }

  /**
   * `d[k] = v`: a new key is appended at the end; an existing key keeps its
   * position and takes the new value.
   */
  function Put<V>(d: Dict<V>, k: string, v: V): (r: Dict<V>)
    ensures k !in Keys(d) ==> r == d + [(k, v)]
    ensures k !in Keys(d) ==> Keys(r) == Keys(d) + [k]
    ensures k in Keys(d) ==> |r| == |d| && Keys(r) == Keys(d)
    ensures k in Keys(d) ==> forall i :: 0 <= i < |d| ==> r[i] == if d[i].0 == k then (k, v) else d[i]
  {
    if k in Keys(d) then
      seq(|d|, i requires 0 <= i < |d| => if d[i].0 == k then (k, v) else d[i])
    else
      d + [(k, v)]
  }

  /** `d[k] = v` keeps the keys of a dict distinct. */
  lemma PutDistinct<V>(d: Dict<V>, k: string, v: V)
    requires DistinctKeys(d)
    ensures DistinctKeys(Put(d, k, v))
  {
    var r := Put(d, k, v);
    forall i, j | 0 <= i < j < |r|
      ensures r[i].0 != r[j].0
    {
      assert Keys(d)[i] == d[i].0;
      if j < |d| {
        assert Keys(d)[j] == d[j].0;
      }
    }
  }

  /** Looking up after `d[k] = v`: `k` holds `v`, and every other entry is as it was. */
  lemma PutLookup<V>(d: Dict<V>, k: string, v: V)
    ensures var r := Put(d, k, v);
      && (k, v) in r
      && (forall e :: e in r && e.0 != k ==> e in d)
      && (forall e :: e in d && e.0 != k ==> e in r)
  {
    var r := Put(d, k, v);
    if k in Keys(d) {
      forall e | e in d && e.0 != k
        ensures e in r
      {
        var i :| 0 <= i < |d| && d[i] == e;
        assert r[i] == e;
      }
      var i :| 0 <= i < |d| && Keys(d)[i] == k;
      assert r[i] == (k, v);
    }
  }
}
