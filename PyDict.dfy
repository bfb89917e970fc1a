/**
 * A Python `dict` from strings to strings, as far as the script relies on it:
 * keys are kept in insertion order, assigning to an existing key replaces its
 * value in place, and `dict(pairs)` assigns the pairs one after another.
 */
module PyDict {
  import opened Wrappers

  datatype Entry = Entry(key: string, value: string)

  /** The entries in insertion order; see `DistinctKeys` for the invariant. */
  type Dict = seq<Entry>

  predicate DistinctKeys(d: Dict)
  {
    forall i, j :: 0 <= i < j < |d| ==> d[i].key != d[j].key
  }

  /** `d.keys()` in iteration order. */
  function Keys(d: Dict): seq<string>
  {
    seq(|d|, i requires 0 <= i < |d| => d[i].key)
  }

  /** `d.values()` in iteration order. */
  function Values(d: Dict): seq<string>
  {
    seq(|d|, i requires 0 <= i < |d| => d[i].value)
  }

  /** Position of the first entry with key `k`, if any. */
  function IndexOf(d: seq<Entry>, k: string): (r: Option<nat>)
    ensures r.None? <==> forall i :: 0 <= i < |d| ==> d[i].key != k
    ensures r.Some? ==> r.value < |d| && d[r.value].key == k
                        && forall i :: 0 <= i < r.value ==> d[i].key != k
  {
    if d == [] then None
    else if d[0].key == k then Some(0)
    else match IndexOf(d[1..], k)
      case None => None
      case Some(j) => Some(j + 1)
  }

  /** `d.get(k)`. */
  function Get(d: Dict, k: string): (r: Option<string>)
    ensures r.None? <==> forall i :: 0 <= i < |d| ==> d[i].key != k
    ensures DistinctKeys(d) ==> forall i :: 0 <= i < |d| && d[i].key == k ==> r == Some(d[i].value)
  {
    match IndexOf(d, k)
    case None => None
    case Some(i) => Some(d[i].value)
  }

  /**
   * `d[k] = v`: afterwards `k` maps to `v` and every other key is unchanged;
   * a new key is appended, an existing one keeps its position.
   */
  function Put(d: Dict, k: string, v: string): (r: Dict)
    requires DistinctKeys(d)
    ensures DistinctKeys(r)
    ensures Get(r, k) == Some(v)
    ensures forall k' :: k' != k ==> Get(r, k') == Get(d, k')
    ensures |r| == if Get(d, k).Some? then |d| else |d| + 1
    ensures forall i :: 0 <= i < |d| ==> r[i].key == d[i].key
    ensures Get(d, k).None? ==> r[|d|] == Entry(k, v)
  {
    match IndexOf(d, k)
    case Some(i) =>
      var r := d[i := Entry(k, v)];
      assert DistinctKeys(r);
      assert r[i] == Entry(k, v);
      assert forall k' :: k' != k ==> Get(r, k') == Get(d, k') by {
        forall k' | k' != k ensures Get(r, k') == Get(d, k') {
          if Get(d, k').Some? {
            var j := IndexOf(d, k').value;
            assert r[j] == d[j];
          }
        }
      }
      r
    case None =>
      var r := d + [Entry(k, v)];
      assert r[|d|] == Entry(k, v);
      assert forall k' :: k' != k ==> Get(r, k') == Get(d, k') by {
        forall k' | k' != k ensures Get(r, k') == Get(d, k') {
          if Get(d, k').Some? {
            var j := IndexOf(d, k').value;
            assert r[j] == d[j];
          }
        }
      }
      r
  }

  /** `dict(pairs)`: the pairs assigned one after another, left to right. */
  function FromPairs(pairs: seq<Entry>): (d: Dict)
    ensures DistinctKeys(d)
  {
    if pairs == [] then []
    else
      var last := pairs[|pairs| - 1];
      Put(FromPairs(pairs[..|pairs| - 1]), last.key, last.value)
  }

  /** The value of the last pair whose key is `k`. */
  function LastValue(pairs: seq<Entry>, k: string): Option<string>
  {
    if pairs == [] then None
    else if pairs[|pairs| - 1].key == k then Some(pairs[|pairs| - 1].value)
    else LastValue(pairs[..|pairs| - 1], k)
  }

  /** A repeated key takes the last value given for it; absent keys stay absent. */
  lemma {:induction false} FromPairsLastValue(pairs: seq<Entry>, k: string)
    ensures Get(FromPairs(pairs), k) == LastValue(pairs, k)
  {
    if pairs != [] {
      FromPairsLastValue(pairs[..|pairs| - 1], k);
    }
  }

  /** The last value is missing exactly when no pair carries the key. */
  lemma {:induction false} LastValueNone(pairs: seq<Entry>, k: string)
    ensures LastValue(pairs, k).None? <==> forall i :: 0 <= i < |pairs| ==> pairs[i].key != k
  {
    if pairs != [] {
      var init := pairs[..|pairs| - 1];
      LastValueNone(init, k);
      assert forall i :: 0 <= i < |init| ==> init[i] == pairs[i];
    }
  }

  /** A key is in `dict(pairs)` exactly when some pair carries it. */
  lemma FromPairsHasKey(pairs: seq<Entry>, k: string)
    ensures Get(FromPairs(pairs), k).Some? <==> IndexOf(pairs, k).Some?
  {
    FromPairsLastValue(pairs, k);
    LastValueNone(pairs, k);
  }

  /** Every key of `dict(pairs)` comes from some pair, and some pair gives a non-empty dict. */
  lemma FromPairsKeysOccur(pairs: seq<Entry>)
    ensures pairs != [] ==> FromPairs(pairs) != []
    ensures forall i :: 0 <= i < |FromPairs(pairs)| ==> IndexOf(pairs, FromPairs(pairs)[i].key).Some?
  {
    var d := FromPairs(pairs);
    if pairs != [] {
      FromPairsHasKey(pairs, pairs[0].key);
    }
    forall i | 0 <= i < |d| ensures IndexOf(pairs, d[i].key).Some? {
      FromPairsHasKey(pairs, d[i].key);
    }
  }

  /** Extending a sequence leaves the first occurrence of an earlier key in place. */
  lemma IndexOfExtend(pairs: seq<Entry>, n: nat, k: string)
    requires n <= |pairs|
    requires IndexOf(pairs[..n], k).Some?
    ensures IndexOf(pairs, k) == IndexOf(pairs[..n], k)
  {
    var i := IndexOf(pairs[..n], k).value;
    assert pairs[i].key == k;
    assert forall j :: 0 <= j < i ==> pairs[..n][j] == pairs[j];
  }

  /** A key that does not occur before position n first occurs at n. */
  lemma IndexOfFresh(pairs: seq<Entry>, n: nat)
    requires n < |pairs|
    requires IndexOf(pairs[..n], pairs[n].key).None?
    ensures IndexOf(pairs, pairs[n].key) == Some(n)
  {
    assert forall i :: 0 <= i < n ==> pairs[..n][i] == pairs[i];
  }

  /**
   * The keys of `dict(pairs)` are ordered by where each key first occurs in
   * `pairs`: a repeated key keeps its first position.
   */
  lemma {:induction false} FromPairsKeyOrder(pairs: seq<Entry>)
    ensures var d := FromPairs(pairs);
            forall i, j :: 0 <= i < j < |d| ==>
              IndexOf(pairs, d[i].key).Some? && IndexOf(pairs, d[j].key).Some?
              && IndexOf(pairs, d[i].key).value < IndexOf(pairs, d[j].key).value
  {
    if pairs != [] {
      var n := |pairs| - 1;
      var init := pairs[..n];
      var last := pairs[n];
      var d0 := FromPairs(init);
      var d := FromPairs(pairs);
      FromPairsKeyOrder(init);
      forall i | 0 <= i < |d0|
        ensures IndexOf(init, d0[i].key).Some?
        ensures IndexOf(pairs, d0[i].key) == IndexOf(init, d0[i].key)
      {
        assert Get(d0, d0[i].key).Some?;
        FromPairsHasKey(init, d0[i].key);
        IndexOfExtend(pairs, n, d0[i].key);
      }
      if Get(d0, last.key).None? {
        FromPairsHasKey(init, last.key);
        IndexOfFresh(pairs, n);
      }
      forall i, j | 0 <= i < j < |d|
        ensures IndexOf(pairs, d[i].key).Some? && IndexOf(pairs, d[j].key).Some?
        ensures IndexOf(pairs, d[i].key).value < IndexOf(pairs, d[j].key).value
      {
        assert d[i].key == d0[i].key;
        if j < |d0| {
          assert d[j].key == d0[j].key;
        } else {
          assert d[j].key == last.key;
        }
      }
    }
  }

  /** In a dict with distinct keys, the i-th value belongs to the i-th key. */
  lemma ValuesFollowKeys(d: Dict)
    requires DistinctKeys(d)
    ensures |Values(d)| == |Keys(d)| == |d|
    ensures forall i :: 0 <= i < |d| ==> Get(d, Keys(d)[i]) == Some(Values(d)[i])
  {
  }

  /**
   * `dict([(k1, v1), (k2, v2), (k1, v3)])` is `{k1: v3, k2: v2}`: the
   * repeated key stays first and takes the last value.
   */
  lemma FromPairsRepeated(k1: string, k2: string, v1: string, v2: string, v3: string)
    requires k1 != k2
    ensures FromPairs([Entry(k1, v1), Entry(k2, v2), Entry(k1, v3)]) == [Entry(k1, v3), Entry(k2, v2)]
  {
    var pairs := [Entry(k1, v1), Entry(k2, v2), Entry(k1, v3)];
    assert pairs[..2] == [Entry(k1, v1), Entry(k2, v2)];
    assert pairs[..2][..1] == [Entry(k1, v1)];
    assert FromPairs([Entry(k1, v1)]) == [Entry(k1, v1)];
    assert FromPairs(pairs[..2]) == [Entry(k1, v1), Entry(k2, v2)];
    assert IndexOf([Entry(k1, v1), Entry(k2, v2)], k1) == Some(0);
  }
}
