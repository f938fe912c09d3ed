/**
 * Python's `dict` as the programs use it: key/value pairs in insertion
 * order, where assigning to a present key overwrites that pair in place and
 * assigning to an absent key appends a new pair at the end.
 */
module OrderedMap {

  datatype Option<T> = None | Some(value: T)

  /** The pairs of a dict in iteration order. */
  type Dict<K, V> = seq<(K, V)>

  /** The keys in iteration order, as `list(d)` gives them. */
  function Keys<K, V>(d: Dict<K, V>): (ks: seq<K>)
    ensures |ks| == |d|
    ensures forall i :: 0 <= i < |d| ==> ks[i] == d[i].0
  {
    seq(|d|, i requires 0 <= i < |d| => d[i].0)
  }

  /** No key occurs twice: every dict the programs build has this shape. */
  predicate UniqueKeys<K(==), V>(d: Dict<K, V>) {
    forall i, j :: 0 <= i < j < |d| ==> d[i].0 != d[j].0
  }

  /** Python's `k in d`. */
  predicate HasKey<K(==), V>(d: Dict<K, V>, k: K) {
    k in Keys(d)
  }

  /** Position of the first pair with key `k`. */
  function Index<K(==), V>(d: Dict<K, V>, k: K): (i: nat)
    requires HasKey(d, k)
    ensures i < |d| && d[i].0 == k
    ensures forall j :: 0 <= j < i ==> d[j].0 != k
  {
    if d[0].0 == k then 0
    else
      assert Keys(d) == [d[0].0] + Keys(d[1..]);
      1 + Index(d[1..], k)
  }

  /** `d.get(k)`: the value stored under `k`, if any. */
  function Get<K(==), V>(d: Dict<K, V>, k: K): (r: Option<V>)
    ensures r.None? <==> !HasKey(d, k)
    ensures r.Some? ==> exists i :: 0 <= i < |d| && d[i] == (k, r.value)
  {
    if HasKey(d, k) then Some(d[Index(d, k)].1) else None
  }

  /**
   * `d[k] = v`: a present key keeps its position and takes the new value,
   * every other pair stays where it was; an absent key is appended last.
   */
  function Put<K(==), V>(d: Dict<K, V>, k: K, v: V): (r: Dict<K, V>)
    ensures HasKey(d, k) ==> |r| == |d| && r[Index(d, k)] == (k, v)
    ensures HasKey(d, k) ==> forall i :: 0 <= i < |d| && i != Index(d, k) ==> r[i] == d[i]
    ensures !HasKey(d, k) ==> |r| == |d| + 1 && r[..|d|] == d && r[|d|] == (k, v)
    ensures HasKey(r, k)
  {
    if HasKey(d, k) then
      var r := d[Index(d, k) := (k, v)];
      assert Keys(r)[Index(d, k)] == k;
      r
    else
      var r := d + [(k, v)];
      assert Keys(r)[|d|] == k;
      r
  }

  /** After `d[k] = v`, looking `k` up gives `v`. */
  lemma PutGet<K, V>(d: Dict<K, V>, k: K, v: V)
    ensures Get(Put(d, k, v), k) == Some(v)
  {
    var r := Put(d, k, v);
    assert HasKey(r, k) by {
      if HasKey(d, k) {
        assert Keys(r)[Index(d, k)] == k;
      } else {
        assert Keys(r)[|d|] == k;
      }
    }
    if HasKey(d, k) {
      var j := Index(d, k);
      assert forall l :: 0 <= l < j ==> r[l] == d[l];
      assert Index(r, k) == j;
    } else {
      assert forall l :: 0 <= l < |d| ==> Keys(d)[l] == r[l].0;
      assert Index(r, k) == |d|;
    }
  }

  /** After `d[k] = v`, every other key looks up as before. */
  lemma PutGetOther<K, V>(d: Dict<K, V>, k: K, v: V, k': K)
    requires k' != k
    ensures Get(Put(d, k, v), k') == Get(d, k')
  {
    var r := Put(d, k, v);
    assert HasKey(r, k') <==> HasKey(d, k') by {
      if HasKey(d, k') {
        var j := Index(d, k');
        assert Keys(r)[j] == k';
      }
      if HasKey(r, k') {
        var j := Index(r, k');
        assert j < |d| && d[j] == r[j];
        assert Keys(d)[j] == k';
      }
    }
    if HasKey(d, k') {
      var j := Index(d, k');
      assert r[j] == d[j];
      assert forall l :: 0 <= l < j ==> r[l].0 != k';
      assert Index(r, k') == j;
    }
  }

  /** `d[k] = v` keeps the keys distinct. */
  lemma PutUnique<K, V>(d: Dict<K, V>, k: K, v: V)
    requires UniqueKeys(d)
    ensures UniqueKeys(Put(d, k, v))
  {
    var r := Put(d, k, v);
    if !HasKey(d, k) {
      forall i | 0 <= i < |d| ensures r[i].0 != k {
        assert Keys(d)[i] == d[i].0;
      }
    }
  }

  /** The keys after `d[k] = v`: the same list, or the old list and `k` at the end. */
  lemma PutKeys<K, V>(d: Dict<K, V>, k: K, v: V)
    ensures Keys(Put(d, k, v)) == if HasKey(d, k) then Keys(d) else Keys(d) + [k]
  {
  }

  /** Assigning the same value twice is assigning it once. */
  lemma PutPut<K, V>(d: Dict<K, V>, k: K, v: V)
    ensures Put(Put(d, k, v), k, v) == Put(d, k, v)
  {
    var r := Put(d, k, v);
    PutGet(d, k, v);
    var i := Index(r, k);
    assert r[i] == (k, v);
    assert r[i := (k, v)] == r;
  }

  /** A pair of a dict with distinct keys is what its key looks up. */
  lemma GetAt<K, V>(d: Dict<K, V>, i: nat)
    requires UniqueKeys(d) && i < |d|
    ensures Get(d, d[i].0) == Some(d[i].1)
  {
    assert Keys(d)[i] == d[i].0;
  }
}
