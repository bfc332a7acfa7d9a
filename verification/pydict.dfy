/** Python's `dict`: an association list with distinct (string) keys that remembers
    insertion order. Iterating `d.items()` visits the pairs in the order the
    keys were first inserted; assigning to an existing key keeps its place. */
module PyDict {
  import opened Wrappers

  type Dict<V> = seq<(string, V)>

  function KeySet<V>(d: Dict<V>): set<string> {
    set i | 0 <= i < |d| :: d[i].0
  }

  lemma KeySetCons<V>(d: Dict<V>)
    requires |d| > 0
    ensures KeySet(d) == {d[0].0} + KeySet(d[1..])
  {
    forall key | key in KeySet(d) ensures key in {d[0].0} + KeySet(d[1..]) {
      var i :| 0 <= i < |d| && d[i].0 == key;
      if i > 0 {
        assert d[1..][i - 1].0 == key;
      }
    }
    forall key | key in KeySet(d[1..]) ensures key in KeySet(d) {
      var i :| 0 <= i < |d| - 1 && d[1..][i].0 == key;
      assert d[i + 1].0 == key;
    }
  }

  predicate DistinctKeys<V>(d: Dict<V>) {
    forall i, j :: 0 <= i < j < |d| ==> d[i].0 != d[j].0
  }

  /** Position of the first pair whose key is `k`. */
  function Find<V>(d: Dict<V>, k: string): (r: Option<nat>)
    ensures r.None? <==> k !in KeySet(d)
    ensures r.Some? ==> r.value < |d| && d[r.value].0 == k
    ensures r.Some? ==> forall j :: 0 <= j < r.value ==> d[j].0 != k
  {
    if |d| == 0 then None
    else if d[0].0 == k then Some(0)
    else
      KeySetCons(d);
      match Find(d[1..], k)
      case None => None
      case Some(i) => Some(i + 1)
  }

  /** `d.get(k)`. */
  function Get<V>(d: Dict<V>, k: string): (r: Option<V>)
    ensures r.None? <==> k !in KeySet(d)
  {
    match Find(d, k)
    case None => None
    case Some(i) => Some(d[i].1)
  }

  /** `d[k] = v`: overwrite in place when `k` is present, append otherwise. */
  function Put<V>(d: Dict<V>, k: string, v: V): (r: Dict<V>)
    ensures KeySet(r) == KeySet(d) + {k}
    ensures Get(r, k) == Some(v)
    ensures forall k' :: k' != k ==> Get(r, k') == Get(d, k')
    ensures DistinctKeys(d) ==> DistinctKeys(r)
    ensures |r| == if k in KeySet(d) then |d| else |d| + 1
    ensures forall i :: 0 <= i < |d| ==> r[i].0 == d[i].0
    ensures forall i :: 0 <= i < |r| ==> r[i] == (k, v) || (i < |d| && r[i] == d[i])
  {
    match Find(d, k)
    case Some(i) =>
      PutInPlace(d, k, v, i);
      d[i := (k, v)]
    case None =>
      PutAppended(d, k, v);
      d + [(k, v)]
  }

  lemma PutInPlace<V>(d: Dict<V>, k: string, v: V, i: nat)
    requires Find(d, k) == Some(i)
    ensures KeySet(d[i := (k, v)]) == KeySet(d) + {k}
    ensures Get(d[i := (k, v)], k) == Some(v)
    ensures forall k' :: k' != k ==> Get(d[i := (k, v)], k') == Get(d, k')
    ensures DistinctKeys(d) ==> DistinctKeys(d[i := (k, v)])
  {
    var r := d[i := (k, v)];
    assert forall j :: 0 <= j < |d| ==> r[j].0 == d[j].0;
    assert KeySet(r) == KeySet(d);
    assert Find(r, k) == Some(i);
    assert forall k' :: k' != k ==> Find(r, k') == Find(d, k');
  }

  lemma PutAppended<V>(d: Dict<V>, k: string, v: V)
    requires Find(d, k) == None
    ensures KeySet(d + [(k, v)]) == KeySet(d) + {k}
    ensures Get(d + [(k, v)], k) == Some(v)
    ensures forall k' :: k' != k ==> Get(d + [(k, v)], k') == Get(d, k')
    ensures DistinctKeys(d) ==> DistinctKeys(d + [(k, v)])
  {
    var r := d + [(k, v)];
    assert r[|d|].0 == k;
    assert KeySet(r) == KeySet(d) + {k} by {
      forall key | key in KeySet(r) ensures key in KeySet(d) + {k} {
        var j :| 0 <= j < |r| && r[j].0 == key;
        if j < |d| {
          assert d[j].0 == key;
        }
      }
      forall key | key in KeySet(d) ensures key in KeySet(r) {
        var j :| 0 <= j < |d| && d[j].0 == key;
        assert r[j].0 == key;
      }
    }
    forall k' | k' != k ensures Find(r, k') == Find(d, k') {
      FindAppended(d, k, v, k');
    }
  }

  lemma FindAppended<V>(d: Dict<V>, k: string, v: V, k': string)
    requires KeySet(d + [(k, v)]) == KeySet(d) + {k}
    requires k' != k
    ensures Find(d + [(k, v)], k') == Find(d, k')
  {
    var r := d + [(k, v)];
    if k' in KeySet(d) {
      var i, j := Find(r, k').value, Find(d, k').value;
      assert r[j].0 == k';
      assert i <= j;
      assert r[i] == d[i];
    }
  }

  /** With distinct keys, looking up the key stored at `i` finds position `i`. */
  lemma GetAt<V>(d: Dict<V>, i: nat)
    requires DistinctKeys(d) && i < |d|
    ensures Get(d, d[i].0) == Some(d[i].1)
  {
    assert d[i].0 in KeySet(d);
  }

  /** A run of assignments `d[k] = v`, one per pair, in order (also what a
      dict comprehension builds). */
  function PutAll<V>(d: Dict<V>, pairs: seq<(string, V)>): (r: Dict<V>)
    ensures KeySet(r) == KeySet(d) + KeySet(pairs)
    ensures DistinctKeys(d) ==> DistinctKeys(r)
    decreases |pairs|
  {
    if |pairs| == 0 then d
    else
      KeySetCons(pairs);
      PutAll(Put(d, pairs[0].0, pairs[0].1), pairs[1..])
  }

  /** A key no pair assigns keeps its old value. */
  lemma {:induction false} PutAllUntouched<V>(d: Dict<V>, pairs: seq<(string, V)>, k: string)
    requires forall j :: 0 <= j < |pairs| ==> pairs[j].0 != k
    ensures Get(PutAll(d, pairs), k) == Get(d, k)
    decreases |pairs|
  {
    if |pairs| > 0 {
      PutAllUntouched(Put(d, pairs[0].0, pairs[0].1), pairs[1..], k);
    }
  }

  /** Later assignments overwrite earlier ones: a key ends up with the value of
      the last pair that assigns it. */
  lemma {:induction false} PutAllLastWins<V>(d: Dict<V>, pairs: seq<(string, V)>, i: nat)
    requires i < |pairs|
    requires forall j :: i < j < |pairs| ==> pairs[j].0 != pairs[i].0
    ensures Get(PutAll(d, pairs), pairs[i].0) == Some(pairs[i].1)
    decreases |pairs|
  {
    var d' := Put(d, pairs[0].0, pairs[0].1);
    if i == 0 {
      PutAllUntouched(d', pairs[1..], pairs[0].0);
    } else {
      PutAllLastWins(d', pairs[1..], i - 1);
    }
  }
}
