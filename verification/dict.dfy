/**
  A Python `dict` with string keys: an association list in insertion order.
  Assigning to a present key replaces its value in place; assigning to a new
  key appends it. Iteration (`.items()`) walks `items` front to back.
 */
module Dict {
  import opened Base

  datatype Dict<V> = Dict(items: seq<(string, V)>)

  function Empty<V>(): (d: Dict<V>)
    ensures Valid(d) && Keys(d) == {}
  {
    Dict([])
  }

  /** Every key occurs once. */
  predicate Valid<V>(d: Dict<V>) {
    forall i, j :: 0 <= i < j < |d.items| ==> d.items[i].0 != d.items[j].0
  }

  function Keys<V>(d: Dict<V>): set<string> {
    set i | 0 <= i < |d.items| :: d.items[i].0
  }

  /** The position of the first entry under `k`, searching from `from` on. */
  function FindFrom<V>(d: Dict<V>, k: string, from: nat): (r: Option<nat>)
    requires from <= |d.items|
    ensures r.Some? ==> from <= r.value < |d.items| && d.items[r.value].0 == k
    ensures r.Some? ==> forall j :: from <= j < r.value ==> d.items[j].0 != k
    ensures r.None? ==> forall j :: from <= j < |d.items| ==> d.items[j].0 != k
    decreases |d.items| - from
  {
    if from == |d.items| then None
    else if d.items[from].0 == k then Some(from)
    else FindFrom(d, k, from + 1)
  }

  /** The position of the entry under `k`, if there is one. */
  function Find<V>(d: Dict<V>, k: string): (r: Option<nat>)
    ensures r.Some? <==> k in Keys(d)
    ensures r.Some? ==> r.value < |d.items| && d.items[r.value].0 == k
  {
    var r := FindFrom(d, k, 0);
    assert r.None? ==> k !in Keys(d);
    r
  }

  /** `d.get(k)` */
  function Get<V>(d: Dict<V>, k: string): (r: Option<V>)
    ensures r.Some? <==> k in Keys(d)
  {
    match Find(d, k)
    case Some(i) => Some(d.items[i].1)
    case None => None
  }

  /** In a valid dict, `Get` returns the value stored beside the key. */
  lemma GetAt<V>(d: Dict<V>, i: nat)
    requires Valid(d) && i < |d.items|
    ensures Get(d, d.items[i].0) == Some(d.items[i].1)
  {
    var f := Find(d, d.items[i].0);
    assert f.Some? && f.value == i;
  }

  /** `d[k] = v` */
  function Put<V>(d: Dict<V>, k: string, v: V): (r: Dict<V>)
    ensures k !in Keys(d) ==> r.items == d.items + [(k, v)]
    ensures k in Keys(d) ==> r.items == d.items[Find(d, k).value := (k, v)]
  {
    match Find(d, k)
    case Some(i) => Dict(d.items[i := (k, v)])
    case None => Dict(d.items + [(k, v)])
  }

  /** What `d[k] = v` does to each key, to the set of keys, and to validity. */
  lemma PutSpec<V>(d: Dict<V>, k: string, v: V)
    requires Valid(d)
    ensures Valid(Put(d, k, v))
    ensures Keys(Put(d, k, v)) == Keys(d) + {k}
    ensures Get(Put(d, k, v), k) == Some(v)
    ensures forall k' :: k' != k ==> Get(Put(d, k, v), k') == Get(d, k')
  {
    var r := Put(d, k, v);
    var j: nat;
    match Find(d, k) {
      case Some(f) =>
        assert r.items == d.items[f := (k, v)];
        j := f;
      case None =>
        assert r.items == d.items + [(k, v)];
        j := |d.items|;
    }
    assert j < |r.items| && r.items[j] == (k, v);
    assert forall i :: 0 <= i < |r.items| && i != j ==> r.items[i] == d.items[i];
    assert Keys(r) == Keys(d) + {k} by {
      forall x | x in Keys(r) ensures x in Keys(d) + {k} {
        var i :| 0 <= i < |r.items| && r.items[i].0 == x;
        if i != j { assert d.items[i].0 == x; }
      }
      forall x | x in Keys(d) ensures x in Keys(r) {
        var i :| 0 <= i < |d.items| && d.items[i].0 == x;
        if i != j { assert r.items[i].0 == x; } else { assert r.items[j].0 == k == x; }
      }
      assert r.items[j].0 == k;
    }
    assert Valid(r);
    GetAt(r, j);
    forall k' | k' != k ensures Get(r, k') == Get(d, k') {
      if k' in Keys(d) {
        var i :| 0 <= i < |d.items| && d.items[i].0 == k';
        GetAt(d, i);
        assert r.items[i] == d.items[i];
        GetAt(r, i);
      }
    }
  }
}
