/** Python's `dict` as the routines use it: keys keep the position of their
    first insertion, and storing under an existing key replaces its value. */
module Dicts {
  import opened Collections

  datatype Dict<K, V> = Dict(keys: seq<K>, values: map<K, V>)

  /** The keys are listed once each, and they are exactly the keys with a value. */
  predicate Valid<K, V>(d: Dict<K, V>) {
    NoDuplicates(d.keys) && (set k | k in d.keys) == d.values.Keys
  }

  /** `{}` */
  function Empty<K, V>(): (d: Dict<K, V>)
    ensures Valid(d)
  {
    Dict([], map[])
  }

  /** `d[k] = v`: a new key goes last, an existing key keeps its place. */
  function Put<K, V>(d: Dict<K, V>, k: K, v: V): (r: Dict<K, V>)
    requires Valid(d)
    ensures Valid(r) && d.keys <= r.keys
  {
    if k in d.values then Dict(d.keys, d.values[k := v])
    else
      var r := Dict(d.keys + [k], d.values[k := v]);
      assert forall x :: x in d.keys ==> x in d.values;
      r
  }

  /** Stores the pairs one after the other, first pair first. */
  function PutAll<K, V>(d: Dict<K, V>, pairs: seq<(K, V)>): (r: Dict<K, V>)
    requires Valid(d)
    ensures Valid(r) && d.keys <= r.keys
    decreases |pairs|
  {
    if |pairs| == 0 then d
    else
      var last := pairs[|pairs| - 1];
      Put(PutAll(d, pairs[..|pairs| - 1]), last.0, last.1)
  }

  /** `d.items()`, in key order. */
  function Items<K, V>(d: Dict<K, V>): (items: seq<(K, V)>)
    requires Valid(d)
    ensures |items| == |d.keys|
    ensures forall i :: 0 <= i < |items| ==> items[i].0 == d.keys[i]
  {
    seq(|d.keys|, i requires 0 <= i < |d.keys| => (d.keys[i], d.values[d.keys[i]]))
  }

  /** `list(d.values())`, in key order. */
  function Values<K, V>(d: Dict<K, V>): (vs: seq<V>)
    requires Valid(d)
    ensures |vs| == |d.keys|
    ensures forall i :: 0 <= i < |vs| ==> vs[i] == d.values[d.keys[i]]
  {
    seq(|d.keys|, i requires 0 <= i < |d.keys| => d.values[d.keys[i]])
  }

  /** `d.update(other)` */
  function Update<K, V>(d: Dict<K, V>, other: Dict<K, V>): (r: Dict<K, V>)
    requires Valid(d) && Valid(other)
    ensures Valid(r) && d.keys <= r.keys
  {
    PutAll(d, Items(other))
  }

  /** After storing pairs, the keys are the old keys and those the pairs name. */
  lemma {:induction false} PutAllKeys<K, V>(d: Dict<K, V>, pairs: seq<(K, V)>, k: K)
    requires Valid(d)
    ensures k in PutAll(d, pairs).values <==> k in d.values || exists i :: 0 <= i < |pairs| && pairs[i].0 == k
    decreases |pairs|
  {
    if |pairs| > 0 {
      var init := pairs[..|pairs| - 1];
      PutAllKeys(d, init, k);
      assert forall i :: 0 <= i < |init| ==> init[i] == pairs[i];
    }
  }

  /** A key named by some pair holds the value of the last pair naming it. */
  lemma {:induction false} PutAllLastWins<K, V>(d: Dict<K, V>, pairs: seq<(K, V)>, i: nat)
    requires Valid(d) && i < |pairs|
    requires forall j :: i < j < |pairs| ==> pairs[j].0 != pairs[i].0
    ensures pairs[i].0 in PutAll(d, pairs).values
    ensures PutAll(d, pairs).values[pairs[i].0] == pairs[i].1
    decreases |pairs|
  {
    if i < |pairs| - 1 {
      var init := pairs[..|pairs| - 1];
      PutAllLastWins(d, init, i);
    }
  }

  /** A key no pair names keeps its old value. */
  lemma {:induction false} PutAllUntouched<K, V>(d: Dict<K, V>, pairs: seq<(K, V)>, k: K)
    requires Valid(d) && k in d.values
    requires forall j :: 0 <= j < |pairs| ==> pairs[j].0 != k
    ensures PutAll(d, pairs).values[k] == d.values[k]
    decreases |pairs|
  {
    if |pairs| > 0 {
      PutAllUntouched(d, pairs[..|pairs| - 1], k);
    }
  }

  /** `d.update(other)`: every key of `other` takes `other`'s value, the
      other keys keep theirs, and `d`'s keys keep their places in front. */
  lemma UpdateValues<K, V>(d: Dict<K, V>, other: Dict<K, V>)
    requires Valid(d) && Valid(other)
    ensures d.keys <= Update(d, other).keys
    ensures Update(d, other).values == d.values + other.values
  {
    var items := Items(other);
    var r := Update(d, other);
    forall k | k in d.values + other.values
      ensures k in r.values && r.values[k] == (d.values + other.values)[k]
    {
      PutAllKeys(d, items, k);
      if k in other.values {
        assert k in other.keys;
        var i :| 0 <= i < |other.keys| && other.keys[i] == k;
        assert items[i].0 == k;
        PutAllLastWins(d, items, i);
      } else {
        PutAllUntouched(d, items, k);
      }
    }
    forall k | k in r.values
      ensures k in d.values + other.values
    {
      PutAllKeys(d, items, k);
    }
  }
}
