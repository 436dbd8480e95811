/**
 * Insertion-ordered dictionaries: a Python `dict`, and the own string keys
 * of a JavaScript object as `Object.entries` lists them. Assigning to a key
 * that is already present keeps its position; a new key goes last.
 * JavaScript lists integer-like keys first, in ascending order; that
 * ordering is not modelled.
 */
module Dicts {
  import opened Wrappers
  import opened Strings

  datatype Dict<K(==), V> = Dict(keys: seq<K>, vals: map<K, V>)
  {
    predicate Valid() {
      NoDup(keys) && (forall k | k in vals :: k in keys) && (forall i | 0 <= i < |keys| :: keys[i] in vals)
    }
  }

  type ODict<K(==), V> = d: Dict<K, V> | d.Valid() witness Dict([], map[])

  function Empty<K(==), V>(): (r: ODict<K, V>)
    ensures r.keys == [] && r.vals == map[]
  {
    Dict([], map[])
  }

  /** `d[k] = v`. */
  function Put<K(==), V>(d: ODict<K, V>, k: K, v: V): (r: ODict<K, V>)
    ensures r.vals == d.vals[k := v]
    ensures k in d.vals ==> r.keys == d.keys
    ensures k !in d.vals ==> r.keys == d.keys + [k]
  {
    if k in d.vals then Dict(d.keys, d.vals[k := v])
    else
      var r := Dict(d.keys + [k], d.vals[k := v]);
      assert k !in d.keys;
      assert r.vals.Keys == Elems(r.keys);
      r
  }

  /** `del d[k]` / `delete o[k]`: the key leaves the order too. */
  function Remove<K(==), V>(d: ODict<K, V>, k: K): (r: ODict<K, V>)
    ensures r.vals == d.vals - {k}
  {
    var ks := Without(d.keys, k);
    WithoutSpec(d.keys, k);
    var r := Dict(ks, d.vals - {k});
    assert r.vals.Keys == Elems(d.keys) - {k};
    r
  }

  function Without<K(==)>(xs: seq<K>, k: K): seq<K> {
    if xs == [] then [] else (if xs[0] == k then [] else [xs[0]]) + Without(xs[1..], k)
  }

  lemma {:induction false} WithoutSpec<K>(xs: seq<K>, k: K)
    requires NoDup(xs)
    ensures NoDup(Without(xs, k))
    ensures Elems(Without(xs, k)) == Elems(xs) - {k}
  {
    if xs != [] {
      var h := if xs[0] == k then [] else [xs[0]];
      var w := Without(xs[1..], k);
      WithoutSpec(xs[1..], k);
      assert xs == [xs[0]] + xs[1..];
      ElemsConcat([xs[0]], xs[1..]);
      ElemsConcat(h, w);
      assert xs[0] !in xs[1..];
      assert xs[0] !in Elems(xs[1..]);
      assert xs[0] !in Elems(w);
      assert xs[0] !in w;
      NoDupConcat(h, w);
    }
  }

  /** The value at `k`, `None` when absent (`d.get(k)`). */
  function Get<K(==), V>(d: ODict<K, V>, k: K): Option<V> {
    if k in d.vals then Some(d.vals[k]) else None
  }

  /** Reading back after `d[k] = v`. */
  lemma GetPut<K, V>(d: ODict<K, V>, k: K, v: V, j: K)
    ensures Get(Put(d, k, v), j) == if j == k then Some(v) else Get(d, j)
  {
  }

  /** The `i`-th item in insertion order. */
  function ItemAt<K(==), V>(d: ODict<K, V>, i: nat): (kv: (K, V))
    requires i < |d.keys|
    ensures kv.0 == d.keys[i] && kv.0 in d.vals && kv.1 == d.vals[kv.0]
  {
    assert d.keys[i] in Elems(d.keys);
    (d.keys[i], d.vals[d.keys[i]])
  }

  /** `list(d.items())` / `Object.entries(o)`. */
  function Items<K(==), V>(d: ODict<K, V>): (items: seq<(K, V)>)
    ensures |items| == |d.keys|
    ensures forall i :: 0 <= i < |items| ==> items[i] == ItemAt(d, i)
  {
    seq(|d.keys|, i requires 0 <= i < |d.keys| => ItemAt(d, i))
  }

  /** Python `dict(pairs)` / repeated assignment: the last value for a key wins, the first position stays. */
  function FromPairs<K(==), V>(kvs: seq<(K, V)>): ODict<K, V> {
    if kvs == [] then Empty()
    else Put(FromPairs(kvs[..|kvs| - 1]), kvs[|kvs| - 1].0, kvs[|kvs| - 1].1)
  }

  /** Every value of `FromPairs(kvs)` comes from one of the pairs, under its key. */
  lemma {:induction false} FromPairsFrom<K, V>(kvs: seq<(K, V)>, k: K)
    requires k in FromPairs(kvs).vals
    ensures exists i :: 0 <= i < |kvs| && kvs[i] == (k, FromPairs(kvs).vals[k])
    decreases |kvs|
  {
    var last := kvs[|kvs| - 1];
    if k != last.0 {
      FromPairsFrom(kvs[..|kvs| - 1], k);
      var i :| 0 <= i < |kvs| - 1 && kvs[..|kvs| - 1][i] == (k, FromPairs(kvs[..|kvs| - 1]).vals[k]);
      assert kvs[i] == (k, FromPairs(kvs).vals[k]);
    } else {
      assert kvs[|kvs| - 1] == (k, FromPairs(kvs).vals[k]);
    }
  }

  /** The keys of the pairs, in order. */
  function Firsts<K, V>(kvs: seq<(K, V)>): (ks: seq<K>)
    ensures |ks| == |kvs| && forall i :: 0 <= i < |kvs| ==> ks[i] == kvs[i].0
  {
    if kvs == [] then [] else Firsts(kvs[..|kvs| - 1]) + [kvs[|kvs| - 1].0]
  }

  /** Pairs with distinct keys build the dictionary that lists them in order. */
  lemma {:induction false} FromPairsDistinct<K, V>(kvs: seq<(K, V)>)
    requires NoDup(Firsts(kvs))
    ensures FromPairs(kvs).keys == Firsts(kvs)
    ensures forall i :: 0 <= i < |kvs| ==> kvs[i].0 in FromPairs(kvs).vals && FromPairs(kvs).vals[kvs[i].0] == kvs[i].1
  {
    if kvs != [] {
      var init := kvs[..|kvs| - 1];
      var last := kvs[|kvs| - 1];
      var fs := Firsts(kvs);
      assert Firsts(init) == fs[..|kvs| - 1];
      FromPairsDistinct(init);
      assert last.0 !in Firsts(init) by {
        forall j | 0 <= j < |kvs| - 1 ensures Firsts(init)[j] != last.0 {
          assert fs[j] != fs[|kvs| - 1];
        }
      }
      assert last.0 !in FromPairs(init).vals;
      forall i | 0 <= i < |kvs| ensures kvs[i].0 in FromPairs(kvs).vals && FromPairs(kvs).vals[kvs[i].0] == kvs[i].1 {
        if i < |kvs| - 1 {
          assert kvs[i] == init[i];
          assert kvs[i].0 != last.0 by {
            assert Firsts(init)[i] == kvs[i].0;
          }
        }
      }
    }
  }

  /** Reading a dictionary's items back gives the dictionary. */
  lemma ItemsFromPairs<K, V>(d: ODict<K, V>)
    ensures FromPairs(Items(d)) == d
  {
    var items := Items(d);
    assert Firsts(items) == d.keys;
    FromPairsDistinct(items);
    var r := FromPairs(items);
    assert r.keys == d.keys;
    forall k | k in d.vals ensures k in r.vals && r.vals[k] == d.vals[k] {
      var i :| 0 <= i < |d.keys| && d.keys[i] == k;
      assert items[i].0 == k;
    }
    forall k | k in r.vals ensures k in d.vals {
      assert k in r.keys;
    }
    assert r.vals == d.vals;
  }
}
