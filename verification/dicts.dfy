/**
 An insertion-ordered dictionary, the shape of a Python `dict`: a sequence of
 key/value pairs whose keys are pairwise distinct. Iteration order is the
 order of the sequence, which is why the model keeps a sequence and not a
 `map`; `ToMap` gives the order-free view.
 */
module Dicts {
  import opened Results

  /** The keys of `d`, in iteration order. */
  function Keys<K, V>(d: seq<(K, V)>): (ks: seq<K>)
    ensures |ks| == |d|
  {
    if |d| == 0 then [] else [d[0].0] + Keys(d[1..])
  }

  /** No key occurs twice. */
  predicate DistinctKeys<K(==), V>(d: seq<(K, V)>) {
    |d| > 0 ==> d[0].0 !in Keys(d[1..]) && DistinctKeys(d[1..])
  }

  type Dict<K(==), V> = d: seq<(K, V)> | DistinctKeys(d) witness []

  /** `d.get(k)`: the value stored under `k`, if any. */
  function Get<K(==, !new), V>(d: Dict<K, V>, k: K): (r: Option<V>)
    ensures r.Some? <==> k in Keys(d)
    ensures r.Some? ==> (k, r.value) in d
  {
    if |d| == 0 then None
    else if d[0].0 == k then Some(d[0].1)
    else Get(d[1..], k)
  }

  /** `d[k] = v`: an existing key keeps its position, a new key goes last. */
  function Set<K(==, !new), V>(d: Dict<K, V>, k: K, v: V): (r: Dict<K, V>)
    ensures Keys(r) == if k in Keys(d) then Keys(d) else Keys(d) + [k]
    ensures forall j :: Get(r, j) == if j == k then Some(v) else Get(d, j)
  {
    if |d| == 0 then
      var r := [(k, v)];
      assert r[1..] == [];
      r
    else if d[0].0 == k then
      var r := [(k, v)] + d[1..];
      assert r[1..] == d[1..];
      r
    else
      var rest := Set(d[1..], k, v);
      var r := [d[0]] + rest;
      assert r[1..] == rest;
      assert k !in Keys(d) ==> [d[0].0] + (Keys(d[1..]) + [k]) == Keys(d) + [k];
      r
  }

  /** `d.update(o)`: the entries of `o` are stored one by one, in `o`'s order. */
  function Update<K(==, !new), V>(d: Dict<K, V>, o: Dict<K, V>): (r: Dict<K, V>)
    ensures forall j :: Get(r, j) == if j in Keys(o) then Get(o, j) else Get(d, j)
    decreases |o|
  {
    if |o| == 0 then d else Update(Set(d, o[0].0, o[0].1), o[1..])
  }

  /** The elements of `ks` that are not in `seen`, in their order. */
  function Fresh<K(==)>(ks: seq<K>, seen: seq<K>): seq<K>
  {
    if |ks| == 0 then [] else (if ks[0] in seen then [] else [ks[0]]) + Fresh(ks[1..], seen)
  }

  /** The order-free view of a dictionary. */
  function ToMap<K(==, !new), V>(d: Dict<K, V>): (m: map<K, V>)
    ensures forall j :: j in m <==> j in Keys(d)
    ensures forall j | j in m :: Get(d, j) == Some(m[j])
  {
    if |d| == 0 then map[] else ToMap(d[1..])[d[0].0 := d[0].1]
  }

  /** The keys of an entry followed by a dictionary. */
  lemma KeysCons<K, V>(x: (K, V), d: seq<(K, V)>)
    ensures Keys([x] + d) == [x.0] + Keys(d)
  {
    assert ([x] + d)[1..] == d;
  }

  /** Storing a key the dictionary lacks appends the entry. */
  lemma {:induction false} SetNewKey<K(!new), V>(d: Dict<K, V>, k: K, v: V)
    requires k !in Keys(d)
    ensures Set(d, k, v) == d + [(k, v)]
  {
    if |d| > 0 {
      assert d == [d[0]] + d[1..];
      KeysCons(d[0], d[1..]);
      SetNewKey(d[1..], k, v);
      assert [d[0]] + (d[1..] + [(k, v)]) == d + [(k, v)];
    }
  }

  /** Fresh keys of a list that starts with `x`. */
  lemma FreshCons<K(!new)>(x: K, ks: seq<K>, seen: seq<K>)
    ensures Fresh([x] + ks, seen) == (if x in seen then [] else [x]) + Fresh(ks, seen)
  {
    assert ([x] + ks)[1..] == ks;
  }

  /** Adding to `seen` a key that `ks` does not hold changes nothing. */
  lemma {:induction false} FreshIgnoresAbsent<K(!new)>(ks: seq<K>, seen: seq<K>, x: K)
    requires x !in ks
    ensures Fresh(ks, seen + [x]) == Fresh(ks, seen)
  {
    if |ks| > 0 {
      FreshIgnoresAbsent(ks[1..], seen, x);
    }
  }

  /**
   `dict.update` ordering: the keys of `d` keep their positions and the keys
   of `o` that `d` lacked follow, in `o`'s order.
   */
  lemma {:induction false} UpdateKeyOrder<K(!new), V>(d: Dict<K, V>, o: Dict<K, V>)
    ensures Keys(Update(d, o)) == Keys(d) + Fresh(Keys(o), Keys(d))
    decreases |o|
  {
    if |o| > 0 {
      var k, v, rest := o[0].0, o[0].1, o[1..];
      UpdateKeyOrder(Set(d, k, v), rest);
      FreshHead(d, o);
      FreshAfterSet(d, o);
      AppendAfterOrder(Keys(d), k, Fresh(Keys(rest), Keys(d)));
    }
  }

  /** The fresh keys of `o` start with its first key unless `d` has it. */
  lemma FreshHead<K(!new), V>(d: Dict<K, V>, o: Dict<K, V>)
    requires |o| > 0
    ensures Fresh(Keys(o), Keys(d))
         == (if o[0].0 in Keys(d) then [] else [o[0].0]) + Fresh(Keys(o[1..]), Keys(d))
  {
    assert o == [o[0]] + o[1..];
    KeysCons(o[0], o[1..]);
    FreshCons(o[0].0, Keys(o[1..]), Keys(d));
  }

  /** Storing the first key of `o` does not change which of its other keys are fresh. */
  lemma FreshAfterSet<K(!new), V>(d: Dict<K, V>, o: Dict<K, V>)
    requires |o| > 0
    ensures Fresh(Keys(o[1..]), Keys(Set(d, o[0].0, o[0].1))) == Fresh(Keys(o[1..]), Keys(d))
  {
    if o[0].0 !in Keys(d) {
      assert o[0].0 !in Keys(o[1..]);
      FreshIgnoresAbsent(Keys(o[1..]), Keys(d), o[0].0);
    }
  }

  /** The sequence algebra closing `UpdateKeyOrder`'s inductive step. */
  lemma AppendAfterOrder<K>(ks: seq<K>, k: K, tail: seq<K>)
    ensures (if k in ks then ks else ks + [k]) + tail == ks + ((if k in ks then [] else [k]) + tail)
  {
    if k !in ks {
      assert (ks + [k]) + tail == ks + ([k] + tail);
    } else {
      assert [] + tail == tail;
    }
  }

  /** As maps, `update` is the right-biased union. */
  lemma UpdateAsMap<K(!new), V>(d: Dict<K, V>, o: Dict<K, V>)
    ensures ToMap(Update(d, o)) == ToMap(d) + ToMap(o)
  {
    var r := ToMap(Update(d, o));
    var u := ToMap(d) + ToMap(o);
    assert r.Keys == u.Keys;
    forall j | j in r
      ensures r[j] == u[j]
    {
      assert Get(Update(d, o), j) == Some(r[j]);
    }
  }

  /** The updated dictionary is empty exactly when both inputs are. */
  lemma UpdateEmptyIff<K(!new), V>(d: Dict<K, V>, o: Dict<K, V>)
    ensures |Update(d, o)| == 0 <==> |d| == 0 && |o| == 0
  {
    var r := Update(d, o);
    if |d| > 0 {
      assert Get(d, d[0].0).Some?;
      assert Get(r, d[0].0).Some?;
    } else if |o| > 0 {
      assert Get(o, o[0].0).Some?;
      assert Get(r, o[0].0).Some?;
    }
  }
}
