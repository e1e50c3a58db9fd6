/**
  Python's `dict` as an insertion-ordered sequence of (key, value) pairs with
  unique keys. `d.update(o)` walks `o` in its own order; assigning to a key that
  is present replaces its value in place, a new key is appended at the end.
 */
module OrderedMap {
  import opened Wrappers
  import opened Sequences

  /** The keys in insertion order (`list(d.keys())`). */
  function Keys<K, V>(m: seq<(K, V)>): (ks: seq<K>)
    ensures |ks| == |m|
    ensures forall i :: 0 <= i < |m| ==> ks[i] == m[i].0
  {
    seq(|m|, i requires 0 <= i < |m| => m[i].0)
  }

  /** The dict invariant: no key occurs twice. */
  predicate UniqueKeys<K(==), V>(m: seq<(K, V)>)
  {
    Distinct(Keys(m))
  }

  lemma KeysCons<K, V>(h: (K, V), t: seq<(K, V)>)
    ensures Keys([h] + t) == [h.0] + Keys(t)
  {
  }

  lemma KeysSnoc<K, V>(p: seq<(K, V)>, x: (K, V))
    ensures Keys(p + [x]) == Keys(p) + [x.0]
  {
  }

  /** A pair in front of a dict keeps keys unique exactly when its key is new. */
  lemma UniqueKeysCons<K, V>(h: (K, V), t: seq<(K, V)>)
    ensures UniqueKeys([h] + t) <==> UniqueKeys(t) && h.0 !in Keys(t)
  {
    KeysCons(h, t);
    DistinctCons(h.0, Keys(t));
  }

  /** `d.get(k)`: the value stored under `k`, if any. */
  function Lookup<K(==), V>(m: seq<(K, V)>, k: K): (r: Option<V>)
    ensures r.Some? <==> k in Keys(m)
    ensures r.Some? ==> (k, r.value) in m
  {
    if k in Keys(m) then Some(m[IndexOf(Keys(m), k)].1) else None
  }

  /** In a dict, the pair at a key's position carries that key's value. */
  lemma LookupAt<K, V>(m: seq<(K, V)>, i: nat)
    requires UniqueKeys(m) && i < |m|
    ensures Lookup(m, m[i].0) == Some(m[i].1)
  {
    assert Keys(m)[i] == m[i].0;
  }

  /** `d[k] = v`. */
  function Update<K(==), V>(m: seq<(K, V)>, k: K, v: V): (r: seq<(K, V)>)
    requires UniqueKeys(m)
    ensures UniqueKeys(r)
    ensures Keys(r) == if k in Keys(m) then Keys(m) else Keys(m) + [k]
    ensures Lookup(r, k) == Some(v)
  {
    var ks := Keys(m);
    if k in ks then
      var i := IndexOf(ks, k);
      var r := m[i := (k, v)];
      assert Keys(r) == ks;
      LookupAt(r, i);
      r
    else
      var r := m + [(k, v)];
      assert Keys(r) == ks + [k];
      assert forall j :: 0 <= j < |m| ==> r[j] == m[j];
      LookupAt(r, |m|);
      r
  }

  /** `d[k] = v` leaves every other key's value alone. */
  lemma UpdateLookupOther<K, V>(m: seq<(K, V)>, k: K, v: V, k': K)
    requires UniqueKeys(m) && k' != k
    ensures Lookup(Update(m, k, v), k') == Lookup(m, k')
  {
    var r := Update(m, k, v);
    if k' in Keys(m) {
      var i := IndexOf(Keys(m), k');
      LookupAt(m, i);
      assert r[i] == m[i];
      LookupAt(r, i);
    }
  }

  /** `d.update(o)`: every pair of `o`, in `o`'s order, written into `d`. */
  function UpdateAll<K(==), V>(m: seq<(K, V)>, o: seq<(K, V)>): (r: seq<(K, V)>)
    requires UniqueKeys(m)
    ensures UniqueKeys(r)
    decreases |o|
  {
    if |o| == 0 then m
    else Update(UpdateAll(m, o[..|o| - 1]), o[|o| - 1].0, o[|o| - 1].1)
  }

  /** After `d.update(o)` the keys are those of `d` followed by the new keys of `o`,
      each at the position of its first appearance. */
  lemma {:induction false} UpdateAllKeys<K, V>(m: seq<(K, V)>, o: seq<(K, V)>)
    requires UniqueKeys(m)
    ensures Keys(UpdateAll(m, o)) == Dedup(Keys(m) + Keys(o))
    decreases |o|
  {
    if |o| == 0 {
      assert Keys(m) + Keys(o) == Keys(m);
      DedupDistinct(Keys(m));
    } else {
      var p := o[..|o| - 1];
      var last := o[|o| - 1];
      var q := UpdateAll(m, p);
      var ks := Keys(m) + Keys(p);
      assert Keys(q) == Dedup(ks) by {
        UpdateAllKeys(m, p);
      }
      assert Keys(m) + Keys(o) == ks + [last.0] by {
        assert o == p + [last];
        KeysSnoc(p, last);
      }
      assert Dedup(ks + [last.0]) == if last.0 in Dedup(ks) then Dedup(ks) else Dedup(ks) + [last.0] by {
        DedupSnoc(ks, last.0);
      }
      assert UpdateAll(m, o) == Update(q, last.0, last.1);
    }
  }

  /** Dropping the last pair of a dict leaves a dict that agrees on every remaining key. */
  lemma DropLast<K, V>(o: seq<(K, V)>, k: K)
    requires UniqueKeys(o) && |o| > 0
    ensures UniqueKeys(o[..|o| - 1])
    ensures Keys(o) == Keys(o[..|o| - 1]) + [o[|o| - 1].0]
    ensures k in Keys(o[..|o| - 1]) ==> Lookup(o[..|o| - 1], k) == Lookup(o, k)
  {
    var p := o[..|o| - 1];
    assert forall j :: 0 <= j < |p| ==> Keys(p)[j] == Keys(o)[j];
    assert Keys(o) == Keys(p) + [o[|o| - 1].0];
    if k in Keys(p) {
      var i := IndexOf(Keys(p), k);
      LookupAt(p, i);
      LookupAt(o, i);
    }
  }

  /** After `d.update(o)` a key of `o` carries `o`'s value; every other key keeps its value. */
  lemma {:induction false} UpdateAllLookup<K, V>(m: seq<(K, V)>, o: seq<(K, V)>, k: K)
    requires UniqueKeys(m) && UniqueKeys(o)
    ensures Lookup(UpdateAll(m, o), k) == if k in Keys(o) then Lookup(o, k) else Lookup(m, k)
    decreases |o|
  {
    if |o| > 0 {
      var p := o[..|o| - 1];
      var last := o[|o| - 1];
      DropLast(o, k);
      var q := UpdateAll(m, p);
      assert UpdateAll(m, o) == Update(q, last.0, last.1);
      if k == last.0 {
        LookupAt(o, |o| - 1);
      } else {
        UpdateAllLookup(m, p, k);
        UpdateLookupOther(q, last.0, last.1, k);
      }
    }
  }

  /** Updating with `a` and then with `b` is updating with `a + b`. */
  lemma {:induction false} UpdateAllConcat<K, V>(m: seq<(K, V)>, a: seq<(K, V)>, b: seq<(K, V)>)
    requires UniqueKeys(m)
    ensures UpdateAll(UpdateAll(m, a), b) == UpdateAll(m, a + b)
    decreases |b|
  {
    if |b| == 0 {
      assert a + b == a;
    } else {
      var last := b[|b| - 1];
      UpdateAllConcat(m, a, b[..|b| - 1]);
      assert (a + b)[..|a + b| - 1] == a + b[..|b| - 1];
      assert (a + b)[|a + b| - 1] == last;
    }
  }

  /** All pairs of all layers, layer after layer. */
  function Flatten<K, V>(layers: seq<seq<(K, V)>>): seq<(K, V)>
  {
    if |layers| == 0 then [] else Flatten(layers[..|layers| - 1]) + layers[|layers| - 1]
  }

  /** A key occurs among all the layers' pairs exactly when some layer has it. */
  lemma {:induction false} FlattenKeys<K, V>(layers: seq<seq<(K, V)>>, k: K)
    ensures k in Keys(Flatten(layers)) <==> exists i :: 0 <= i < |layers| && k in Keys(layers[i])
  {
    if |layers| > 0 {
      var p := layers[..|layers| - 1];
      var last := layers[|layers| - 1];
      FlattenKeys(p, k);
      assert Keys(Flatten(layers)) == Keys(Flatten(p)) + Keys(last);
      assert forall i :: 0 <= i < |p| ==> p[i] == layers[i];
    }
  }

  /** Starting from `{}`, `update` with each layer in turn. */
  function MergeLayers<K(==), V>(layers: seq<seq<(K, V)>>): (r: seq<(K, V)>)
    ensures UniqueKeys(r)
  {
    if |layers| == 0 then []
    else UpdateAll(MergeLayers(layers[..|layers| - 1]), layers[|layers| - 1])
  }

  /** Merging layer by layer is one `update` with all their pairs in sequence. */
  lemma {:induction false} MergeLayersIsOneUpdate<K, V>(layers: seq<seq<(K, V)>>)
    ensures MergeLayers(layers) == UpdateAll([], Flatten(layers))
  {
    if |layers| == 0 {
      assert UniqueKeys<K, V>([]);
    } else {
      var p := layers[..|layers| - 1];
      MergeLayersIsOneUpdate(p);
      UpdateAllConcat([], Flatten(p), layers[|layers| - 1]);
    }
  }

  /** The merged keys are the keys of all layers, each once, at the position of its
      first appearance in the layers. */
  lemma MergeLayersKeys<K, V>(layers: seq<seq<(K, V)>>)
    ensures Keys(MergeLayers(layers)) == Dedup(Keys(Flatten(layers)))
  {
    MergeLayersIsOneUpdate(layers);
    UpdateAllKeys([], Flatten(layers));
    assert Keys<K, V>([]) + Keys(Flatten(layers)) == Keys(Flatten(layers));
  }

  /** Reference definition of precedence: the value of `k` in the last layer that
      defines it, if any layer does. */
  function LastDefinition<K(==), V>(layers: seq<seq<(K, V)>>, k: K): Option<V>
  {
    if |layers| == 0 then None
    else if k in Keys(layers[|layers| - 1]) then Lookup(layers[|layers| - 1], k)
    else LastDefinition(layers[..|layers| - 1], k)
  }

  /** Every layer is itself a dict. */
  predicate AllUnique<K(==), V>(layers: seq<seq<(K, V)>>)
  {
    forall i :: 0 <= i < |layers| ==> UniqueKeys(layers[i])
  }

  /** Last writer wins: a key's merged value comes from the last layer that defines it. */
  lemma {:induction false} MergeLayersLookup<K, V>(layers: seq<seq<(K, V)>>, k: K)
    requires AllUnique(layers)
    ensures Lookup(MergeLayers(layers), k) == LastDefinition(layers, k)
  {
    if |layers| > 0 {
      var p := layers[..|layers| - 1];
      assert AllUnique(p) by {
        assert forall i :: 0 <= i < |p| ==> p[i] == layers[i];
      }
      MergeLayersLookup(p, k);
      assert UniqueKeys(layers[|layers| - 1]);
      UpdateAllLookup(MergeLayers(p), layers[|layers| - 1], k);
    }
  }

  /** Some layer defines `k` exactly when one of the layers has it as a key. */
  lemma {:induction false} LastDefinitionDefined<K, V>(layers: seq<seq<(K, V)>>, k: K)
    ensures LastDefinition(layers, k).Some? <==> exists i :: 0 <= i < |layers| && k in Keys(layers[i])
  {
    if |layers| > 0 {
      var p := layers[..|layers| - 1];
      LastDefinitionDefined(p, k);
      assert forall i :: 0 <= i < |p| ==> p[i] == layers[i];
    }
  }

  /** The layer that defines `k` and is followed by no other layer defining it decides
      the value. */
  lemma {:induction false} LastDefinitionAt<K, V>(layers: seq<seq<(K, V)>>, j: nat, k: K)
    requires j < |layers| && k in Keys(layers[j])
    requires forall i :: j < i < |layers| ==> k !in Keys(layers[i])
    ensures LastDefinition(layers, k) == Lookup(layers[j], k)
  {
    if j < |layers| - 1 {
      var p := layers[..|layers| - 1];
      assert forall i :: 0 <= i < |p| ==> p[i] == layers[i];
      LastDefinitionAt(p, j, k);
    }
  }
}
