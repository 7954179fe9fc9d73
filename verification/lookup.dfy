/**
 `Enumerable.ToLookup` over a list of (key, element) pairs: the elements
 grouped by key, groups in the order their keys are first seen, elements
 within a group in list order.
 */
module Lookup {

  /** A lookup, as the sequence of its groupings. */
  type Groups<K, V> = seq<(K, seq<V>)>

  /** The keys of the pairs, or of the groups, in order. */
  function KeysOf<K(==), V>(pairs: seq<(K, V)>): (ks: seq<K>)
    ensures |ks| == |pairs|
    ensures forall i :: 0 <= i < |pairs| ==> ks[i] == pairs[i].0
  {
    seq(|pairs|, i requires 0 <= i < |pairs| => pairs[i].0)
  }

  /** Reference definition: the elements paired with `k`, in list order. */
  function Select<K(==), V>(pairs: seq<(K, V)>, k: K): seq<V>
  {
    if pairs == [] then []
    else
      var last := pairs[|pairs| - 1];
      Select(pairs[..|pairs| - 1], k) + (if last.0 == k then [last.1] else [])
  }

  /** The elements of the group keyed `k`; empty when there is none. */
  function Find<K(==), V>(g: Groups<K, V>, k: K): seq<V>
  {
    if g == [] then []
    else if g[0].0 == k then g[0].1
    else Find(g[1..], k)
  }

  /** Position of the first occurrence of `k`. */
  function FirstIndex<K(==)>(ks: seq<K>, k: K): (i: nat)
    requires k in ks
    ensures i < |ks| && ks[i] == k
    ensures forall j :: 0 <= j < i ==> ks[j] != k
  {
    if ks[0] == k then 0 else 1 + FirstIndex(ks[1..], k)
  }

  predicate Distinct<K(==)>(ks: seq<K>) {
    forall i, j :: 0 <= i < j < |ks| ==> ks[i] != ks[j]
  }

  /** Adds one element to its group, opening a new group at the end for a new key. */
  function Add<K(==), V>(g: Groups<K, V>, k: K, v: V): (g': Groups<K, V>)
    ensures |g'| == |g| || |g'| == |g| + 1
  {
    if g == [] then [(k, [v])]
    else if g[0].0 == k then [(k, g[0].1 + [v])] + g[1..]
    else [g[0]] + Add(g[1..], k, v)
  }

  /** `pairs.ToLookup(p => p.Item1, p => p.Item2)`. */
  function ToLookup<K(==), V>(pairs: seq<(K, V)>): Groups<K, V>
  {
    if pairs == [] then []
    else
      var last := pairs[|pairs| - 1];
      Add(ToLookup(pairs[..|pairs| - 1]), last.0, last.1)
  }

  lemma {:induction false} AddKeys<K, V>(g: Groups<K, V>, k: K, v: V)
    ensures k in KeysOf(g) ==> KeysOf(Add(g, k, v)) == KeysOf(g)
    ensures k !in KeysOf(g) ==> KeysOf(Add(g, k, v)) == KeysOf(g) + [k]
    decreases |g|
  {
    if g != [] && g[0].0 != k {
      AddKeys(g[1..], k, v);
      assert KeysOf(g) == [g[0].0] + KeysOf(g[1..]);
      assert KeysOf(Add(g, k, v)) == [g[0].0] + KeysOf(Add(g[1..], k, v));
    } else if g != [] {
      assert KeysOf(Add(g, k, v)) == KeysOf(g);
    }
  }

  lemma {:induction false} AddFind<K, V>(g: Groups<K, V>, k: K, v: V, k': K)
    ensures Find(Add(g, k, v), k') == Find(g, k') + (if k == k' then [v] else [])
    decreases |g|
  {
    if g != [] && g[0].0 != k {
      AddFind(g[1..], k, v, k');
      assert Add(g, k, v)[1..] == Add(g[1..], k, v);
    } else if g != [] {
      assert Add(g, k, v)[1..] == g[1..];
    }
  }

  lemma {:induction false} AddNonEmpty<K, V>(g: Groups<K, V>, k: K, v: V)
    requires forall i :: 0 <= i < |g| ==> g[i].1 != []
    ensures var g' := Add(g, k, v); forall i :: 0 <= i < |g'| ==> g'[i].1 != []
    decreases |g|
  {
    if g != [] && g[0].0 != k {
      AddNonEmpty(g[1..], k, v);
      var g' := Add(g, k, v);
      forall i | 0 <= i < |g'| ensures g'[i].1 != [] {
        if i > 0 { assert g'[i] == Add(g[1..], k, v)[i - 1]; }
      }
    }
  }

  lemma KeysOfSnoc<K, V>(pairs: seq<(K, V)>)
    requires pairs != []
    ensures KeysOf(pairs) == KeysOf(pairs[..|pairs| - 1]) + [pairs[|pairs| - 1].0]
  {
  }

  lemma {:induction false} FirstIndexSnoc<K>(ks: seq<K>, x: K, k: K)
    requires k in ks
    ensures FirstIndex(ks + [x], k) == FirstIndex(ks, k)
    decreases |ks|
  {
    if ks[0] != k {
      assert (ks + [x])[1..] == ks[1..] + [x];
      FirstIndexSnoc(ks[1..], x, k);
    }
  }

  /**
   Everything `ToLookup` promises: one group per distinct key, in the order
   the keys first occur; each group holds exactly the elements paired with
   its key, in list order; no group is empty; every element lands in one group.
   */
  lemma {:induction false} ToLookupSpec<K, V>(pairs: seq<(K, V)>)
    ensures var g := ToLookup(pairs);
            && Distinct(KeysOf(g))
            && (forall k :: k in KeysOf(g) <==> k in KeysOf(pairs))
            && (forall k :: Find(g, k) == Select(pairs, k))
            && (forall i :: 0 <= i < |g| ==> g[i].1 != [])
            && (forall i, j :: 0 <= i < j < |g| ==>
                  FirstIndex(KeysOf(pairs), g[i].0) < FirstIndex(KeysOf(pairs), g[j].0))
    decreases |pairs|
  {
    var g := ToLookup(pairs);
    if pairs != [] {
      var init := pairs[..|pairs| - 1];
      var last := pairs[|pairs| - 1];
      var g0 := ToLookup(init);
      ToLookupSpec(init);
      assert g == Add(g0, last.0, last.1);
      AddKeys(g0, last.0, last.1);
      AddNonEmpty(g0, last.0, last.1);
      KeysOfSnoc(pairs);
      var ks0 := KeysOf(init);
      assert KeysOf(pairs) == ks0 + [last.0];
      forall k ensures Find(g, k) == Select(pairs, k) {
        AddFind(g0, last.0, last.1, k);
      }
      forall i | 0 <= i < |g0| ensures FirstIndex(KeysOf(pairs), g0[i].0) == FirstIndex(ks0, g0[i].0) {
        assert g0[i].0 == KeysOf(g0)[i];
        FirstIndexSnoc(ks0, last.0, g0[i].0);
      }
      if last.0 !in KeysOf(g0) {
        assert last.0 !in ks0;
        assert FirstIndex(KeysOf(pairs), last.0) == |ks0|;
        assert KeysOf(g) == KeysOf(g0) + [last.0];
        forall i, j | 0 <= i < j < |g|
          ensures FirstIndex(KeysOf(pairs), g[i].0) < FirstIndex(KeysOf(pairs), g[j].0)
        {
          assert g[i].0 == KeysOf(g)[i] == KeysOf(g0)[i] == g0[i].0;
          if j < |g0| {
            assert g[j].0 == KeysOf(g)[j] == g0[j].0;
          } else {
            assert g[j].0 == KeysOf(g)[j] == last.0;
          }
        }
      } else {
        assert KeysOf(g) == KeysOf(g0);
        forall i | 0 <= i < |g| ensures g[i].0 == g0[i].0 {
          assert g[i].0 == KeysOf(g)[i];
        }
      }
    }
  }

  /** The group keyed `k` holds exactly the elements paired with `k`, in list order. */
  lemma ToLookupFind<K, V>(pairs: seq<(K, V)>, k: K)
    ensures Find(ToLookup(pairs), k) == Select(pairs, k)
  {
    ToLookupSpec(pairs);
  }

  /** There is a group for `k` exactly when some pair has key `k`. */
  lemma ToLookupHasKey<K, V>(pairs: seq<(K, V)>, k: K)
    ensures k in KeysOf(ToLookup(pairs)) <==> k in KeysOf(pairs)
  {
    ToLookupSpec(pairs);
  }

  /** Every element of the pairs is in exactly one group: the sizes add up. */
  lemma {:induction false} ToLookupSize<K, V>(pairs: seq<(K, V)>)
    ensures Size(ToLookup(pairs)) == |pairs|
    decreases |pairs|
  {
    if pairs != [] {
      var init := pairs[..|pairs| - 1];
      var last := pairs[|pairs| - 1];
      ToLookupSize(init);
      AddSize(ToLookup(init), last.0, last.1);
    }
  }

  /** Number of elements over all groups. */
  function Size<K(==), V>(g: Groups<K, V>): nat
  {
    if g == [] then 0 else |g[0].1| + Size(g[1..])
  }

  lemma {:induction false} AddSize<K, V>(g: Groups<K, V>, k: K, v: V)
    ensures Size(Add(g, k, v)) == Size(g) + 1
    decreases |g|
  {
    if g != [] && g[0].0 != k {
      AddSize(g[1..], k, v);
      assert Add(g, k, v)[1..] == Add(g[1..], k, v);
    } else if g != [] {
      assert Add(g, k, v)[1..] == g[1..];
    }
  }

  /** The lookup is empty exactly when there were no pairs. */
  lemma ToLookupEmpty<K, V>(pairs: seq<(K, V)>)
    ensures ToLookup(pairs) == [] <==> pairs == []
  {
    ToLookupSize(pairs);
  }
}
