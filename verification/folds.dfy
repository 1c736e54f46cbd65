/**
 * Generic folds behind the graph builder: inserting values into a map under
 * a key function (the node pass), and concatenating per-element lists (the
 * pending-edge pass). Proved once here, for any key and any element type.
 */
module Folds {

  /** Inserts each `x` of `xs` under `key(x)`, in order; a later value replaces an earlier one with the same key. */
  function InsertAll<K(==), V>(m: map<K, V>, xs: seq<V>, key: V -> K): (r: map<K, V>)
    decreases |xs|
  {
    if xs == [] then m
    else InsertAll(m, xs[..|xs| - 1], key)[key(xs[|xs| - 1]) := xs[|xs| - 1]]
  }

  /** The concatenation of `f(x)` over `xs`, in order. */
  function FlatMap<A, B>(xs: seq<A>, f: A -> seq<B>): (ys: seq<B>)
    decreases |xs|
  {
    if xs == [] then [] else FlatMap(xs[..|xs| - 1], f) + f(xs[|xs| - 1])
  }

  predicate DistinctBy<K(==), V>(xs: seq<V>, key: V -> K) {
    forall i, j :: 0 <= i < j < |xs| ==> key(xs[i]) != key(xs[j])
  }

  /** No later element of `xs` has the key of `xs[i]`. */
  predicate LastWithKey<K(==), V>(xs: seq<V>, key: V -> K, i: int)
    requires 0 <= i < |xs|
  {
    forall j :: i < j < |xs| ==> key(xs[j]) != key(xs[i])
  }

  lemma {:induction false} InsertAllAppend<K, V>(m: map<K, V>, a: seq<V>, b: seq<V>, key: V -> K)
    ensures InsertAll(m, a + b, key) == InsertAll(InsertAll(m, a, key), b, key)
    decreases |b|
  {
    if b == [] {
      assert a + b == a;
    } else {
      assert (a + b)[..|a + b| - 1] == a + b[..|b| - 1];
      InsertAllAppend(m, a, b[..|b| - 1], key);
    }
  }

  /** Every inserted value's key is in the map. */
  lemma {:induction false} InsertedKey<K, V>(xs: seq<V>, key: V -> K, i: int)
    requires 0 <= i < |xs|
    ensures key(xs[i]) in InsertAll(map[], xs, key)
    decreases |xs|
  {
    var n := |xs| - 1;
    if i < n {
      InsertedKey(xs[..n], key, i);
      assert xs[..n][i] == xs[i];
    }
  }

  /** Every entry of the map sits under its own key and holds a value that was inserted. */
  lemma {:induction false} StoredValue<K, V>(xs: seq<V>, key: V -> K, k: K)
    requires k in InsertAll(map[], xs, key)
    ensures key(InsertAll(map[], xs, key)[k]) == k
    ensures InsertAll(map[], xs, key)[k] in xs
    decreases |xs|
  {
    var n := |xs| - 1;
    var init := xs[..n];
    if k != key(xs[n]) {
      StoredValue(init, key, k);
      var v := InsertAll(map[], init, key)[k];
      var j :| 0 <= j < |init| && init[j] == v;
      assert xs[j] == v;
    } else {
      assert xs[n] in xs;
    }
  }

  /** The value under a key is the last value inserted with that key. */
  lemma {:induction false} LastValueWins<K, V>(xs: seq<V>, key: V -> K, i: int)
    requires 0 <= i < |xs| && LastWithKey(xs, key, i)
    ensures key(xs[i]) in InsertAll(map[], xs, key)
    ensures InsertAll(map[], xs, key)[key(xs[i])] == xs[i]
    decreases |xs|
  {
    var n := |xs| - 1;
    var init := xs[..n];
    if i < n {
      assert key(xs[n]) != key(xs[i]);
      assert LastWithKey(init, key, i) by {
        forall j | i < j < |init| ensures key(init[j]) != key(init[i]) {
          assert init[j] == xs[j];
        }
      }
      LastValueWins(init, key, i);
    }
  }

  lemma MapUpdateSize<K, V>(m: map<K, V>, k: K, v: V)
    ensures |m[k := v]| == if k in m then |m| else |m| + 1
  {
    if k in m {
      assert m[k := v].Keys == m.Keys;
    } else {
      assert m[k := v].Keys == m.Keys + {k};
    }
  }

  /** The map holds at most one entry per inserted value. */
  lemma {:induction false} InsertAllSize<K, V>(xs: seq<V>, key: V -> K)
    ensures |InsertAll(map[], xs, key)| <= |xs|
    decreases |xs|
  {
    if xs != [] {
      var n := |xs| - 1;
      InsertAllSize(xs[..n], key);
      MapUpdateSize(InsertAll(map[], xs[..n], key), key(xs[n]), xs[n]);
    }
  }

  /** The map holds one entry per inserted value exactly when no two values share a key. */
  lemma {:induction false} InsertAllCount<K, V>(xs: seq<V>, key: V -> K)
    ensures |InsertAll(map[], xs, key)| == |xs| <==> DistinctBy(xs, key)
    decreases |xs|
  {
    if xs != [] {
      var n := |xs| - 1;
      var init, x := xs[..n], xs[n];
      var m := InsertAll(map[], init, key);
      InsertAllCount(init, key);
      InsertAllSize(init, key);
      MapUpdateSize(m, key(x), x);
      if key(x) in m {
        StoredValue(init, key, key(x));
        var j :| 0 <= j < |init| && init[j] == m[key(x)];
        assert key(xs[j]) == key(xs[n]);
      } else if DistinctBy(init, key) {
        forall i, j | 0 <= i < j < |xs| ensures key(xs[i]) != key(xs[j]) {
          if j < n {
            assert xs[i] == init[i] && xs[j] == init[j];
          } else {
            InsertedKey(init, key, i);
          }
        }
      } else {
        var i, j :| 0 <= i < j < |init| && key(init[i]) == key(init[j]);
        assert key(xs[i]) == key(xs[j]);
      }
    }
  }

  lemma {:induction false} FlatMapAppend<A, B>(a: seq<A>, b: seq<A>, f: A -> seq<B>)
    ensures FlatMap(a + b, f) == FlatMap(a, f) + FlatMap(b, f)
    decreases |b|
  {
    if b == [] {
      assert a + b == a;
    } else {
      assert (a + b)[..|a + b| - 1] == a + b[..|b| - 1];
      FlatMapAppend(a, b[..|b| - 1], f);
    }
  }

  /** An element is in a flat map exactly when it is in the image of some element. */
  lemma {:induction false} FlatMapMember<A, B>(xs: seq<A>, f: A -> seq<B>, y: B)
    ensures y in FlatMap(xs, f) <==> exists i :: 0 <= i < |xs| && y in f(xs[i])
    decreases |xs|
  {
    if xs != [] {
      var n := |xs| - 1;
      var init := xs[..n];
      FlatMapMember(init, f, y);
      if y in FlatMap(init, f) {
        var i :| 0 <= i < |init| && y in f(init[i]);
        assert xs[i] == init[i];
      } else if y in f(xs[n]) {
      } else {
        forall i | 0 <= i < |xs| ensures y !in f(xs[i]) {
          if i < n {
            assert xs[i] == init[i];
          }
        }
      }
    }
  }
}
