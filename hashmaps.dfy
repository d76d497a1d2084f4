/**
 * The iteration of a Rust `HashMap`, shared by the resolver of module
 * `Output` and its prototype in module `SimpleTree`. A `HashMap` visits
 * its keys in an order the program does not choose; it is the same order
 * for every iteration of a map that is not modified. The model makes that
 * order an explicit sequence of the map's keys.
 */
module HashMaps {

  /** `order` lists every key of `m` exactly once. */
  ghost predicate IsIterationOrder<K(!new), V>(order: seq<K>, m: map<K, V>) {
    && (forall i, j | 0 <= i < j < |order| :: order[i] != order[j])
    && (forall k :: k in m <==> k in order)
  }

  /** Every key in `order` is a key of `m`. */
  predicate KeysOf<K, V>(order: seq<K>, m: map<K, V>) {
    forall k | k in order :: k in m
  }

  /** The iteration of a `HashMap`: every key once, in an order this model does not fix. */
  method IterationOrder<K(!new), V>(m: map<K, V>) returns (order: seq<K>)
    ensures IsIterationOrder(order, m)
  {
    order := [];
    var keys := m.Keys;
    while keys != {}
      invariant forall i, j | 0 <= i < j < |order| :: order[i] != order[j]
      invariant forall k :: k in m <==> k in order || k in keys
      invariant forall k | k in keys :: k !in order
      decreases keys
    {
      var k :| k in keys;
      order := order + [k];
      keys := keys - {k};
    }
  }

  /** Some position of `xs` that holds `x`. */
  function IndexOf<K(==)>(xs: seq<K>, x: K): (i: nat)
    requires x in xs
    ensures i < |xs| && xs[i] == x
  {
    if xs[0] == x then 0 else 1 + IndexOf(xs[1..], x)
  }
}
