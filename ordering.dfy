/**
 * `slice::sort_by_key`, which the equality and serializer code of
 * program_ingester/src/output.rs (and its copy) applies to cloned lists of
 * subfeatures and programs. The standard library promises a stable sort;
 * the model is an insertion sort proved sorted, a permutation, and stable.
 */
module Ordering {

  /** `xs` is in ascending order of `key`. */
  predicate SortedBy<T>(xs: seq<T>, key: T -> int) {
    forall i, j | 0 <= i < j < |xs| :: key(xs[i]) <= key(xs[j])
  }

  /** The elements of `xs` whose key is `v`, in their order in `xs`. */
  function WithKey<T>(xs: seq<T>, key: T -> int, v: int): seq<T>
    decreases |xs|
  {
    if xs == [] then []
    else (if key(xs[0]) == v then [xs[0]] else []) + WithKey(xs[1..], key, v)
  }

  /** `x` placed before the first element of the sorted `xs` whose key is not smaller. */
  function Insert<T>(x: T, xs: seq<T>, key: T -> int): seq<T>
    decreases |xs|
  {
    if xs == [] || key(x) <= key(xs[0]) then [x] + xs
    else [xs[0]] + Insert(x, xs[1..], key)
  }

  /** `xs.sort_by_key(key)` on a copy of `xs`. */
  function SortByKey<T>(xs: seq<T>, key: T -> int): (r: seq<T>)
    ensures |r| == |xs| && multiset(r) == multiset(xs)
    decreases |xs|
  {
    if xs == [] then []
    else
      InsertPermutes(xs[0], SortByKey(xs[1..], key), key);
      assert xs == [xs[0]] + xs[1..];
      Insert(xs[0], SortByKey(xs[1..], key), key)
  }

  lemma {:induction false} InsertPermutes<T>(x: T, xs: seq<T>, key: T -> int)
    ensures |Insert(x, xs, key)| == |xs| + 1
    ensures multiset(Insert(x, xs, key)) == multiset(xs) + multiset{x}
    decreases |xs|
  {
    if xs != [] && key(x) > key(xs[0]) {
      InsertPermutes(x, xs[1..], key);
      assert xs == [xs[0]] + xs[1..];
    }
  }

  lemma {:induction false} InsertSorted<T>(x: T, xs: seq<T>, key: T -> int)
    requires SortedBy(xs, key)
    ensures SortedBy(Insert(x, xs, key), key)
    decreases |xs|
  {
    if xs != [] && key(x) > key(xs[0]) {
      InsertSorted(x, xs[1..], key);
      InsertPermutes(x, xs[1..], key);
      var tail := Insert(x, xs[1..], key);
      forall j | 0 <= j < |tail| ensures key(xs[0]) <= key(tail[j]) {
        assert tail[j] in multiset(tail);
        if tail[j] != x {
          assert tail[j] in multiset(xs[1..]);
          var t :| 0 <= t < |xs[1..]| && xs[1..][t] == tail[j];
          assert xs[t + 1] == tail[j];
        }
      }
    }
  }

  /** Inserting into a sorted list puts `x` before every element with the same key. */
  lemma {:induction false} InsertStable<T>(x: T, xs: seq<T>, key: T -> int, v: int)
    requires SortedBy(xs, key)
    ensures WithKey(Insert(x, xs, key), key, v) == (if key(x) == v then [x] else []) + WithKey(xs, key, v)
    decreases |xs|
  {
    if xs == [] || key(x) <= key(xs[0]) {
      WithKeyCons(x, xs, key, v);
    } else {
      assert SortedBy(xs[1..], key);
      InsertStable(x, xs[1..], key, v);
      WithKeyCons(xs[0], Insert(x, xs[1..], key), key, v);
      WithKeyCons(xs[0], xs[1..], key, v);
      assert xs == [xs[0]] + xs[1..];
    }
  }

  lemma WithKeyCons<T>(y: T, ys: seq<T>, key: T -> int, v: int)
    ensures WithKey([y] + ys, key, v) == (if key(y) == v then [y] else []) + WithKey(ys, key, v)
  {
    assert ([y] + ys)[0] == y && ([y] + ys)[1..] == ys;
  }

  /** The sorted copy is in ascending key order. */
  lemma {:induction false} SortByKeySorted<T>(xs: seq<T>, key: T -> int)
    ensures SortedBy(SortByKey(xs, key), key)
    decreases |xs|
  {
    if xs != [] {
      SortByKeySorted(xs[1..], key);
      InsertSorted(xs[0], SortByKey(xs[1..], key), key);
    }
  }

  /** The sort is stable: the elements sharing a key keep their relative order. */
  lemma {:induction false} SortByKeyStable<T>(xs: seq<T>, key: T -> int, v: int)
    ensures WithKey(SortByKey(xs, key), key, v) == WithKey(xs, key, v)
    decreases |xs|
  {
    if xs != [] {
      SortByKeyStable(xs[1..], key, v);
      SortByKeySorted(xs[1..], key);
      InsertStable(xs[0], SortByKey(xs[1..], key), key, v);
    }
  }

  /** A list already in key order is left as it is: the sort never swaps elements with equal keys. */
  lemma {:induction false} SortByKeySortedUnchanged<T>(xs: seq<T>, key: T -> int)
    requires SortedBy(xs, key)
    ensures SortByKey(xs, key) == xs
    decreases |xs|
  {
    if xs != [] {
      assert SortedBy(xs[1..], key);
      SortByKeySortedUnchanged(xs[1..], key);
      assert xs == [xs[0]] + xs[1..];
    }
  }

  /** The multiset of the images of the elements of `xs`: what is left of a list once its order is forgotten. */
  function Bag<A, B>(f: A -> B, xs: seq<A>): multiset<B>
    decreases |xs|
  {
    if xs == [] then multiset{} else multiset{f(xs[0])} + Bag(f, xs[1..])
  }

  lemma {:induction false} BagAppend<A, B>(f: A -> B, xs: seq<A>, ys: seq<A>)
    ensures Bag(f, xs + ys) == Bag(f, xs) + Bag(f, ys)
    decreases |xs|
  {
    if xs == [] {
      assert xs + ys == ys;
    } else {
      assert (xs + ys)[1..] == xs[1..] + ys;
      BagAppend(f, xs[1..], ys);
    }
  }

  /** Lists that are permutations of each other have the same bag of images. */
  lemma {:induction false} BagPermutation<A, B>(f: A -> B, xs: seq<A>, ys: seq<A>)
    requires multiset(xs) == multiset(ys)
    ensures Bag(f, xs) == Bag(f, ys)
    decreases |xs|
  {
    if xs != [] {
      var x := xs[0];
      assert x in multiset(ys);
      var j :| 0 <= j < |ys| && ys[j] == x;
      PermutationTail(xs, ys, j);
      BagPermutation(f, xs[1..], ys[..j] + ys[j + 1..]);
      BagRemove(f, ys, j);
    }
  }

  /** Taking the head of `xs` out of its permutation `ys` leaves a permutation of the tail. */
  lemma PermutationTail<T>(xs: seq<T>, ys: seq<T>, j: nat)
    requires multiset(xs) == multiset(ys) && xs != [] && j < |ys| && ys[j] == xs[0]
    ensures multiset(xs[1..]) == multiset(ys[..j] + ys[j + 1..])
  {
    RemoveOne(ys, j);
    assert xs == [xs[0]] + xs[1..];
    assert multiset(xs) == multiset{xs[0]} + multiset(xs[1..]);
  }

  /** The bag of a list is the image of one element plus the bag of the rest. */
  lemma BagRemove<A, B>(f: A -> B, ys: seq<A>, j: nat)
    requires j < |ys|
    ensures Bag(f, ys) == multiset{f(ys[j])} + Bag(f, ys[..j] + ys[j + 1..])
  {
    var x := ys[j];
    assert ys == (ys[..j] + [x]) + ys[j + 1..];
    BagAppend(f, ys[..j] + [x], ys[j + 1..]);
    BagAppend(f, ys[..j], [x]);
    BagAppend(f, ys[..j], ys[j + 1..]);
    assert [x][1..] == [];
    assert Bag(f, [x]) == multiset{f(x)};
  }

  /** Taking out the element at `j` takes one copy of it out of the multiset. */
  lemma RemoveOne<T>(ys: seq<T>, j: nat)
    requires j < |ys|
    ensures multiset(ys[..j] + ys[j + 1..]) == multiset(ys) - multiset{ys[j]}
  {
    assert ys == ys[..j] + [ys[j]] + ys[j + 1..];
    assert multiset(ys) == multiset(ys[..j] + ys[j + 1..]) + multiset{ys[j]};
  }

  function Id<A>(x: A): A {
    x
  }

  /** The bag of the identity is the multiset of the list. */
  lemma {:induction false} BagIdentity<A>(xs: seq<A>)
    ensures Bag(Id, xs) == multiset(xs)
    decreases |xs|
  {
    if xs != [] {
      BagIdentity(xs[1..]);
      assert xs == [xs[0]] + xs[1..];
    }
  }

  /** Lists whose images agree position by position have the same bag. */
  lemma {:induction false} BagPointwise<A, B, C>(f: A -> C, g: B -> C, xs: seq<A>, ys: seq<B>)
    requires |xs| == |ys| && forall j | 0 <= j < |xs| :: f(xs[j]) == g(ys[j])
    ensures Bag(f, xs) == Bag(g, ys)
    decreases |xs|
  {
    if xs != [] {
      BagPointwise(f, g, xs[1..], ys[1..]);
    }
  }

  /**
   * Two lists without repetitions and with the same elements, mapped by
   * functions that agree on those elements, have the same bag of images.
   */
  lemma BagOfSameElements<A, B>(f: A -> B, g: A -> B, xs: seq<A>, ys: seq<A>)
    requires forall a, b | 0 <= a < b < |xs| :: xs[a] != xs[b]
    requires forall a, b | 0 <= a < b < |ys| :: ys[a] != ys[b]
    requires forall x :: x in xs <==> x in ys
    requires forall x | x in xs :: f(x) == g(x)
    ensures Bag(f, xs) == Bag(g, ys)
  {
    DistinctPermutation(xs, ys);
    BagPermutation(f, xs, ys);
    forall j | 0 <= j < |ys| ensures f(ys[j]) == g(ys[j]) {
      assert ys[j] in xs;
    }
    BagPointwise(f, g, ys, ys);
  }

  /** In a list without repetitions every element occurs once. */
  lemma {:induction false} DistinctCount<T>(xs: seq<T>, x: T)
    requires forall a, b | 0 <= a < b < |xs| :: xs[a] != xs[b]
    ensures multiset(xs)[x] == if x in xs then 1 else 0
    decreases |xs|
  {
    if xs != [] {
      assert xs == [xs[0]] + xs[1..];
      DistinctCount(xs[1..], x);
      if x == xs[0] {
        assert x !in xs[1..];
      }
    }
  }

  /** Two lists without repetitions and with the same elements are permutations of each other. */
  lemma DistinctPermutation<T>(xs: seq<T>, ys: seq<T>)
    requires forall a, b | 0 <= a < b < |xs| :: xs[a] != xs[b]
    requires forall a, b | 0 <= a < b < |ys| :: ys[a] != ys[b]
    requires forall x :: x in xs <==> x in ys
    ensures multiset(xs) == multiset(ys)
  {
    forall x ensures multiset(xs)[x] == multiset(ys)[x] {
      DistinctCount(xs, x);
      DistinctCount(ys, x);
    }
  }

  /** Every value in the bag of `xs` is the image of an element of `xs`. */
  lemma {:induction false} BagHas<A, B>(f: A -> B, xs: seq<A>, v: B) returns (k: nat)
    requires v in Bag(f, xs)
    ensures k < |xs| && f(xs[k]) == v
    decreases |xs|
  {
    if f(xs[0]) == v {
      k := 0;
    } else {
      var t := BagHas(f, xs[1..], v);
      k := t + 1;
    }
  }

  /** `key` is read off the image under `f`. */
  ghost predicate KeyOfImage<A(!new), B>(f: A -> B, key: A -> int, imageKey: B -> int) {
    forall x :: imageKey(f(x)) == key(x)
  }

  /** Values in `bag` that share a key are equal. */
  ghost predicate UntiedBag<B>(bag: multiset<B>, imageKey: B -> int) {
    forall v, w | v in bag && w in bag && imageKey(v) == imageKey(w) :: v == w
  }

  /**
   * Two lists sorted by the same key whose images form the same bag agree
   * image by image, provided images in the bag that share a key are equal:
   * the order of equal keys is then invisible through `f`.
   */
  lemma {:induction false} SortedBagsAgree<A(!new), B>(f: A -> B, key: A -> int, imageKey: B -> int, xs: seq<A>, ys: seq<A>)
    requires KeyOfImage(f, key, imageKey) && UntiedBag(Bag(f, xs), imageKey)
    requires SortedBy(xs, key) && SortedBy(ys, key) && Bag(f, xs) == Bag(f, ys)
    ensures |xs| == |ys| && forall i | 0 <= i < |xs| :: f(xs[i]) == f(ys[i])
    decreases |xs|
  {
    if xs != [] {
      HeadsAgree(f, key, imageKey, xs, ys);
      TailsUntied(f, key, imageKey, xs, ys);
      SortedBagsAgree(f, key, imageKey, xs[1..], ys[1..]);
      forall i | 1 <= i < |xs| ensures f(xs[i]) == f(ys[i]) {
        assert f(xs[1..][i - 1]) == f(ys[1..][i - 1]);
      }
    }
  }

  /** With equal heads, the tails of such lists are again such lists. */
  lemma TailsUntied<A, B>(f: A -> B, key: A -> int, imageKey: B -> int, xs: seq<A>, ys: seq<A>)
    requires UntiedBag(Bag(f, xs), imageKey)
    requires SortedBy(xs, key) && SortedBy(ys, key) && Bag(f, xs) == Bag(f, ys)
    requires xs != [] && ys != [] && f(xs[0]) == f(ys[0])
    ensures UntiedBag(Bag(f, xs[1..]), imageKey)
    ensures SortedBy(xs[1..], key) && SortedBy(ys[1..], key) && Bag(f, xs[1..]) == Bag(f, ys[1..])
  {
    assert Bag(f, xs) == multiset{f(xs[0])} + Bag(f, xs[1..]);
    assert Bag(f, ys) == multiset{f(xs[0])} + Bag(f, ys[1..]);
    assert Bag(f, xs[1..]) <= Bag(f, xs);
  }

  /** The first elements of such lists have the least key, so their images share a key and are equal. */
  lemma HeadsAgree<A(!new), B>(f: A -> B, key: A -> int, imageKey: B -> int, xs: seq<A>, ys: seq<A>)
    requires KeyOfImage(f, key, imageKey) && UntiedBag(Bag(f, xs), imageKey)
    requires SortedBy(xs, key) && SortedBy(ys, key) && Bag(f, xs) == Bag(f, ys) && xs != []
    ensures ys != [] && f(xs[0]) == f(ys[0])
  {
    assert f(xs[0]) in Bag(f, xs);
    var j := BagHas(f, ys, f(xs[0]));
    assert f(ys[0]) in Bag(f, ys);
    var k := BagHas(f, xs, f(ys[0]));
    assert key(xs[0]) <= key(xs[k]) && key(ys[0]) <= key(ys[j]);
    assert imageKey(f(xs[0])) == key(xs[0]) && imageKey(f(ys[0])) == key(ys[0]);
  }

  /** The image of every element is in the bag. */
  lemma {:induction false} BagMember<A, B>(f: A -> B, xs: seq<A>, i: nat)
    requires i < |xs|
    ensures f(xs[i]) in Bag(f, xs)
    decreases i
  {
    if i > 0 {
      BagMember(f, xs[1..], i - 1);
    }
  }
}
