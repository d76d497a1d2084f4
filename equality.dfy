/**
 * How features, programs and graphs are compared and presented
 * (program_ingester/src/output.rs, and the copy in
 * feature_ingester/src/output.rs): child lists are put in order of start
 * date by a stable sort before they are compared or serialized.
 *
 * The hand-written `PartialEq` is meant to make the comparison blind to
 * the order in which a `HashMap` happened to yield the children. It is not
 * when two siblings start at the same instant: the stable sort then keeps
 * them in their original order. `Shape` gives the order-blind comparison
 * that was meant; `ResolveOrderIndependent` and `GraphOrderIndependent`
 * prove that the resolver's result is the same under it for every
 * iteration order.
 */
module Equality {
  import opened Wrappers
  import opened Input
  import opened FeatureMaps
  import opened Output
  import opened Ordering
  import opened HashMaps

  function FeatureStart(f: Feature): int {
    f.startDate
  }

  function ProgramStart(p: Program): int {
    p.root.startDate
  }

  /** The list `odered_features` serializes: the subfeatures in order of start date. */
  function OrderedFeatures(fs: seq<Feature>): seq<Feature> {
    SortByKey(fs, FeatureStart)
  }

  /** The list `odered_programs` serializes: the programs in order of their root's start date. */
  function OrderedPrograms(ps: seq<Program>): seq<Program> {
    SortByKey(ps, ProgramStart)
  }

  /**
   * `PartialEq for Feature`, as written: the five scalar fields are equal,
   * and the subfeature lists, each stably sorted by start date, are
   * element-wise equal under this same comparison.
   */
  predicate FeatureEq(a: Feature, b: Feature)
    decreases a
  {
    var these := OrderedFeatures(a.subfeatures);
    var those := OrderedFeatures(b.subfeatures);
    && a.id == b.id
    && a.progressStatus == b.progressStatus
    && a.assignedTeam == b.assignedTeam
    && a.startDate == b.startDate
    && a.endDate == b.endDate
    && |these| == |those|
    && forall i | 0 <= i < |these| :: (assert these[i] in multiset(a.subfeatures); FeatureEq(these[i], those[i]))
  }

  /** The derived `PartialEq for Program`: equal ids and equal roots. */
  predicate ProgramEq(p: Program, q: Program) {
    p.id == q.id && FeatureEq(p.root, q.root)
  }

  /** `PartialEq for ProgramGraph`: the program lists, each stably sorted by root start date, are element-wise equal. */
  predicate GraphEq(g: ProgramGraph, h: ProgramGraph) {
    var these := OrderedPrograms(g.programs);
    var those := OrderedPrograms(h.programs);
    |these| == |those| && forall i | 0 <= i < |these| :: ProgramEq(these[i], those[i])
  }

  /** A feature with its subfeatures as a multiset: the tree as the comparison means to see it. */
  datatype Shape = Shape(
    id: FeatureId,
    progressStatus: string,
    assignedTeam: string,
    startDate: Timestamp,
    endDate: Timestamp,
    subfeatures: multiset<Shape>)

  function ShapeOf(f: Feature): Shape
    decreases f, 1
  {
    Shape(f.id, f.progressStatus, f.assignedTeam, f.startDate, f.endDate, ShapesOf(f.subfeatures))
  }

  function ShapesOf(fs: seq<Feature>): multiset<Shape>
    decreases fs, 0
  {
    if fs == [] then multiset{} else multiset{ShapeOf(fs[0])} + ShapesOf(fs[1..])
  }

  lemma {:induction false} ShapesOfIsBag(fs: seq<Feature>)
    ensures ShapesOf(fs) == Bag(ShapeOf, fs)
    decreases |fs|
  {
    if fs != [] {
      ShapesOfIsBag(fs[1..]);
    }
  }

  /** The order-blind comparison of features that `PartialEq for Feature` is meant to be. */
  predicate SameFeature(a: Feature, b: Feature) {
    ShapeOf(a) == ShapeOf(b)
  }

  /** A program with its root's shape. */
  datatype ProgramShape = ProgramShape(id: string, root: Shape)

  function ProgramShapeOf(p: Program): ProgramShape {
    ProgramShape(p.id, ShapeOf(p.root))
  }

  /** The order-blind comparison of graphs that `PartialEq for ProgramGraph` is meant to be. */
  predicate SameGraph(g: ProgramGraph, h: ProgramGraph) {
    Bag(ProgramShapeOf, g.programs) == Bag(ProgramShapeOf, h.programs)
  }

  /** `SameFeature` does not look at the order of subfeatures, at any depth. */
  lemma SameFeatureIgnoresOrder(a: Feature, b: Feature)
    requires a.id == b.id && a.progressStatus == b.progressStatus && a.assignedTeam == b.assignedTeam
    requires a.startDate == b.startDate && a.endDate == b.endDate
    requires multiset(a.subfeatures) == multiset(b.subfeatures)
    ensures SameFeature(a, b)
  {
    ShapesOfIsBag(a.subfeatures);
    ShapesOfIsBag(b.subfeatures);
    BagPermutation(ShapeOf, a.subfeatures, b.subfeatures);
  }

  /** `SameGraph` does not look at the order of programs. */
  lemma SameGraphIgnoresOrder(g: ProgramGraph, h: ProgramGraph)
    requires multiset(g.programs) == multiset(h.programs)
    ensures SameGraph(g, h)
  {
    BagPermutation(ProgramShapeOf, g.programs, h.programs);
  }

  /**
   * The comparison as written never calls different trees equal: features
   * it finds equal have the same shape.
   */
  lemma {:induction false} FeatureEqSound(a: Feature, b: Feature)
    requires FeatureEq(a, b)
    ensures SameFeature(a, b)
    decreases a
  {
    var these := OrderedFeatures(a.subfeatures);
    var those := OrderedFeatures(b.subfeatures);
    forall i | 0 <= i < |these| ensures ShapeOf(these[i]) == ShapeOf(those[i]) {
      assert these[i] in multiset(a.subfeatures);
      FeatureEqSound(these[i], those[i]);
    }
    BagPointwise(ShapeOf, ShapeOf, these, those);
    BagPermutation(ShapeOf, these, a.subfeatures);
    BagPermutation(ShapeOf, those, b.subfeatures);
    ShapesOfIsBag(a.subfeatures);
    ShapesOfIsBag(b.subfeatures);
  }

  /** Graphs that `PartialEq for ProgramGraph` finds equal are the same graph. */
  lemma GraphEqSound(g: ProgramGraph, h: ProgramGraph)
    requires GraphEq(g, h)
    ensures SameGraph(g, h)
  {
    var these := OrderedPrograms(g.programs);
    var those := OrderedPrograms(h.programs);
    forall i | 0 <= i < |these| ensures ProgramShapeOf(these[i]) == ProgramShapeOf(those[i]) {
      FeatureEqSound(these[i].root, those[i].root);
    }
    BagPointwise(ProgramShapeOf, ProgramShapeOf, these, those);
    BagPermutation(ProgramShapeOf, these, g.programs);
    BagPermutation(ProgramShapeOf, those, h.programs);
  }

  /** `PartialEq for Feature` is reflexive. */
  lemma {:induction false} FeatureEqReflexive(a: Feature)
    ensures FeatureEq(a, a)
    decreases a
  {
    var these := OrderedFeatures(a.subfeatures);
    forall i | 0 <= i < |these| ensures FeatureEq(these[i], these[i]) {
      assert these[i] in multiset(a.subfeatures);
      FeatureEqReflexive(these[i]);
    }
  }

  /** `PartialEq for ProgramGraph` is reflexive. */
  lemma GraphEqReflexive(g: ProgramGraph)
    ensures GraphEq(g, g)
  {
    var these := OrderedPrograms(g.programs);
    forall i | 0 <= i < |these| ensures ProgramEq(these[i], these[i]) {
      FeatureEqReflexive(these[i].root);
    }
  }

  function ShapeStart(s: Shape): int {
    s.startDate
  }

  /**
   * At every level of the tree, subfeatures that start at the same instant
   * have the same shape: no tie the stable sort could leave in an order
   * that matters.
   */
  predicate Untied(s: Shape)
    decreases s
  {
    && (forall x, y | x in s.subfeatures && y in s.subfeatures && x.startDate == y.startDate :: x == y)
    && (forall x | x in s.subfeatures :: Untied(x))
  }

  /**
   * Without ties, the comparison as written is the order-blind comparison
   * that was meant: features of the same shape are equal under `PartialEq`.
   */
  lemma {:induction false} FeatureEqComplete(a: Feature, b: Feature)
    requires SameFeature(a, b) && Untied(ShapeOf(a))
    ensures FeatureEq(a, b)
    decreases a
  {
    var these := OrderedFeatures(a.subfeatures);
    var those := OrderedFeatures(b.subfeatures);
    SortedShapesAgree(a, b);
    forall i | 0 <= i < |these| ensures FeatureEq(these[i], those[i]) {
      assert these[i] in multiset(a.subfeatures);
      ShapeInShapes(a.subfeatures, these[i]);
      FeatureEqComplete(these[i], those[i]);
    }
  }

  /** The sorted subfeature lists of two features of the same untied shape agree shape by shape. */
  lemma SortedShapesAgree(a: Feature, b: Feature)
    requires SameFeature(a, b) && Untied(ShapeOf(a))
    ensures var these, those := OrderedFeatures(a.subfeatures), OrderedFeatures(b.subfeatures);
      |these| == |those| && forall i | 0 <= i < |these| :: ShapeOf(these[i]) == ShapeOf(those[i])
  {
    var these := OrderedFeatures(a.subfeatures);
    var those := OrderedFeatures(b.subfeatures);
    SortedShapes(a);
    SortedShapes(b);
    assert UntiedBag(Bag(ShapeOf, these), ShapeStart);
    ShapeKeys();
    SortedBagsAgree(ShapeOf, FeatureStart, ShapeStart, these, those);
  }

  /** The sorted subfeature list is sorted and has the feature's subfeature shapes. */
  lemma SortedShapes(a: Feature)
    ensures var these := OrderedFeatures(a.subfeatures);
      SortedBy(these, FeatureStart) && Bag(ShapeOf, these) == ShapeOf(a).subfeatures
  {
    var these := OrderedFeatures(a.subfeatures);
    SortByKeySorted(a.subfeatures, FeatureStart);
    BagPermutation(ShapeOf, these, a.subfeatures);
    ShapesOfIsBag(a.subfeatures);
  }

  lemma ShapeKeys()
    ensures KeyOfImage(ShapeOf, FeatureStart, ShapeStart)
  {
  }

  /** A subfeature's shape is among the shapes of its list. */
  lemma {:induction false} ShapeInShapes(fs: seq<Feature>, f: Feature)
    requires f in multiset(fs)
    ensures ShapeOf(f) in ShapesOf(fs)
    decreases |fs|
  {
    if fs[0] != f {
      assert fs == [fs[0]] + fs[1..];
      ShapeInShapes(fs[1..], f);
    }
  }

  function ProgramShapeStart(p: ProgramShape): int {
    p.root.startDate
  }

  /** No two programs with different shapes start together, and every program's tree is untied. */
  predicate UntiedGraph(g: ProgramGraph) {
    var shapes := Bag(ProgramShapeOf, g.programs);
    && (forall v, w | v in shapes && w in shapes && v.root.startDate == w.root.startDate :: v == w)
    && (forall v | v in shapes :: Untied(v.root))
  }

  /**
   * Without ties, `PartialEq for ProgramGraph` is exactly the order-blind
   * comparison: with `GraphEqSound`, graphs are equal under it if and only
   * if they are the same graph.
   */
  lemma GraphEqComplete(g: ProgramGraph, h: ProgramGraph)
    requires SameGraph(g, h) && UntiedGraph(g)
    ensures GraphEq(g, h)
  {
    var these := OrderedPrograms(g.programs);
    var those := OrderedPrograms(h.programs);
    SortByKeySorted(g.programs, ProgramStart);
    SortByKeySorted(h.programs, ProgramStart);
    BagPermutation(ProgramShapeOf, these, g.programs);
    BagPermutation(ProgramShapeOf, those, h.programs);
    SortedBagsAgree(ProgramShapeOf, ProgramStart, ProgramShapeStart, these, those);
    forall i | 0 <= i < |these| ensures ProgramEq(these[i], those[i]) {
      assert ProgramShapeOf(these[i]) in Bag(ProgramShapeOf, these) by {
        BagMember(ProgramShapeOf, these, i);
      }
      FeatureEqComplete(these[i].root, those[i].root);
    }
  }

  /** Stands in for an entry that does not resolve; never compared with a real shape. */
  const NoShape := Shape("", "", "", 0, 0, multiset{})

  /** The shape of the feature the entry `k` resolves to below the path `visited`. */
  function EntryShape(m: FeatureMap, order: seq<FeatureId>, visited: set<FeatureId>, k: FeatureId): Shape {
    if KeysOf(order, m) && k in m && m[k].data.Some? then
      match Resolve(m, order, m[k].children, visited + {k})
      case Success(subfeatures) => ShapeOf(FeatureOf(m[k].data.value, subfeatures))
      case Failure(_) => NoShape
    else NoShape
  }

  /** A resolution succeeds exactly when every picked entry is off the path and resolves. */
  lemma ResolveSucceedsIff(m: FeatureMap, order: seq<FeatureId>, childIds: seq<FeatureId>, visited: set<FeatureId>)
    requires KeysOf(order, m)
    ensures Resolve(m, order, childIds, visited).Success? <==>
            forall k | k in PickedKeys(m, order, childIds, 0) ::
              k !in visited && Resolve(m, order, m[k].children, visited + {k}).Success?
  {
    var keys := PickedKeys(m, order, childIds, 0);
    ResolveFromSpec(m, order, childIds, visited, 0);
    if Resolve(m, order, childIds, visited).Success? {
      forall k | k in keys ensures k !in visited && Resolve(m, order, m[k].children, visited + {k}).Success? {
        var j := IndexOf(keys, k);
      }
    }
    if forall k | k in keys :: k !in visited && Resolve(m, order, m[k].children, visited + {k}).Success? {
      ResolveFromSucceeds(m, order, childIds, visited, 0);
    }
  }

  /** The shapes of a successful resolution are the shapes of the picked entries. */
  lemma ResolveShapes(m: FeatureMap, order: seq<FeatureId>, childIds: seq<FeatureId>, visited: set<FeatureId>)
    requires KeysOf(order, m)
    requires Resolve(m, order, childIds, visited).Success?
    ensures ShapesOf(Resolve(m, order, childIds, visited).value) ==
            Bag(k => EntryShape(m, order, visited, k), PickedKeys(m, order, childIds, 0))
  {
    var r := Resolve(m, order, childIds, visited).value;
    ResolveFromSpec(m, order, childIds, visited, 0);
    ShapesOfIsBag(r);
    BagPointwise(ShapeOf, k => EntryShape(m, order, visited, k), r, PickedKeys(m, order, childIds, 0));
  }

  /**
   * `resolve_subfeatures` gives the same result, up to the order of
   * siblings at every depth, for every iteration order of the map; and
   * whether it reaches an entry below itself does not depend on the order
   * either.
   */
  lemma {:induction false} ResolveOrderIndependent(m: FeatureMap, o1: seq<FeatureId>, o2: seq<FeatureId>,
                                                   childIds: seq<FeatureId>, visited: set<FeatureId>)
    requires IsIterationOrder(o1, m) && IsIterationOrder(o2, m)
    ensures KeysOf(o1, m) && KeysOf(o2, m)
    ensures var r1 := Resolve(m, o1, childIds, visited);
            var r2 := Resolve(m, o2, childIds, visited);
      && (r1.Success? <==> r2.Success?)
      && (r1.Success? ==> ShapesOf(r1.value) == ShapesOf(r2.value))
    decreases |m.Keys - visited|
  {
    var keys1 := PickedKeys(m, o1, childIds, 0);
    var keys2 := PickedKeys(m, o2, childIds, 0);
    SamePickedKeys(m, o1, o2, childIds);
    forall k | k in keys1 && k !in visited
      ensures Resolve(m, o1, m[k].children, visited + {k}).Success? <==>
              Resolve(m, o2, m[k].children, visited + {k}).Success?
      ensures EntryShape(m, o1, visited, k) == EntryShape(m, o2, visited, k)
    {
      assert m.Keys - visited == (m.Keys - (visited + {k})) + {k};
      ResolveOrderIndependent(m, o1, o2, m[k].children, visited + {k});
    }
    ResolveSucceedsIff(m, o1, childIds, visited);
    ResolveSucceedsIff(m, o2, childIds, visited);
    if Resolve(m, o1, childIds, visited).Success? {
      SameEntryShapes(m, o1, o2, childIds, visited);
    }
  }

  /**
   * The step of `ResolveOrderIndependent` below one level: when every picked
   * entry has the same shape under both orders, both resolutions have the
   * same shapes.
   */
  lemma SameEntryShapes(m: FeatureMap, o1: seq<FeatureId>, o2: seq<FeatureId>,
                        childIds: seq<FeatureId>, visited: set<FeatureId>)
    requires IsIterationOrder(o1, m) && IsIterationOrder(o2, m)
    requires Resolve(m, o1, childIds, visited).Success? && Resolve(m, o2, childIds, visited).Success?
    requires forall k | k in PickedKeys(m, o1, childIds, 0) :: EntryShape(m, o1, visited, k) == EntryShape(m, o2, visited, k)
    ensures ShapesOf(Resolve(m, o1, childIds, visited).value) == ShapesOf(Resolve(m, o2, childIds, visited).value)
  {
    SamePickedKeys(m, o1, o2, childIds);
    ResolveShapes(m, o1, childIds, visited);
    ResolveShapes(m, o2, childIds, visited);
    PickedKeysDistinct(m, o1, childIds, 0);
    PickedKeysDistinct(m, o2, childIds, 0);
    BagOfSameElements(k => EntryShape(m, o1, visited, k), k => EntryShape(m, o2, visited, k),
                      PickedKeys(m, o1, childIds, 0), PickedKeys(m, o2, childIds, 0));
  }

  /** Both iteration orders pick the same entries. */
  lemma SamePickedKeys(m: FeatureMap, o1: seq<FeatureId>, o2: seq<FeatureId>, childIds: seq<FeatureId>)
    requires IsIterationOrder(o1, m) && IsIterationOrder(o2, m)
    ensures KeysOf(o1, m) && KeysOf(o2, m)
    ensures forall k :: k in PickedKeys(m, o1, childIds, 0) <==> k in PickedKeys(m, o2, childIds, 0)
  {
    forall k ensures k in PickedKeys(m, o1, childIds, 0) <==> k in PickedKeys(m, o2, childIds, 0) {
      if k in m {
        assert o1[IndexOf(o1, k)] == k && o2[IndexOf(o2, k)] == k;
      }
    }
  }

  /** The shape of the program the root entry `k` builds. */
  function RootShape(m: FeatureMap, order: seq<FeatureId>, k: FeatureId): ProgramShape {
    if KeysOf(order, m) && k in m && IsRootEntry(m, k) then
      match ProgramOf(m, order, k)
      case Success(program) => ProgramShapeOf(program)
      case Failure(_) => ProgramShape("", NoShape)
    else ProgramShape("", NoShape)
  }

  /** The build succeeds exactly when the program of every root entry builds. */
  lemma GraphSucceedsIff(m: FeatureMap, order: seq<FeatureId>)
    requires KeysOf(order, m)
    ensures GraphOf(m, order).Success? <==>
            forall k | k in RootKeys(m, order, 0) :: ProgramOf(m, order, k).Success?
  {
    var keys := RootKeys(m, order, 0);
    ProgramsFromSpec(m, order, 0);
    if GraphOf(m, order).Success? {
      forall k | k in keys ensures ProgramOf(m, order, k).Success? {
        var j := IndexOf(keys, k);
      }
    }
    if forall k | k in keys :: ProgramOf(m, order, k).Success? {
      ProgramsFromSucceeds(m, order, 0);
    }
  }

  /** The shapes of a successful build are the shapes of the root entries' programs. */
  lemma GraphShapes(m: FeatureMap, order: seq<FeatureId>)
    requires KeysOf(order, m)
    requires GraphOf(m, order).Success?
    ensures Bag(ProgramShapeOf, GraphOf(m, order).value.programs) ==
            Bag(k => RootShape(m, order, k), RootKeys(m, order, 0))
  {
    ProgramsFromSpec(m, order, 0);
    BagPointwise(ProgramShapeOf, k => RootShape(m, order, k), GraphOf(m, order).value.programs, RootKeys(m, order, 0));
  }

  lemma SameRootKeys(m: FeatureMap, o1: seq<FeatureId>, o2: seq<FeatureId>)
    requires IsIterationOrder(o1, m) && IsIterationOrder(o2, m)
    ensures KeysOf(o1, m) && KeysOf(o2, m)
    ensures forall k :: k in RootKeys(m, o1, 0) <==> k in RootKeys(m, o2, 0)
  {
    forall k ensures k in RootKeys(m, o1, 0) <==> k in RootKeys(m, o2, 0) {
      if k in m {
        assert o1[IndexOf(o1, k)] == k && o2[IndexOf(o2, k)] == k;
      }
    }
  }

  /** When every root entry's program has the same shape under both orders, both graphs are the same. */
  lemma SameRootShapes(m: FeatureMap, o1: seq<FeatureId>, o2: seq<FeatureId>)
    requires IsIterationOrder(o1, m) && IsIterationOrder(o2, m)
    requires GraphOf(m, o1).Success? && GraphOf(m, o2).Success?
    requires forall k | k in RootKeys(m, o1, 0) :: RootShape(m, o1, k) == RootShape(m, o2, k)
    ensures SameGraph(GraphOf(m, o1).value, GraphOf(m, o2).value)
  {
    SameRootKeys(m, o1, o2);
    GraphShapes(m, o1);
    GraphShapes(m, o2);
    RootKeysDistinct(m, o1, 0);
    RootKeysDistinct(m, o2, 0);
    BagOfSameElements(k => RootShape(m, o1, k), k => RootShape(m, o2, k), RootKeys(m, o1, 0), RootKeys(m, o2, 0));
  }

  /**
   * `ProgramGraph::from` builds the same graph, up to the order of programs
   * and of siblings at every depth, for every iteration order of the map;
   * and whether it fails does not depend on the order either.
   */
  lemma GraphOrderIndependent(m: FeatureMap, o1: seq<FeatureId>, o2: seq<FeatureId>)
    requires IsIterationOrder(o1, m) && IsIterationOrder(o2, m)
    ensures KeysOf(o1, m) && KeysOf(o2, m)
    ensures GraphOf(m, o1).Success? <==> GraphOf(m, o2).Success?
    ensures GraphOf(m, o1).Success? ==> SameGraph(GraphOf(m, o1).value, GraphOf(m, o2).value)
  {
    SameRootKeys(m, o1, o2);
    forall k | k in RootKeys(m, o1, 0)
      ensures ProgramOf(m, o1, k).Success? <==> ProgramOf(m, o2, k).Success?
      ensures RootShape(m, o1, k) == RootShape(m, o2, k)
    {
      ResolveOrderIndependent(m, o1, o2, m[k].children, {k});
    }
    GraphSucceedsIff(m, o1);
    GraphSucceedsIff(m, o2);
    if GraphOf(m, o1).Success? {
      SameRootShapes(m, o1, o2);
    }
  }

  /** A root and two of its children that start at the same instant. */
  const TieRoot := RawFeature("p", None, "prog", "s", "t", 0, 1)
  const TieLeft := RawFeature("x", Some("p"), "prog", "s", "t", 0, 1)
  const TieRight := RawFeature("y", Some("p"), "prog", "s", "t", 0, 1)

  /** The map the build loop makes of the three records. */
  const TieMap: FeatureMap :=
    map["p" := Entry(Some(TieRoot), ["x", "y"]), "x" := Entry(Some(TieLeft), []), "y" := Entry(Some(TieRight), [])]

  lemma TieMappings()
    ensures Mappings([TieRoot, TieLeft, TieRight]) == TieMap
  {
    var records := [TieRoot, TieLeft, TieRight];
    assert records[..2] == [TieRoot, TieLeft] && [TieRoot, TieLeft][..1] == [TieRoot] && [TieRoot][..0] == [];
    var m1 := map["p" := Entry(Some(TieRoot), [])];
    assert Mappings([TieRoot]) == m1;
    assert "p" != "x" && "p" != "y" && "x" != "y";
    assert [] + ["x"] == ["x"] && ["x"] + ["y"] == ["x", "y"];
    var m2 := map["p" := Entry(Some(TieRoot), ["x"]), "x" := Entry(Some(TieLeft), [])];
    assert UpsertParent(m1["x" := Entry(Some(TieLeft), [])], TieLeft) == m2;
    assert Mappings([TieRoot, TieLeft]) == m2;
    assert UpsertOwn(m2, TieRight) == m2["y" := Entry(Some(TieRight), [])];
  }

  /** `[p, a, b]` is an iteration order of the map, whose entries for `a` and `b` are childless non-roots. */
  lemma TieOrder(a: RawFeature, b: RawFeature)
    requires {a, b} == {TieLeft, TieRight}
    ensures var m := TieMap;
      && IsIterationOrder(["p", a.id, b.id], m)
      && m["p"] == Entry(Some(TieRoot), ["x", "y"])
      && m[a.id] == Entry(Some(a), []) && m[b.id] == Entry(Some(b), [])
      && a.id in ["x", "y"] && b.id in ["x", "y"] && a.id != "p" && b.id != "p"
      && !IsRootEntry(m, a.id) && !IsRootEntry(m, b.id)
  {
    var m := TieMap;
    assert a.id != b.id && a.id in m && b.id in m;
  }

  /** The children of the root resolve in the iteration order `[p, a, b]`. */
  lemma TieResolve(a: RawFeature, b: RawFeature)
    requires {a, b} == {TieLeft, TieRight}
    ensures var m := TieMap;
      && IsIterationOrder(["p", a.id, b.id], m)
      && m["p"] == Entry(Some(TieRoot), ["x", "y"])
      && !IsRootEntry(m, a.id) && !IsRootEntry(m, b.id)
      && Resolve(m, ["p", a.id, b.id], ["x", "y"], {"p"}) == Success([FeatureOf(a, []), FeatureOf(b, [])])
  {
    TieOrder(a, b);
    var m := TieMap;
    var o := ["p", a.id, b.id];
    var fa, fb := FeatureOf(a, []), FeatureOf(b, []);
    assert o[1] == a.id && o[2] == b.id;
    assert ResolveFrom(m, o, ["x", "y"], {"p"}, 3) == Success([]);
    LeafStep(m, o, ["x", "y"], {"p"}, 2);
    assert [fb] + [] == [fb];
    LeafStep(m, o, ["x", "y"], {"p"}, 1);
    assert [fa] + [fb] == [fa, fb];
    assert o[0] == "p" && !Picked(m, o[0], ["x", "y"]);
  }

  /** The graph built from the three records under the iteration order `[p, a, b]`. */
  lemma TieGraph(a: RawFeature, b: RawFeature)
    requires {a, b} == {TieLeft, TieRight}
    ensures var m := TieMap;
      && IsIterationOrder(["p", a.id, b.id], m)
      && GraphOf(m, ["p", a.id, b.id]) ==
           Success(ProgramGraph([Program("prog", FeatureOf(TieRoot, [FeatureOf(a, []), FeatureOf(b, [])]))]))
  {
    TieResolve(a, b);
    var m := TieMap;
    var o := ["p", a.id, b.id];
    assert o[1] == a.id && o[2] == b.id;
    assert ProgramsFrom(m, o, 2) == Success([]);
    assert ProgramsFrom(m, o, 1) == Success([]);
    var program := Program("prog", FeatureOf(TieRoot, [FeatureOf(a, []), FeatureOf(b, [])]));
    assert ProgramOf(m, o, "p") == Success(program);
    assert [program] + [] == [program];
  }

  /** A picked entry without children that is off the path adds one childless feature in front. */
  lemma LeafStep(m: FeatureMap, order: seq<FeatureId>, childIds: seq<FeatureId>, visited: set<FeatureId>, i: nat)
    requires i < |order| && KeysOf(order, m)
    requires order[i] in m && Picked(m, order[i], childIds) && order[i] !in visited && m[order[i]].children == []
    ensures ResolveFrom(m, order, childIds, visited, i + 1).Success? ==>
              ResolveFrom(m, order, childIds, visited, i) ==
                Success([FeatureOf(m[order[i]].data.value, [])] + ResolveFrom(m, order, childIds, visited, i + 1).value)
  {
    NothingPicked(m, order, visited + {order[i]});
  }

  /** An empty list of child ids resolves to no features. */
  lemma NothingPicked(m: FeatureMap, order: seq<FeatureId>, visited: set<FeatureId>)
    requires KeysOf(order, m)
    ensures Resolve(m, order, [], visited) == Success([])
  {
    NothingPickedFrom(m, order, visited, 0);
  }

  lemma {:induction false} NothingPickedFrom(m: FeatureMap, order: seq<FeatureId>, visited: set<FeatureId>, i: nat)
    requires i <= |order| && KeysOf(order, m)
    ensures ResolveFrom(m, order, [], visited, i) == Success([])
    decreases |order| - i
  {
    if i < |order| {
      NothingPickedFrom(m, order, visited, i + 1);
    }
  }

  /** `PartialEq` tells the two graphs apart. */
  lemma TieComparison()
    ensures var fx, fy := FeatureOf(TieLeft, []), FeatureOf(TieRight, []);
      !GraphEq(ProgramGraph([Program("prog", FeatureOf(TieRoot, [fx, fy]))]),
               ProgramGraph([Program("prog", FeatureOf(TieRoot, [fy, fx]))]))
  {
    var fx := FeatureOf(TieLeft, []);
    var fy := FeatureOf(TieRight, []);
    TiedRootsDiffer(TieRoot, fx, fy);
    var p1 := Program("prog", FeatureOf(TieRoot, [fx, fy]));
    var p2 := Program("prog", FeatureOf(TieRoot, [fy, fx]));
    SortByKeySortedUnchanged([p1], ProgramStart);
    SortByKeySortedUnchanged([p2], ProgramStart);
  }

  /**
   * Two siblings that start together and have different ids are kept in
   * place by the sort, so under any parent the comparison sees the two
   * listings differ.
   */
  lemma TiedRootsDiffer(d: RawFeature, a: Feature, b: Feature)
    requires a.startDate == b.startDate && a.id != b.id
    ensures !FeatureEq(FeatureOf(d, [a, b]), FeatureOf(d, [b, a]))
  {
    SortByKeySortedUnchanged([a, b], FeatureStart);
    SortByKeySortedUnchanged([b, a], FeatureStart);
    assert !FeatureEq(a, b);
  }

  /**
   * The comparison as written depends on the iteration order: a root `p`
   * with two children `x` and `y` that start at the same instant resolves
   * to `p[x, y]` under one order and to `p[y, x]` under the other; the
   * stable sort keeps both lists as they are, so `PartialEq` compares `x`
   * with `y` and calls the two graphs different, although they are the
   * same graph.
   */
  lemma TiedSiblingsBreakEquality()
    ensures var m := Mappings([TieRoot, TieLeft, TieRight]);
      && IsIterationOrder(["p", "x", "y"], m) && IsIterationOrder(["p", "y", "x"], m)
      && GraphOf(m, ["p", "x", "y"]).Success? && GraphOf(m, ["p", "y", "x"]).Success?
      && !GraphEq(GraphOf(m, ["p", "x", "y"]).value, GraphOf(m, ["p", "y", "x"]).value)
      && SameGraph(GraphOf(m, ["p", "x", "y"]).value, GraphOf(m, ["p", "y", "x"]).value)
  {
    TieMappings();
    TieGraphsCompared();
  }

  /** `TiedSiblingsBreakEquality` on the map itself. */
  lemma TieGraphsCompared()
    ensures && IsIterationOrder(["p", "x", "y"], TieMap) && IsIterationOrder(["p", "y", "x"], TieMap)
      && GraphOf(TieMap, ["p", "x", "y"]).Success? && GraphOf(TieMap, ["p", "y", "x"]).Success?
      && !GraphEq(GraphOf(TieMap, ["p", "x", "y"]).value, GraphOf(TieMap, ["p", "y", "x"]).value)
      && SameGraph(GraphOf(TieMap, ["p", "x", "y"]).value, GraphOf(TieMap, ["p", "y", "x"]).value)
  {
    TieGraph(TieLeft, TieRight);
    TieGraph(TieRight, TieLeft);
    TieComparison();
    GraphOrderIndependent(TieMap, ["p", "x", "y"], ["p", "y", "x"]);
  }
}
