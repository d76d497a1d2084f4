/**
 * The order of the input records (program_ingester/src/output.rs, the build
 * loop of `ProgramGraph::from`): when no two records share an id, the
 * records can arrive in any order. The finished maps then have the same
 * keys and records, and child lists that are permutations of each other.
 * The resolver only asks whether an id is in a child list, so it builds
 * the same graph up to the order of programs and children.
 */
module InputOrder {
  import opened Wrappers
  import opened Input
  import opened FeatureMaps
  import opened Output
  import opened Equality
  import opened HashMaps
  import Ordering

  /* The finished map */

  /** The records a sequence holds, whatever their order. */
  lemma SameMembers(rs: seq<RawFeature>, rs': seq<RawFeature>)
    requires multiset(rs) == multiset(rs')
    ensures forall x :: x in rs <==> x in rs'
  {
    forall x ensures x in rs <==> x in rs' {
      assert x in rs <==> x in multiset(rs);
      assert x in rs' <==> x in multiset(rs');
    }
  }

  /** Being mentioned by some record does not depend on the order of the records. */
  lemma MentionedPermuted(rs: seq<RawFeature>, rs': seq<RawFeature>, k: FeatureId)
    requires multiset(rs) == multiset(rs')
    ensures Mentioned(rs, k) <==> Mentioned(rs', k)
  {
    SameMembers(rs, rs');
    if Mentioned(rs, k) {
      var i :| 0 <= i < |rs| && (rs[i].id == k || rs[i].parentId == Some(k));
      assert rs[i] in rs';
      var j :| 0 <= j < |rs'| && rs'[j] == rs[i];
    }
    if Mentioned(rs', k) {
      var j :| 0 <= j < |rs'| && (rs'[j].id == k || rs'[j].parentId == Some(k));
      assert rs'[j] in rs;
      var i :| 0 <= i < |rs| && rs[i] == rs'[j];
    }
  }

  /** With unique ids, the record stored under an id does not depend on the order of the records. */
  lemma LastWithIdPermuted(rs: seq<RawFeature>, rs': seq<RawFeature>, k: FeatureId)
    requires UniqueIds(rs) && multiset(rs) == multiset(rs')
    ensures LastWithId(rs, k) == LastWithId(rs', k)
  {
    SameMembers(rs, rs');
    var a, b := LastWithId(rs, k), LastWithId(rs', k);
    if a.Some? {
      assert a.value in rs';
      var j :| 0 <= j < |rs'| && rs'[j] == a.value;
      assert rs'[j].id == k;
    }
    if b.Some? {
      assert b.value in rs;
      var i :| 0 <= i < |rs| && rs[i] == b.value;
      assert rs[i].id == k;
    }
    if a.Some? && b.Some? {
      var i :| 0 <= i < |rs| && rs[i] == a.value;
      var j :| 0 <= j < |rs| && rs[j] == b.value;
      assert i == j;
    }
  }

  /** The children collected under an id are the same ids, in some order, whatever the order of the records. */
  lemma {:induction false} ChildrenOfPermuted(rs: seq<RawFeature>, rs': seq<RawFeature>, k: FeatureId)
    requires multiset(rs) == multiset(rs')
    ensures multiset(ChildrenOf(rs, k)) == multiset(ChildrenOf(rs', k))
    decreases |rs|
  {
    if rs == [] {
      assert |rs'| == |multiset(rs')| == 0;
    } else {
      var n := |rs| - 1;
      var x := rs[n];
      assert rs == rs[..n] + [x];
      assert x in multiset(rs');
      var j :| 0 <= j < |rs'| && rs'[j] == x;
      var before, after := rs'[..j], rs'[j + 1..];
      assert rs' == before + [x] + after;
      Ordering.RemoveOne(rs, n);
      Ordering.RemoveOne(rs', j);
      assert rs[..n] + rs[n + 1..] == rs[..n];
      ChildrenOfPermuted(rs[..n], before + after, k);
      ChildrenOfAppend(rs[..n], [x], k);
      ChildrenOfAppend(before + [x], after, k);
      ChildrenOfAppend(before, [x], k);
      ChildrenOfAppend(before, after, k);
    }
  }

  /** Two maps with the same keys and records, whose child lists hold the same ids. */
  ghost predicate SameEntries(m: FeatureMap, m': FeatureMap) {
    && m.Keys == m'.Keys
    && forall k | k in m ::
         && m[k].data == m'[k].data
         && forall c :: c in m[k].children <==> c in m'[k].children
  }

  /**
   * With unique ids, the maps built from two orders of the same records
   * have the same keys and records, and child lists that are permutations
   * of each other.
   */
  lemma MappingsPermuted(rs: seq<RawFeature>, rs': seq<RawFeature>)
    requires UniqueIds(rs) && multiset(rs) == multiset(rs')
    ensures Mappings(rs).Keys == Mappings(rs').Keys
    ensures forall k | k in Mappings(rs) ::
      && Mappings(rs)[k].data == Mappings(rs')[k].data
      && multiset(Mappings(rs)[k].children) == multiset(Mappings(rs')[k].children)
    ensures SameEntries(Mappings(rs), Mappings(rs'))
  {
    var m, m' := Mappings(rs), Mappings(rs');
    forall k
      ensures k in m <==> k in m'
      ensures k in m ==> m[k].data == m'[k].data && multiset(m[k].children) == multiset(m'[k].children)
    {
      EntryCharacterized(rs, k);
      EntryCharacterized(rs', k);
      MentionedPermuted(rs, rs', k);
      LastWithIdPermuted(rs, rs', k);
      ChildrenOfPermuted(rs, rs', k);
    }
    forall k, c | k in m
      ensures c in m[k].children <==> c in m'[k].children
    {
      assert c in m[k].children <==> c in multiset(m[k].children);
      assert c in m'[k].children <==> c in multiset(m'[k].children);
    }
  }

  /* Resolution over such maps */

  /** Resolution asks only which ids a child list holds, so such maps resolve alike. */
  lemma {:induction false} ResolveFromAlike(m: FeatureMap, m': FeatureMap, order: seq<FeatureId>,
                                            childIds: seq<FeatureId>, childIds': seq<FeatureId>,
                                            visited: set<FeatureId>, i: nat)
    requires SameEntries(m, m') && KeysOf(order, m) && i <= |order|
    requires forall c :: c in childIds <==> c in childIds'
    ensures KeysOf(order, m')
    ensures ResolveFrom(m, order, childIds, visited, i) == ResolveFrom(m', order, childIds', visited, i)
    decreases |m.Keys - visited|, |order| - i
  {
    if i < |order| {
      var k := order[i];
      if Picked(m, k, childIds) && k !in visited {
        assert m.Keys - visited == (m.Keys - (visited + {k})) + {k};
        ResolveFromAlike(m, m', order, m[k].children, m'[k].children, visited + {k}, 0);
      }
      ResolveFromAlike(m, m', order, childIds, childIds', visited, i + 1);
    }
  }

  lemma {:induction false} ProgramsFromAlike(m: FeatureMap, m': FeatureMap, order: seq<FeatureId>, i: nat)
    requires SameEntries(m, m') && KeysOf(order, m) && i <= |order|
    ensures KeysOf(order, m')
    ensures ProgramsFrom(m, order, i) == ProgramsFrom(m', order, i)
    decreases |order| - i
  {
    if i < |order| {
      var k := order[i];
      if IsRootEntry(m, k) {
        ResolveFromAlike(m, m', order, m[k].children, m'[k].children, {k}, 0);
      }
      ProgramsFromAlike(m, m', order, i + 1);
    }
  }

  /** Such maps, iterated in the same order, give the same graph. */
  lemma GraphOfAlike(m: FeatureMap, m': FeatureMap, order: seq<FeatureId>)
    requires SameEntries(m, m') && KeysOf(order, m)
    ensures KeysOf(order, m') && GraphOf(m, order) == GraphOf(m', order)
  {
    ProgramsFromAlike(m, m', order, 0);
  }

  /* The graph */

  /**
   * With unique ids, any two orders of the input records, each map
   * iterated in any order, give graphs that are the same up to the order
   * of programs and children; when no two siblings or programs start at
   * the same instant, `PartialEq` calls them equal.
   */
  lemma InputOrderIndependent(rs: seq<RawFeature>, rs': seq<RawFeature>, o: seq<FeatureId>, o': seq<FeatureId>)
    requires UniqueIds(rs) && multiset(rs) == multiset(rs')
    requires IsIterationOrder(o, Mappings(rs)) && IsIterationOrder(o', Mappings(rs'))
    ensures Mappings(rs).Keys == Mappings(rs').Keys
    ensures forall k | k in Mappings(rs) ::
      && Mappings(rs)[k].data == Mappings(rs')[k].data
      && multiset(Mappings(rs)[k].children) == multiset(Mappings(rs')[k].children)
    ensures KeysOf(o, Mappings(rs)) && KeysOf(o', Mappings(rs'))
    ensures GraphOf(Mappings(rs), o).Success? && GraphOf(Mappings(rs'), o').Success?
    ensures SameGraph(GraphOf(Mappings(rs), o).value, GraphOf(Mappings(rs'), o').value)
    ensures UntiedGraph(GraphOf(Mappings(rs), o).value) ==>
      GraphEq(GraphOf(Mappings(rs), o).value, GraphOf(Mappings(rs'), o').value)
  {
    var m, m' := Mappings(rs), Mappings(rs');
    MappingsPermuted(rs, rs');
    UniqueIdsResolve(rs, o);
    assert IsIterationOrder(o, m');
    GraphOfAlike(m, m', o);
    GraphOrderIndependent(m', o, o');
    var g, h := GraphOf(m, o).value, GraphOf(m', o').value;
    if UntiedGraph(g) {
      GraphEqComplete(g, h);
    }
  }
}
