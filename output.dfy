/**
 * `ProgramGraph::from` (program_ingester/src/output.rs, and its copy in
 * feature_ingester/src/output.rs): the index of records built by the
 * upserts, the program roots picked out of it, and the nested features
 * that `resolve_subfeatures` builds for each root.
 *
 * The map is iterated in the order `order` of its keys (module `HashMaps`).
 *
 * `resolve_subfeatures` recurses forever when an entry is reached again
 * below itself. The model carries the set of entries on the current path
 * and reports `CyclicReference` instead; on every input where the original
 * returns, the model returns the same value.
 */
module Output {
  import opened Wrappers
  import opened Input
  import opened FeatureMaps
  import opened HashMaps

  /** A resolved feature with its resolved subfeatures. */
  datatype Feature = Feature(
    id: FeatureId,
    progressStatus: string,
    assignedTeam: string,
    startDate: Timestamp,
    endDate: Timestamp,
    subfeatures: seq<Feature>)

  datatype Program = Program(id: string, root: Feature)

  datatype ProgramGraph = ProgramGraph(programs: seq<Program>)

  /** Where the original recurses without end: the entry `id` is reached again below itself. */
  datatype ResolveError = CyclicReference(id: FeatureId)

  /** A feature carrying the fields of record `d`. */
  function FeatureOf(d: RawFeature, subfeatures: seq<Feature>): Feature {
    Feature(d.id, d.progressStatus, d.assignedTeam, d.startDate, d.endDate, subfeatures)
  }

  /** The entry under `k` passes the filter of `resolve_subfeatures`: it has data whose id is one of `childIds`. */
  predicate Picked(m: FeatureMap, k: FeatureId, childIds: seq<FeatureId>)
    requires k in m
  {
    m[k].data.Some? && m[k].data.value.id in childIds
  }

  /**
   * `resolve_subfeatures(child_ids, mappings)` over the entries
   * `order[i..]`, with `visited` the entries on the path from the root.
   */
  function ResolveFrom(m: FeatureMap, order: seq<FeatureId>, childIds: seq<FeatureId>,
                       visited: set<FeatureId>, i: nat): Result<seq<Feature>, ResolveError>
    requires i <= |order| && KeysOf(order, m)
    decreases |m.Keys - visited|, |order| - i
  {
    if i == |order| then Success([])
    else
      var k := order[i];
      if !Picked(m, k, childIds) then ResolveFrom(m, order, childIds, visited, i + 1)
      else if k in visited then Failure(CyclicReference(k))
      else
        assert m.Keys - visited == (m.Keys - (visited + {k})) + {k};
        match ResolveFrom(m, order, m[k].children, visited + {k}, 0)
        case Failure(e) => Failure(e)
        case Success(subfeatures) =>
          match ResolveFrom(m, order, childIds, visited, i + 1)
          case Failure(e) => Failure(e)
          case Success(rest) => Success([FeatureOf(m[k].data.value, subfeatures)] + rest)
  }

  /** `resolve_subfeatures(child_ids, mappings)`. */
  function Resolve(m: FeatureMap, order: seq<FeatureId>, childIds: seq<FeatureId>,
                   visited: set<FeatureId>): Result<seq<Feature>, ResolveError>
    requires KeysOf(order, m)
  {
    ResolveFrom(m, order, childIds, visited, 0)
  }

  /** Reference definition: the keys in `order[i..]` that `resolve_subfeatures` picks, in order. */
  function PickedKeys(m: FeatureMap, order: seq<FeatureId>, childIds: seq<FeatureId>, i: nat): (r: seq<FeatureId>)
    requires i <= |order| && KeysOf(order, m)
    ensures forall k :: k in r <==> (exists t | i <= t < |order| :: order[t] == k) && k in m && Picked(m, k, childIds)
    decreases |order| - i
  {
    if i == |order| then []
    else if Picked(m, order[i], childIds) then [order[i]] + PickedKeys(m, order, childIds, i + 1)
    else PickedKeys(m, order, childIds, i + 1)
  }

  /**
   * A successful resolution yields one feature per picked entry, in
   * iteration order; each carries that entry's record and the successful
   * resolution of the entry's own children, with the entry added to the path.
   */
  lemma {:induction false} ResolveFromSpec(m: FeatureMap, order: seq<FeatureId>, childIds: seq<FeatureId>,
                                           visited: set<FeatureId>, i: nat)
    requires i <= |order| && KeysOf(order, m)
    ensures var r := ResolveFrom(m, order, childIds, visited, i);
            var keys := PickedKeys(m, order, childIds, i);
      r.Success? ==>
        && |r.value| == |keys|
        && forall j | 0 <= j < |keys| ::
             && keys[j] !in visited
             && Resolve(m, order, m[keys[j]].children, visited + {keys[j]}).Success?
             && r.value[j] == FeatureOf(m[keys[j]].data.value,
                                        Resolve(m, order, m[keys[j]].children, visited + {keys[j]}).value)
    decreases |order| - i
  {
    if i < |order| {
      ResolveFromSpec(m, order, childIds, visited, i + 1);
    }
  }

  /** Every picked entry that is off the path and resolves gives a successful resolution. */
  lemma {:induction false} ResolveFromSucceeds(m: FeatureMap, order: seq<FeatureId>, childIds: seq<FeatureId>,
                                               visited: set<FeatureId>, i: nat)
    requires i <= |order| && KeysOf(order, m)
    requires forall k | k in PickedKeys(m, order, childIds, i) ::
               k !in visited && Resolve(m, order, m[k].children, visited + {k}).Success?
    ensures ResolveFrom(m, order, childIds, visited, i).Success?
    decreases |order| - i
  {
    if i < |order| {
      ResolveFromSucceeds(m, order, childIds, visited, i + 1);
    }
  }

  /** The picked keys of a duplicate-free order are duplicate-free. */
  lemma {:induction false} PickedKeysDistinct(m: FeatureMap, order: seq<FeatureId>, childIds: seq<FeatureId>, i: nat)
    requires i <= |order| && KeysOf(order, m)
    requires forall a, b | 0 <= a < b < |order| :: order[a] != order[b]
    ensures forall a, b | 0 <= a < b < |PickedKeys(m, order, childIds, i)| ::
              PickedKeys(m, order, childIds, i)[a] != PickedKeys(m, order, childIds, i)[b]
    decreases |order| - i
  {
    if i < |order| {
      PickedKeysDistinct(m, order, childIds, i + 1);
      forall t | i + 1 <= t < |order| ensures order[t] != order[i] {
      }
      assert order[i] !in PickedKeys(m, order, childIds, i + 1);
    }
  }

  /**
   * `resolve_subfeatures` on a well-formed map returns exactly one feature
   * per distinct child id, however often the id is repeated in the list
   * and in whatever order the map is iterated; each feature copies its
   * record's id, status, team, start and end, and holds the resolved
   * children of its own entry.
   */
  lemma ResolveOnePerChild(m: FeatureMap, order: seq<FeatureId>, childIds: seq<FeatureId>, visited: set<FeatureId>)
    requires WellFormed(m) && IsIterationOrder(order, m)
    requires forall c | c in childIds :: c in m && m[c].data.Some?
    ensures var r := Resolve(m, order, childIds, visited);
      r.Success? ==>
        && (forall a, b | 0 <= a < b < |r.value| :: r.value[a].id != r.value[b].id)
        && (forall c :: c in childIds <==> exists j | 0 <= j < |r.value| :: r.value[j].id == c)
        && forall j | 0 <= j < |r.value| ::
             var id := r.value[j].id;
             && id in m && m[id].data.Some? && id !in visited
             && Resolve(m, order, m[id].children, visited + {id}).Success?
             && r.value[j] == FeatureOf(m[id].data.value, Resolve(m, order, m[id].children, visited + {id}).value)
  {
    var r := Resolve(m, order, childIds, visited);
    var keys := PickedKeys(m, order, childIds, 0);
    if r.Success? {
      ResolvedIds(m, order, childIds, visited);
      PickedKeysDistinct(m, order, childIds, 0);
      forall c ensures c in childIds <==> exists j | 0 <= j < |r.value| :: r.value[j].id == c {
        if c in childIds {
          var t :| 0 <= t < |order| && order[t] == c;
          assert c in keys;
          var j :| 0 <= j < |keys| && keys[j] == c;
          assert r.value[j].id == c;
        }
      }
    }
  }

  /** The features of a successful resolution carry the picked keys as ids, in order. */
  lemma ResolvedIds(m: FeatureMap, order: seq<FeatureId>, childIds: seq<FeatureId>, visited: set<FeatureId>)
    requires WellFormed(m) && KeysOf(order, m)
    requires Resolve(m, order, childIds, visited).Success?
    ensures var r := Resolve(m, order, childIds, visited).value;
            var keys := PickedKeys(m, order, childIds, 0);
      && |r| == |keys|
      && forall j | 0 <= j < |keys| ::
           && r[j].id == keys[j]
           && keys[j] !in visited
           && Resolve(m, order, m[keys[j]].children, visited + {keys[j]}).Success?
           && r[j] == FeatureOf(m[keys[j]].data.value, Resolve(m, order, m[keys[j]].children, visited + {keys[j]}).value)
  {
    var keys := PickedKeys(m, order, childIds, 0);
    ResolveFromSpec(m, order, childIds, visited, 0);
    forall j | 0 <= j < |keys| ensures m[keys[j]].data.value.id == keys[j] {
      assert keys[j] in keys;
    }
  }

  /** The entry under `k` is a program root: its record is present and has no parent. */
  predicate IsRootEntry(m: FeatureMap, k: FeatureId)
    requires k in m
  {
    m[k].data.Some? && m[k].data.value.IsRoot()
  }

  /** The program built for the root entry `k`. */
  function ProgramOf(m: FeatureMap, order: seq<FeatureId>, k: FeatureId): Result<Program, ResolveError>
    requires KeysOf(order, m) && k in m && IsRootEntry(m, k)
  {
    var featureData := m[k].data.value;
    match Resolve(m, order, m[k].children, {k})
    case Failure(e) => Failure(e)
    case Success(subfeatures) => Success(Program(featureData.programId, FeatureOf(featureData, subfeatures)))
  }

  /** The programs of the root entries in `order[i..]`, in iteration order. */
  function ProgramsFrom(m: FeatureMap, order: seq<FeatureId>, i: nat): Result<seq<Program>, ResolveError>
    requires i <= |order| && KeysOf(order, m)
    decreases |order| - i
  {
    if i == |order| then Success([])
    else if !IsRootEntry(m, order[i]) then ProgramsFrom(m, order, i + 1)
    else
      match ProgramOf(m, order, order[i])
      case Failure(e) => Failure(e)
      case Success(program) =>
        match ProgramsFrom(m, order, i + 1)
        case Failure(e) => Failure(e)
        case Success(rest) => Success([program] + rest)
  }

  /** The graph built from a finished map. */
  function GraphOf(m: FeatureMap, order: seq<FeatureId>): Result<ProgramGraph, ResolveError>
    requires KeysOf(order, m)
  {
    match ProgramsFrom(m, order, 0)
    case Failure(e) => Failure(e)
    case Success(programs) => Success(ProgramGraph(programs))
  }

  /** Reference definition: the root entries in `order[i..]`, in order. */
  function RootKeys(m: FeatureMap, order: seq<FeatureId>, i: nat): (r: seq<FeatureId>)
    requires i <= |order| && KeysOf(order, m)
    ensures forall k :: k in r <==> (exists t | i <= t < |order| :: order[t] == k) && k in m && IsRootEntry(m, k)
    decreases |order| - i
  {
    if i == |order| then []
    else if IsRootEntry(m, order[i]) then [order[i]] + RootKeys(m, order, i + 1)
    else RootKeys(m, order, i + 1)
  }

  /** A successful build yields one program per root entry, in iteration order. */
  lemma {:induction false} ProgramsFromSpec(m: FeatureMap, order: seq<FeatureId>, i: nat)
    requires i <= |order| && KeysOf(order, m)
    ensures var r := ProgramsFrom(m, order, i);
            var keys := RootKeys(m, order, i);
      r.Success? ==>
        && |r.value| == |keys|
        && forall j | 0 <= j < |keys| :: ProgramOf(m, order, keys[j]) == Success(r.value[j])
    decreases |order| - i
  {
    if i < |order| {
      ProgramsFromSpec(m, order, i + 1);
    }
  }

  /** Every root entry whose program builds gives a successful build. */
  lemma {:induction false} ProgramsFromSucceeds(m: FeatureMap, order: seq<FeatureId>, i: nat)
    requires i <= |order| && KeysOf(order, m)
    requires forall k | k in RootKeys(m, order, i) :: ProgramOf(m, order, k).Success?
    ensures ProgramsFrom(m, order, i).Success?
    decreases |order| - i
  {
    if i < |order| {
      ProgramsFromSucceeds(m, order, i + 1);
    }
  }

  lemma {:induction false} RootKeysDistinct(m: FeatureMap, order: seq<FeatureId>, i: nat)
    requires i <= |order| && KeysOf(order, m)
    requires forall a, b | 0 <= a < b < |order| :: order[a] != order[b]
    ensures forall a, b | 0 <= a < b < |RootKeys(m, order, i)| ::
              RootKeys(m, order, i)[a] != RootKeys(m, order, i)[b]
    decreases |order| - i
  {
    if i < |order| {
      RootKeysDistinct(m, order, i + 1);
      forall t | i + 1 <= t < |order| ensures order[t] != order[i] {
      }
      assert order[i] !in RootKeys(m, order, i + 1);
    }
  }

  /**
   * The programs of a well-formed map: exactly one per entry whose record
   * is present and has no parent. A program's id is that record's
   * program id, and its root copies the record's fields and holds the
   * resolved children of the entry. An entry created only as a parent,
   * with no record, yields no program and no error.
   */
  lemma ProgramsAreRoots(m: FeatureMap, order: seq<FeatureId>)
    requires WellFormed(m) && IsIterationOrder(order, m)
    ensures var r := GraphOf(m, order);
      r.Success? ==>
        var programs := r.value.programs;
        && (forall a, b | 0 <= a < b < |programs| :: programs[a].root.id != programs[b].root.id)
        && (forall k :: (k in m && IsRootEntry(m, k)) <==> exists j | 0 <= j < |programs| :: programs[j].root.id == k)
        && (forall k | k in m && m[k].data.None? :: forall j | 0 <= j < |programs| :: programs[j].root.id != k)
        && forall j | 0 <= j < |programs| ::
             var k := programs[j].root.id;
             && k in m && IsRootEntry(m, k)
             && programs[j].id == m[k].data.value.programId
             && Resolve(m, order, m[k].children, {k}).Success?
             && programs[j].root == FeatureOf(m[k].data.value, Resolve(m, order, m[k].children, {k}).value)
  {
    var r := GraphOf(m, order);
    var keys := RootKeys(m, order, 0);
    if r.Success? {
      var programs := r.value.programs;
      ProgramIds(m, order);
      RootKeysDistinct(m, order, 0);
      forall k | k in m && IsRootEntry(m, k) ensures exists j | 0 <= j < |programs| :: programs[j].root.id == k {
        var t :| 0 <= t < |order| && order[t] == k;
        assert k in keys;
        var j :| 0 <= j < |keys| && keys[j] == k;
        assert programs[j].root.id == k;
      }
    }
  }

  /** The programs of a successful build carry the root keys as root ids, in order. */
  lemma ProgramIds(m: FeatureMap, order: seq<FeatureId>)
    requires WellFormed(m) && KeysOf(order, m)
    requires GraphOf(m, order).Success?
    ensures var programs := GraphOf(m, order).value.programs;
            var keys := RootKeys(m, order, 0);
      && |programs| == |keys|
      && forall j | 0 <= j < |keys| ::
           && programs[j].root.id == keys[j]
           && ProgramOf(m, order, keys[j]) == Success(programs[j])
  {
    var programs := GraphOf(m, order).value.programs;
    var keys := RootKeys(m, order, 0);
    ProgramsFromSpec(m, order, 0);
    forall j | 0 <= j < |keys| ensures programs[j].root.id == keys[j] {
      assert keys[j] in keys;
      assert ProgramOf(m, order, keys[j]) == Success(programs[j]);
    }
  }

  /** No two records share an id. */
  ghost predicate UniqueIds(records: seq<RawFeature>) {
    forall i, j | 0 <= i < j < |records| :: records[i].id != records[j].id
  }

  /** Every child collected under `k` is an entry whose record names `k` as its parent. */
  ghost predicate ParentConsistent(m: FeatureMap) {
    forall k, c | k in m && c in m[k].children ::
      c in m && m[c].data.Some? && m[c].data.value.parentId == Some(k)
  }

  /** A child id collected under `k` comes from a record with that id and parent `k`. */
  lemma {:induction false} ChildrenHaveParent(records: seq<RawFeature>, k: FeatureId, c: FeatureId)
    requires c in ChildrenOf(records, k)
    ensures exists i | 0 <= i < |records| :: records[i].id == c && records[i].parentId == Some(k)
    decreases |records|
  {
    var n := |records| - 1;
    if c in ChildrenOf(records[..n], k) {
      ChildrenHaveParent(records[..n], k, c);
      var i :| 0 <= i < n && records[..n][i].id == c && records[..n][i].parentId == Some(k);
      assert records[i] == records[..n][i];
    } else {
      assert records[n].id == c && records[n].parentId == Some(k);
    }
  }

  /** With unique ids, the record under a child's entry is the one that named the parent. */
  lemma UniqueIdsParentConsistent(records: seq<RawFeature>)
    requires UniqueIds(records)
    ensures ParentConsistent(Mappings(records))
  {
    var m := Mappings(records);
    MappingsCharacterized(records);
    MappingsWellFormed(records);
    forall k, c | k in m && c in m[k].children
      ensures c in m && m[c].data.Some? && m[c].data.value.parentId == Some(k)
    {
      ChildrenHaveParent(records, k, c);
      var i :| 0 <= i < |records| && records[i].id == c && records[i].parentId == Some(k);
      var last := LastWithId(records, c).value;
      var j :| 0 <= j < |records| && records[j] == last;
      assert records[j].id == records[i].id;
      assert i == j;
    }
  }

  /** The entries in `path`, as a set. */
  function Members(path: seq<FeatureId>): set<FeatureId> {
    set k | k in path
  }

  /**
   * `path` runs from a root entry down parent links: each entry's record
   * names the previous entry as its parent, and no entry repeats.
   */
  ghost predicate Chain(m: FeatureMap, path: seq<FeatureId>) {
    && |path| >= 1
    && (forall a, b | 0 <= a < b < |path| :: path[a] != path[b])
    && (forall j | 0 <= j < |path| :: path[j] in m && m[path[j]].data.Some?)
    && IsRootEntry(m, path[0])
    && forall j | 0 < j < |path| :: m[path[j]].data.value.parentId == Some(path[j - 1])
  }

  /** A picked child of a chain's last entry extends the chain with an entry not yet on it. */
  lemma ExtendChain(m: FeatureMap, path: seq<FeatureId>, k: FeatureId)
    requires WellFormed(m) && ParentConsistent(m) && Chain(m, path)
    requires k in m && Picked(m, k, m[path[|path| - 1]].children)
    ensures k !in Members(path)
    ensures Chain(m, path + [k]) && Members(path + [k]) == Members(path) + {k}
    ensures (path + [k])[|path|] == k
  {
    var last := path[|path| - 1];
    assert m[k].data.value.id == k;
    assert m[k].data.value.parentId == Some(last);
    forall j | 0 <= j < |path| ensures path[j] != k {
      if j == 0 {
        assert m[path[0]].data.value.parentId.None?;
      } else {
        assert path[j - 1] != last;
        assert m[path[j]].data.value.parentId == Some(path[j - 1]);
      }
    }
    var longer := path + [k];
    assert Members(longer) == Members(path) + {k};
    forall j | 0 < j < |longer| ensures m[longer[j]].data.value.parentId == Some(longer[j - 1]) {
      if j < |path| {
        assert longer[j] == path[j] && longer[j - 1] == path[j - 1];
      }
    }
  }

  /**
   * When every child's record names its parent, resolving the children
   * of the last entry of a chain never comes back to an entry on the chain:
   * an entry with one parent link cannot lie both below and above a
   * node of its own ancestry.
   */
  lemma {:induction false} ChainResolves(m: FeatureMap, order: seq<FeatureId>, path: seq<FeatureId>, i: nat)
    requires WellFormed(m) && ParentConsistent(m) && KeysOf(order, m) && i <= |order|
    requires Chain(m, path)
    ensures ResolveFrom(m, order, m[path[|path| - 1]].children, Members(path), i).Success?
    decreases |m.Keys - Members(path)|, |order| - i
  {
    if i < |order| {
      var last := path[|path| - 1];
      var k := order[i];
      if Picked(m, k, m[last].children) {
        var longer := path + [k];
        ExtendChain(m, path, k);
        assert m.Keys - Members(path) == (m.Keys - Members(longer)) + {k};
        ChainResolves(m, order, longer, 0);
      }
      ChainResolves(m, order, path, i + 1);
    }
  }

  /**
   * When no two records share an id, `ProgramGraph::from` always returns:
   * no resolution reaches an entry below itself, in whatever order the
   * map is iterated.
   */
  lemma UniqueIdsResolve(records: seq<RawFeature>, order: seq<FeatureId>)
    requires UniqueIds(records) && KeysOf(order, Mappings(records))
    ensures GraphOf(Mappings(records), order).Success?
  {
    var m := Mappings(records);
    MappingsWellFormed(records);
    UniqueIdsParentConsistent(records);
    forall k | k in RootKeys(m, order, 0) ensures ProgramOf(m, order, k).Success? {
      assert Members([k]) == {k};
      ChainResolves(m, order, [k], 0);
    }
    ProgramsFromSucceeds(m, order, 0);
  }

  /** `[head] + rest` for a successful `r`; an error passes through. */
  function Prepend<T>(head: seq<T>, r: Result<seq<T>, ResolveError>): Result<seq<T>, ResolveError> {
    match r
    case Failure(e) => Failure(e)
    case Success(rest) => Success(head + rest)
  }

  lemma PrependTwice<T>(xs: seq<T>, x: T, r: Result<seq<T>, ResolveError>)
    ensures Prepend(xs, Prepend([x], r)) == Prepend(xs + [x], r)
  {
    if r.Success? {
      assert xs + ([x] + r.value) == (xs + [x]) + r.value;
    }
  }

  /** The build loop of `ProgramGraph::from`: both upserts for every record, in input order. */
  method BuildMappings(records: seq<RawFeature>) returns (mappings: FeatureMap)
    ensures mappings == Mappings(records)
  {
    mappings := map[];
    for i := 0 to |records|
      invariant mappings == Mappings(records[..i])
    {
      var feature := records[i];
      ghost var before := mappings;
      assert records[..i + 1][..i] == records[..i];
      assert Mappings(records[..i + 1]) == Upsert(before, feature);
      // 1. the record's own entry
      if feature.id in mappings {
        mappings := mappings[feature.id := mappings[feature.id].(data := Some(feature))];
      } else {
        mappings := mappings[feature.id := Entry(Some(feature), [])];
      }
      assert mappings == UpsertOwn(before, feature);
      ghost var own := mappings;
      // 2. the parent's entry
      if feature.parentId.Some? {
        var parentId := feature.parentId.value;
        if parentId in mappings {
          mappings := mappings[parentId := mappings[parentId].(children := mappings[parentId].children + [feature.id])];
        } else {
          mappings := mappings[parentId := Entry(None, [feature.id])];
        }
      }
      assert mappings == UpsertParent(own, feature);
    }
    assert records[..|records|] == records;
  }

  /** The loop over the root entries of `ProgramGraph::from`, pushing one program per root. */
  method BuildPrograms(mappings: FeatureMap, order: seq<FeatureId>) returns (r: Result<ProgramGraph, ResolveError>)
    requires KeysOf(order, mappings)
    ensures r == GraphOf(mappings, order)
  {
    var programs: seq<Program> := [];
    assert ProgramsFrom(mappings, order, 0).Success? ==>
           [] + ProgramsFrom(mappings, order, 0).value == ProgramsFrom(mappings, order, 0).value;
    for i := 0 to |order|
      invariant ProgramsFrom(mappings, order, 0) == Prepend(programs, ProgramsFrom(mappings, order, i))
    {
      var k := order[i];
      if IsRootEntry(mappings, k) {
        var featureData := mappings[k].data.value;
        var subfeatures := Resolve(mappings, order, mappings[k].children, {k});
        if subfeatures.Failure? {
          r := Failure(subfeatures.error);
          return;
        }
        var program := Program(featureData.programId, FeatureOf(featureData, subfeatures.value));
        assert ProgramOf(mappings, order, k) == Success(program);
        PrependTwice(programs, program, ProgramsFrom(mappings, order, i + 1));
        programs := programs + [program];
      }
    }
    assert programs + [] == programs;
    r := Success(ProgramGraph(programs));
  }

  /**
   * `ProgramGraph::from`: the build loop, then the programs of the root
   * entries, visited in the map's iteration order, which is returned with
   * the graph.
   */
  method ProgramGraphFrom(records: seq<RawFeature>) returns (r: Result<ProgramGraph, ResolveError>, order: seq<FeatureId>)
    ensures IsIterationOrder(order, Mappings(records))
    ensures KeysOf(order, Mappings(records)) && r == GraphOf(Mappings(records), order)
  {
    var mappings := BuildMappings(records);
    order := IterationOrder(mappings);
    r := BuildPrograms(mappings, order);
  }
}
