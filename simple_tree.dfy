/**
 * The prototype of the resolver (program_ingester/examples/simple_tree.rs):
 * records that carry only a `u8` id, an optional parent id and a program
 * id, the same two upserts into a `HashMap`, the programs of the root
 * entries, and `resolve_subfeatures`.
 *
 * As in module `Output`, the map's iteration order is an explicit sequence
 * of its keys (module `HashMaps`), and the entries on the current path are
 * carried along: where the original recurses without end the model yields
 * `None`.
 *
 * The prototype is a program of its own, not a use of the library: its
 * records, entries and features are other types (`u8` ids, no status, team
 * or dates), and its resolver returns a plain vector with no error. So its
 * upserts, its resolver, the program list and the lemmas about them
 * (`PickedKeys`, `RootKeys` and their distinctness) are stated here over
 * those types, beside the ones of module `Output`; only the iteration of
 * the map is shared.
 */
module SimpleTree {
  import opened Wrappers
  import Ordering
  import opened HashMaps

  /** `u8`. */
  newtype U8 = x: int | 0 <= x < 256

  datatype RawFeature = RawFeature(id: U8, parentId: Option<U8>, programId: U8) {
    /** `is_root`: the record has no parent. */
    predicate IsRoot() {
      parentId.None?
    }
  }

  datatype Feature = Feature(id: U8, subfeatures: seq<Feature>)

  datatype Program = Program(id: U8, root: Feature)

  datatype Graph = Graph(programs: seq<Program>)

  /* Display */

  function DigitChar(d: nat): char
    requires d < 10
  {
    ('0' as int + d) as char
  }

  predicate IsDigit(c: char) {
    '0' <= c <= '9'
  }

  /** The decimal digits of `n` without leading zeros, as `{}` prints an integer. */
  function Decimal(n: nat): (r: string)
    ensures |r| >= 1 && forall i | 0 <= i < |r| :: IsDigit(r[i])
    ensures r[0] == '0' <==> n == 0
    decreases n
  {
    if n < 10 then [DigitChar(n)] else Decimal(n / 10) + [DigitChar(n % 10)]
  }

  /** The number a string of decimal digits denotes. */
  function DecimalValue(s: string): nat
    requires forall i | 0 <= i < |s| :: IsDigit(s[i])
    decreases |s|
  {
    if s == [] then 0 else 10 * DecimalValue(s[..|s| - 1]) + DigitValue(s[|s| - 1])
  }

  function DigitValue(c: char): nat
    requires IsDigit(c)
  {
    c as int - '0' as int
  }

  lemma {:induction false} DecimalRoundTrip(n: nat)
    ensures DecimalValue(Decimal(n)) == n
    decreases n
  {
    if n >= 10 {
      DecimalRoundTrip(n / 10);
      var r := Decimal(n);
      assert r[..|r| - 1] == Decimal(n / 10);
    }
  }

  /** `Display for RawFeature`: a root prints as `*` followed by its id, any other record as its id. */
  function Display(f: RawFeature): string {
    if f.IsRoot() then "*" + Decimal(f.id as nat) else Decimal(f.id as nat)
  }

  /** Reads a printed record back: whether it is marked as a root, and its id. */
  function ReadDisplay(s: string): Option<(bool, U8)> {
    var root := |s| > 0 && s[0] == '*';
    var digits := if root then s[1..] else s;
    if digits != [] && (forall i | 0 <= i < |digits| :: IsDigit(digits[i])) && DecimalValue(digits) < 256
    then Some((root, DecimalValue(digits) as U8))
    else None
  }

  /** The printed form gives back whether the record is a root and its id. */
  lemma DisplayReadsBack(f: RawFeature)
    ensures ReadDisplay(Display(f)) == Some((f.IsRoot(), f.id))
  {
    DecimalRoundTrip(f.id as nat);
    var d := Decimal(f.id as nat);
    if f.IsRoot() {
      assert ("*" + d)[1..] == d;
    } else {
      assert IsDigit(d[0]);
    }
  }

  /** Two records print alike exactly when both or neither are roots and their ids agree. */
  lemma DisplayDistinguishes(f: RawFeature, g: RawFeature)
    ensures Display(f) == Display(g) <==> f.IsRoot() == g.IsRoot() && f.id == g.id
  {
    DisplayReadsBack(f);
    DisplayReadsBack(g);
  }

  /* The mapping loop */

  /** `FeatureDataAndChildren`. */
  datatype Entry = Entry(data: Option<RawFeature>, children: seq<U8>)

  type FeatureMap = map<U8, Entry>

  /**
   * One iteration of the mapping loop: the record's own entry gets the
   * record as its data, keeping its children; then the parent's entry gets
   * the record's id appended, or is created without data.
   */
  function Upsert(m: FeatureMap, f: RawFeature): FeatureMap {
    var own := if f.id in m then m[f.id := m[f.id].(data := Some(f))] else m[f.id := Entry(Some(f), [])];
    match f.parentId
    case None => own
    case Some(p) =>
      if p in own then own[p := own[p].(children := own[p].children + [f.id])]
      else own[p := Entry(None, [f.id])]
  }

  /** The map after the mapping loop has run over `records`. */
  function Mappings(records: seq<RawFeature>): FeatureMap
    decreases |records|
  {
    if records == [] then map[] else Upsert(Mappings(records[..|records| - 1]), records[|records| - 1])
  }

  /** What one iteration does to the entry under `k`. */
  lemma UpsertEntry(m: FeatureMap, f: RawFeature, k: U8)
    ensures k in Upsert(m, f) <==> k in m || k == f.id || f.parentId == Some(k)
    ensures k in Upsert(m, f) ==>
              && Upsert(m, f)[k].data == (if k == f.id then Some(f) else if k in m then m[k].data else None)
              && Upsert(m, f)[k].children ==
                   (if k in m then m[k].children else []) + (if f.parentId == Some(k) then [f.id] else [])
  {
    if k in m {
      assert m[k].children + [] == m[k].children;
    }
  }

  /** Some record has id `k`. */
  ghost predicate Arrived(records: seq<RawFeature>, k: U8) {
    exists i | 0 <= i < |records| :: records[i].id == k
  }

  /**
   * The keys are the ids and the parents of the records; an entry's data,
   * when present, is a record with the entry's key as id, and it is
   * present exactly when such a record arrived.
   */
  lemma {:induction false} MappingsEntries(records: seq<RawFeature>, k: U8)
    ensures k in Mappings(records) <==> Arrived(records, k) || exists i | 0 <= i < |records| :: records[i].parentId == Some(k)
    ensures k in Mappings(records) ==>
              && (Mappings(records)[k].data.Some? <==> Arrived(records, k))
              && (Mappings(records)[k].data.Some? ==> Mappings(records)[k].data.value.id == k)
    decreases |records|
  {
    if records != [] {
      var n := |records| - 1;
      var init := records[..n];
      MappingsEntries(init, k);
      UpsertEntry(Mappings(init), records[n], k);
      forall i | 0 <= i < n ensures init[i] == records[i] {
      }
      if Arrived(records, k) && !(records[n].id == k) {
        var i :| 0 <= i < |records| && records[i].id == k;
        assert init[i].id == k;
      }
      if exists i | 0 <= i < |records| :: records[i].parentId == Some(k) {
        var i :| 0 <= i < |records| && records[i].parentId == Some(k);
        if i < n {
          assert init[i].parentId == Some(k);
        }
      }
    }
  }

  /**
   * The comment's promise that no entry is left without data holds exactly
   * when every parent named by a record arrives as a record itself.
   */
  lemma EveryEntryHasData(records: seq<RawFeature>)
    ensures (forall k | k in Mappings(records) :: Mappings(records)[k].data.Some?) <==>
            forall i | 0 <= i < |records| && records[i].parentId.Some? :: Arrived(records, records[i].parentId.value)
  {
    var m := Mappings(records);
    forall i | 0 <= i < |records| && records[i].parentId.Some?
      ensures records[i].parentId.value in m
      ensures m[records[i].parentId.value].data.Some? <==> Arrived(records, records[i].parentId.value)
    {
      MappingsEntries(records, records[i].parentId.value);
    }
    forall k | k in m ensures m[k].data.Some? <==> Arrived(records, k)
      ensures !Arrived(records, k) ==> exists i | 0 <= i < |records| :: records[i].parentId == Some(k)
    {
      MappingsEntries(records, k);
    }
  }

  /** The mapping loop of `main`: both upserts for every record, in input order. */
  method BuildMappings(sequence: seq<RawFeature>) returns (mappings: FeatureMap)
    ensures mappings == Mappings(sequence)
  {
    mappings := map[];
    for i := 0 to |sequence|
      invariant mappings == Mappings(sequence[..i])
    {
      var feature := sequence[i];
      ghost var before := mappings;
      assert sequence[..i + 1][..i] == sequence[..i];
      assert Mappings(sequence[..i + 1]) == Upsert(before, feature);
      if feature.id in mappings {
        mappings := mappings[feature.id := mappings[feature.id].(data := Some(feature))];
      } else {
        mappings := mappings[feature.id := Entry(Some(feature), [])];
      }
      if feature.parentId.Some? {
        var parentId := feature.parentId.value;
        if parentId in mappings {
          mappings := mappings[parentId := mappings[parentId].(children := mappings[parentId].children + [feature.id])];
        } else {
          mappings := mappings[parentId := Entry(None, [feature.id])];
        }
      }
    }
    assert sequence[..|sequence|] == sequence;
  }

  /* Resolution */

  /** The entry under `k` passes the filter of `resolve_subfeatures`. */
  predicate Picked(m: FeatureMap, k: U8, childIds: seq<U8>)
    requires k in m
  {
    m[k].data.Some? && m[k].data.value.id in childIds
  }

  /**
   * `resolve_subfeatures(child_ids, mappings)` over the entries `order[i..]`,
   * with `visited` the entries on the path; `None` where the original
   * never returns.
   */
  function ResolveFrom(m: FeatureMap, order: seq<U8>, childIds: seq<U8>, visited: set<U8>, i: nat): Option<seq<Feature>>
    requires i <= |order| && KeysOf(order, m)
    decreases |m.Keys - visited|, |order| - i
  {
    if i == |order| then Some([])
    else
      var k := order[i];
      if !Picked(m, k, childIds) then ResolveFrom(m, order, childIds, visited, i + 1)
      else if k in visited then None
      else
        assert m.Keys - visited == (m.Keys - (visited + {k})) + {k};
        match ResolveFrom(m, order, m[k].children, visited + {k}, 0)
        case None => None
        case Some(subfeatures) =>
          match ResolveFrom(m, order, childIds, visited, i + 1)
          case None => None
          case Some(rest) => Some([Feature(m[k].data.value.id, subfeatures)] + rest)
  }

  function Resolve(m: FeatureMap, order: seq<U8>, childIds: seq<U8>, visited: set<U8>): Option<seq<Feature>>
    requires KeysOf(order, m)
  {
    ResolveFrom(m, order, childIds, visited, 0)
  }

  /** Reference definition: the keys in `order[i..]` that `resolve_subfeatures` picks, in order. */
  function PickedKeys(m: FeatureMap, order: seq<U8>, childIds: seq<U8>, i: nat): (r: seq<U8>)
    requires i <= |order| && KeysOf(order, m)
    ensures forall k :: k in r <==> (exists t | i <= t < |order| :: order[t] == k) && k in m && Picked(m, k, childIds)
    decreases |order| - i
  {
    if i == |order| then []
    else if Picked(m, order[i], childIds) then [order[i]] + PickedKeys(m, order, childIds, i + 1)
    else PickedKeys(m, order, childIds, i + 1)
  }

  /**
   * A resolution that returns yields one feature per picked entry, in
   * iteration order, carrying the id of the entry's record and the
   * resolution of the entry's children.
   */
  lemma {:induction false} ResolveFromSpec(m: FeatureMap, order: seq<U8>, childIds: seq<U8>, visited: set<U8>, i: nat)
    requires i <= |order| && KeysOf(order, m)
    ensures var r := ResolveFrom(m, order, childIds, visited, i);
            var keys := PickedKeys(m, order, childIds, i);
      r.Some? ==>
        && |r.value| == |keys|
        && forall j | 0 <= j < |keys| ::
             && keys[j] !in visited
             && Resolve(m, order, m[keys[j]].children, visited + {keys[j]}).Some?
             && r.value[j] == Feature(m[keys[j]].data.value.id,
                                      Resolve(m, order, m[keys[j]].children, visited + {keys[j]}).value)
    decreases |order| - i
  {
    if i < |order| {
      ResolveFromSpec(m, order, childIds, visited, i + 1);
      var k := order[i];
      if Picked(m, k, childIds) && k !in visited && ResolveFrom(m, order, childIds, visited, i).Some? {
        var keys := PickedKeys(m, order, childIds, i);
        var tail := PickedKeys(m, order, childIds, i + 1);
        var r := ResolveFrom(m, order, childIds, visited, i).value;
        var rest := ResolveFrom(m, order, childIds, visited, i + 1).value;
        assert keys == [k] + tail;
        assert r == [Feature(m[k].data.value.id, Resolve(m, order, m[k].children, visited + {k}).value)] + rest;
      }
    }
  }

  /** When every picked entry is off the path and its children resolve, the resolution returns. */
  lemma {:induction false} ResolveFromReturns(m: FeatureMap, order: seq<U8>, childIds: seq<U8>, visited: set<U8>, i: nat)
    requires i <= |order| && KeysOf(order, m)
    requires forall k | k in PickedKeys(m, order, childIds, i) ::
               k !in visited && Resolve(m, order, m[k].children, visited + {k}).Some?
    ensures ResolveFrom(m, order, childIds, visited, i).Some?
    decreases |order| - i
  {
    if i < |order| {
      ResolveFromReturns(m, order, childIds, visited, i + 1);
    }
  }

  lemma {:induction false} PickedKeysDistinct(m: FeatureMap, order: seq<U8>, childIds: seq<U8>, i: nat)
    requires i <= |order| && KeysOf(order, m)
    requires forall a, b | 0 <= a < b < |order| :: order[a] != order[b]
    ensures forall a, b | 0 <= a < b < |PickedKeys(m, order, childIds, i)| ::
              PickedKeys(m, order, childIds, i)[a] != PickedKeys(m, order, childIds, i)[b]
    decreases |order| - i
  {
    if i < |order| {
      PickedKeysDistinct(m, order, childIds, i + 1);
      forall t | i + 1 <= t < |order| ensures order[t] != order[i] {
      }
      assert order[i] !in PickedKeys(m, order, childIds, i + 1);
    }
  }

  /* Programs */

  predicate IsRootEntry(m: FeatureMap, k: U8)
    requires k in m
  {
    m[k].data.Some? && m[k].data.value.IsRoot()
  }

  /** The program built for the root entry `k`. */
  function ProgramOf(m: FeatureMap, order: seq<U8>, k: U8): Option<Program>
    requires KeysOf(order, m) && k in m && IsRootEntry(m, k)
  {
    var featureData := m[k].data.value;
    match Resolve(m, order, m[k].children, {k})
    case None => None
    case Some(subfeatures) => Some(Program(featureData.programId, Feature(featureData.id, subfeatures)))
  }

  /** The programs of the root entries in `order[i..]`, in iteration order. */
  function ProgramsFrom(m: FeatureMap, order: seq<U8>, i: nat): Option<seq<Program>>
    requires i <= |order| && KeysOf(order, m)
    decreases |order| - i
  {
    if i == |order| then Some([])
    else if !IsRootEntry(m, order[i]) then ProgramsFrom(m, order, i + 1)
    else
      match ProgramOf(m, order, order[i])
      case None => None
      case Some(program) =>
        match ProgramsFrom(m, order, i + 1)
        case None => None
        case Some(rest) => Some([program] + rest)
  }

  function GraphOf(m: FeatureMap, order: seq<U8>): Option<Graph>
    requires KeysOf(order, m)
  {
    match ProgramsFrom(m, order, 0)
    case None => None
    case Some(programs) => Some(Graph(programs))
  }

  /** Reference definition: the root entries in `order[i..]`, in order. */
  function RootKeys(m: FeatureMap, order: seq<U8>, i: nat): (r: seq<U8>)
    requires i <= |order| && KeysOf(order, m)
    ensures forall k :: k in r <==> (exists t | i <= t < |order| :: order[t] == k) && k in m && IsRootEntry(m, k)
    decreases |order| - i
  {
    if i == |order| then []
    else if IsRootEntry(m, order[i]) then [order[i]] + RootKeys(m, order, i + 1)
    else RootKeys(m, order, i + 1)
  }

  /** A build that returns yields one program per root entry, in iteration order. */
  lemma {:induction false} ProgramsFromSpec(m: FeatureMap, order: seq<U8>, i: nat)
    requires i <= |order| && KeysOf(order, m)
    ensures var r := ProgramsFrom(m, order, i);
            var keys := RootKeys(m, order, i);
      r.Some? ==> |r.value| == |keys| && forall j | 0 <= j < |keys| :: ProgramOf(m, order, keys[j]) == Some(r.value[j])
    decreases |order| - i
  {
    if i < |order| {
      ProgramsFromSpec(m, order, i + 1);
    }
  }

  /** When the program of every root entry is built, the build returns. */
  lemma {:induction false} ProgramsFromReturns(m: FeatureMap, order: seq<U8>, i: nat)
    requires i <= |order| && KeysOf(order, m)
    requires forall k | k in RootKeys(m, order, i) :: ProgramOf(m, order, k).Some?
    ensures ProgramsFrom(m, order, i).Some?
    decreases |order| - i
  {
    if i < |order| {
      ProgramsFromReturns(m, order, i + 1);
    }
  }

  function Prepend<T>(head: seq<T>, r: Option<seq<T>>): Option<seq<T>> {
    match r
    case None => None
    case Some(rest) => Some(head + rest)
  }

  lemma PrependTwice<T>(xs: seq<T>, x: T, r: Option<seq<T>>)
    ensures Prepend(xs, Prepend([x], r)) == Prepend(xs + [x], r)
  {
    if r.Some? {
      assert xs + ([x] + r.value) == (xs + [x]) + r.value;
    }
  }

  /** The loop of `main` over the root entries, pushing one program per root into the graph. */
  method BuildPrograms(mappings: FeatureMap, order: seq<U8>) returns (graph: Option<Graph>)
    requires KeysOf(order, mappings)
    ensures graph == GraphOf(mappings, order)
  {
    var programs: seq<Program> := [];
    assert ProgramsFrom(mappings, order, 0).Some? ==>
           [] + ProgramsFrom(mappings, order, 0).value == ProgramsFrom(mappings, order, 0).value;
    for i := 0 to |order|
      invariant ProgramsFrom(mappings, order, 0) == Prepend(programs, ProgramsFrom(mappings, order, i))
    {
      var k := order[i];
      if IsRootEntry(mappings, k) {
        var featureData := mappings[k].data.value;
        var subfeatures := Resolve(mappings, order, mappings[k].children, {k});
        if subfeatures.None? {
          graph := None;
          return;
        }
        var program := Program(featureData.programId, Feature(featureData.id, subfeatures.value));
        assert ProgramOf(mappings, order, k) == Some(program);
        PrependTwice(programs, program, ProgramsFrom(mappings, order, i + 1));
        programs := programs + [program];
      }
    }
    assert programs + [] == programs;
    graph := Some(Graph(programs));
  }

  /** `main` without its printing: the mapping loop, then the programs of the roots in iteration order. */
  method BuildGraph(sequence: seq<RawFeature>) returns (graph: Option<Graph>, order: seq<U8>)
    ensures IsIterationOrder(order, Mappings(sequence))
    ensures KeysOf(order, Mappings(sequence)) && graph == GraphOf(Mappings(sequence), order)
  {
    var mappings := BuildMappings(sequence);
    order := IterationOrder(mappings);
    graph := BuildPrograms(mappings, order);
  }

  /* The sample sequence of `main` */

  const R3 := RawFeature(3, Some(2), 1)
  const R1 := RawFeature(1, None, 1)
  const R2 := RawFeature(2, Some(1), 1)
  const R4 := RawFeature(4, Some(1), 1)

  /** The records of `main`, out of order: a child before its parent. */
  const Sample := [R3, R1, R2, R4]

  const SampleMap: FeatureMap :=
    map[3 := Entry(Some(R3), []), 2 := Entry(Some(R2), [3]), 1 := Entry(Some(R1), [2, 4]), 4 := Entry(Some(R4), [])]

  /** The mapping loop over the sample: every entry ends with its data, and the children lists are as the parents name them. */
  lemma SampleMappings()
    ensures Mappings(Sample) == SampleMap
    ensures forall k | k in Mappings(Sample) :: Mappings(Sample)[k].data.Some?
  {
    assert Sample[..3] == [R3, R1, R2] && [R3, R1, R2][..2] == [R3, R1] && [R3, R1][..1] == [R3] && [R3][..0] == [];
    var m1 := map[3 := Entry(Some(R3), []), 2 := Entry(None, [3])];
    assert Mappings([R3]) == m1;
    var m2 := map[3 := Entry(Some(R3), []), 2 := Entry(None, [3]), 1 := Entry(Some(R1), [])];
    assert Mappings([R3, R1]) == m2;
    assert [] + [2 as U8] == [2] && [2 as U8] + [4] == [2, 4];
    var m3 := map[3 := Entry(Some(R3), []), 2 := Entry(Some(R2), [3]), 1 := Entry(Some(R1), [2])];
    assert Mappings([R3, R1, R2]) == m3;
  }

  /** An empty list of child ids resolves to no features. */
  lemma {:induction false} NothingPicked(m: FeatureMap, order: seq<U8>, visited: set<U8>, i: nat)
    requires i <= |order| && KeysOf(order, m)
    ensures ResolveFrom(m, order, [], visited, i) == Some([])
    decreases |order| - i
  {
    if i < |order| {
      NothingPicked(m, order, visited, i + 1);
    }
  }

  /** The feature the entry `k` resolves to below the path `visited`. */
  function EntryFeature(m: FeatureMap, order: seq<U8>, visited: set<U8>, k: U8): Feature {
    if KeysOf(order, m) && k in m && m[k].data.Some? then
      match Resolve(m, order, m[k].children, visited + {k})
      case Some(subfeatures) => Feature(m[k].data.value.id, subfeatures)
      case None => Feature(0, [])
    else Feature(0, [])
  }

  /** A resolution that returns holds the features of the picked entries. */
  lemma ResolveBag(m: FeatureMap, order: seq<U8>, childIds: seq<U8>, visited: set<U8>)
    requires KeysOf(order, m)
    requires Resolve(m, order, childIds, visited).Some?
    ensures multiset(Resolve(m, order, childIds, visited).value) ==
            Ordering.Bag(k => EntryFeature(m, order, visited, k), PickedKeys(m, order, childIds, 0))
  {
    var picked := PickedKeys(m, order, childIds, 0);
    var r := Resolve(m, order, childIds, visited).value;
    ResolveFromSpec(m, order, childIds, visited, 0);
    forall j | 0 <= j < |picked| ensures EntryFeature(m, order, visited, picked[j]) == r[j] {
      assert picked[j] in picked;
    }
    Ordering.BagPointwise(k => EntryFeature(m, order, visited, k), Ordering.Id, picked, r);
    Ordering.BagIdentity(r);
  }

  /**
   * A resolution whose picked entries are exactly `keys`, each off the path
   * and resolving, returns the features of those entries, in some order.
   */
  lemma ResolvesTo(m: FeatureMap, order: seq<U8>, childIds: seq<U8>, visited: set<U8>, keys: seq<U8>)
    requires IsIterationOrder(order, m)
    requires forall a, b | 0 <= a < b < |keys| :: keys[a] != keys[b]
    requires forall k :: k in keys <==> k in m && Picked(m, k, childIds)
    requires forall k | k in keys :: k !in visited && Resolve(m, order, m[k].children, visited + {k}).Some?
    ensures Resolve(m, order, childIds, visited).Some?
    ensures multiset(Resolve(m, order, childIds, visited).value) ==
            Ordering.Bag(k => EntryFeature(m, order, visited, k), keys)
  {
    var picked := PickedKeys(m, order, childIds, 0);
    PickedAre(m, order, childIds, keys);
    ResolveFromReturns(m, order, childIds, visited, 0);
    ResolveBag(m, order, childIds, visited);
    PickedKeysDistinct(m, order, childIds, 0);
    Ordering.BagOfSameElements(k => EntryFeature(m, order, visited, k), k => EntryFeature(m, order, visited, k), picked, keys);
  }

  lemma PickedAre(m: FeatureMap, order: seq<U8>, childIds: seq<U8>, keys: seq<U8>)
    requires IsIterationOrder(order, m)
    requires forall k :: k in keys <==> k in m && Picked(m, k, childIds)
    ensures KeysOf(order, m)
    ensures forall k :: k in PickedKeys(m, order, childIds, 0) <==> k in keys
  {
    forall k ensures k in PickedKeys(m, order, childIds, 0) <==> k in keys {
      if k in m {
        assert order[IndexOf(order, k)] == k;
      }
    }
  }

  /** Below 2, the sample's only child 3 resolves to a leaf. */
  lemma SampleLeaf(order: seq<U8>)
    requires IsIterationOrder(order, SampleMap)
    ensures KeysOf(order, SampleMap)
    ensures Resolve(SampleMap, order, [3], {1, 2}) == Some([Feature(3, [])])
  {
    var m := SampleMap;
    NothingPicked(m, order, {1, 2, 3}, 0);
    assert {1 as U8, 2} + {3} == {1, 2, 3};
    var f3 := Feature(3, []);
    ResolvesTo(m, order, [3], {1, 2}, [3]);
    var s2 := Resolve(m, order, [3], {1, 2}).value;
    assert EntryFeature(m, order, {1, 2}, 3) == f3;
    assert multiset(s2) == multiset{f3};
    SingleKey(s2, f3);
  }

  /** Below the root 1, the children 2 and 4 resolve, in an order that depends on the iteration order. */
  lemma SampleChildren(order: seq<U8>)
    requires IsIterationOrder(order, SampleMap)
    ensures KeysOf(order, SampleMap)
    ensures Resolve(SampleMap, order, [2, 4], {1}).Some?
    ensures multiset(Resolve(SampleMap, order, [2, 4], {1}).value) ==
            multiset{Feature(2, [Feature(3, [])]), Feature(4, [])}
  {
    var m := SampleMap;
    ChildFeatures(order);
    ResolvesTo(m, order, [2, 4], {1}, [2, 4]);
    var f := k => EntryFeature(m, order, {1}, k);
    assert [2 as U8, 4][1..] == [4] && [4 as U8][1..] == [];
    assert Ordering.Bag(f, [2, 4]) == multiset{f(2), f(4)};
  }

  /** The two children of the root resolve to their features on their own. */
  lemma ChildFeatures(order: seq<U8>)
    requires IsIterationOrder(order, SampleMap)
    ensures KeysOf(order, SampleMap)
    ensures Resolve(SampleMap, order, SampleMap[2].children, {1, 2}).Some?
    ensures Resolve(SampleMap, order, SampleMap[4].children, {1, 4}).Some?
    ensures EntryFeature(SampleMap, order, {1}, 2) == Feature(2, [Feature(3, [])])
    ensures EntryFeature(SampleMap, order, {1}, 4) == Feature(4, [])
  {
    var m := SampleMap;
    SampleLeaf(order);
    NothingPicked(m, order, {1, 4}, 0);
    assert {1 as U8} + {2} == {1, 2} && {1 as U8} + {4} == {1, 4};
  }

  /**
   * The graph of the sample, for every iteration order: one program, of
   * program 1, whose root 1 has the subfeatures 2 and 4 (in either order),
   * 2 with the single subfeature 3.
   */
  lemma SampleGraph(order: seq<U8>)
    requires IsIterationOrder(order, SampleMap)
    ensures GraphOf(SampleMap, order).Some?
    ensures var programs := GraphOf(SampleMap, order).value.programs;
      && |programs| == 1
      && programs[0].id == 1
      && programs[0].root.id == 1
      && multiset(programs[0].root.subfeatures) == multiset{Feature(2, [Feature(3, [])]), Feature(4, [])}
  {
    var m := SampleMap;
    SampleChildren(order);
    var subs := Resolve(m, order, [2, 4], {1}).value;
    var roots := RootKeys(m, order, 0);
    forall k ensures k in roots <==> k == 1 {
      if k == 1 {
        assert order[IndexOf(order, 1)] == 1;
      }
    }
    RootKeysDistinct(m, order);
    SingleKey(roots, 1);
    var program := Program(1, Feature(1, subs));
    assert ProgramOf(m, order, 1) == Some(program);
    ProgramsFromReturns(m, order, 0);
    ProgramsFromSpec(m, order, 0);
  }

  lemma {:induction false} RootKeysDistinctFrom(m: FeatureMap, order: seq<U8>, i: nat)
    requires i <= |order| && KeysOf(order, m)
    requires forall a, b | 0 <= a < b < |order| :: order[a] != order[b]
    ensures forall a, b | 0 <= a < b < |RootKeys(m, order, i)| :: RootKeys(m, order, i)[a] != RootKeys(m, order, i)[b]
    decreases |order| - i
  {
    if i < |order| {
      RootKeysDistinctFrom(m, order, i + 1);
      forall t | i + 1 <= t < |order| ensures order[t] != order[i] {
      }
      assert order[i] !in RootKeys(m, order, i + 1);
    }
  }

  lemma RootKeysDistinct(m: FeatureMap, order: seq<U8>)
    requires IsIterationOrder(order, m)
    ensures KeysOf(order, m)
    ensures forall a, b | 0 <= a < b < |RootKeys(m, order, 0)| :: RootKeys(m, order, 0)[a] != RootKeys(m, order, 0)[b]
  {
    RootKeysDistinctFrom(m, order, 0);
  }

  /** A list without repetitions whose only element is `k` is `[k]`. */
  lemma SingleKey<T>(xs: seq<T>, k: T)
    requires forall a, b | 0 <= a < b < |xs| :: xs[a] != xs[b]
    requires forall x :: x in xs <==> x == k
    ensures xs == [k]
  {
    Ordering.DistinctPermutation(xs, [k]);
    assert |xs| == |multiset(xs)| == 1;
    assert xs[0] in xs;
  }

  /** The sample, built by `main` under whatever order the map is iterated in. */
  lemma SampleBuilt(order: seq<U8>)
    requires IsIterationOrder(order, Mappings(Sample))
    ensures GraphOf(Mappings(Sample), order).Some?
    ensures var programs := GraphOf(Mappings(Sample), order).value.programs;
      && |programs| == 1 && programs[0].id == 1 && programs[0].root.id == 1
      && multiset(programs[0].root.subfeatures) == multiset{Feature(2, [Feature(3, [])]), Feature(4, [])}
  {
    SampleMappings();
    SampleGraph(order);
  }
}
