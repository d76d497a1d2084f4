/**
 * The parent -> children index that `ProgramGraph::from` builds before it
 * resolves anything (program_ingester/src/output.rs and
 * feature_ingester/src/output.rs): `FeatureMap` maps an id to the record
 * last seen under that id, if any, and to the ids of its children in
 * arrival order.
 */
module FeatureMaps {
  import opened Wrappers
  import opened Input

  /** `FeatureDataAndChildren`. */
  datatype Entry = Entry(data: Option<RawFeature>, children: seq<FeatureId>)

  /** `FeatureMap`, a `HashMap` from id to entry. */
  type FeatureMap = map<FeatureId, Entry>

  /**
   * Step 1 of the build loop: the record's own entry gets the record as its
   * data; an existing entry keeps the children it has collected.
   */
  function UpsertOwn(m: FeatureMap, f: RawFeature): (r: FeatureMap)
    ensures r.Keys == m.Keys + {f.id}
    ensures r[f.id].data == Some(f)
    ensures r[f.id].children == (if f.id in m then m[f.id].children else [])
    ensures forall k | k in m && k != f.id :: r[k] == m[k]
  {
    if f.id in m then m[f.id := m[f.id].(data := Some(f))]
    else m[f.id := Entry(Some(f), [])]
  }

  /**
   * Step 2 of the build loop: the parent's entry, if the record has a
   * parent, gets the record's id appended, or is created without data.
   */
  function UpsertParent(m: FeatureMap, f: RawFeature): (r: FeatureMap)
    ensures f.parentId.None? ==> r == m
    ensures f.parentId.Some? ==> r.Keys == m.Keys + {f.parentId.value}
    ensures f.parentId.Some? ==> var p := f.parentId.value;
      && r[p].data == (if p in m then m[p].data else None)
      && r[p].children == (if p in m then m[p].children else []) + [f.id]
      && forall k | k in m && k != p :: r[k] == m[k]
  {
    match f.parentId
    case None => m
    case Some(p) =>
      if p in m then m[p := m[p].(children := m[p].children + [f.id])]
      else m[p := Entry(None, [f.id])]
  }

  /** One iteration of the build loop: step 1, then step 2. */
  function Upsert(m: FeatureMap, f: RawFeature): FeatureMap {
    UpsertParent(UpsertOwn(m, f), f)
  }

  /** The map after the build loop has run over `records`. */
  function Mappings(records: seq<RawFeature>): FeatureMap
    decreases |records|
  {
    if records == [] then map[]
    else Upsert(Mappings(records[..|records| - 1]), records[|records| - 1])
  }

  /** Reference definition: the last record in `records` whose id is `k`. */
  function LastWithId(records: seq<RawFeature>, k: FeatureId): (r: Option<RawFeature>)
    ensures r.Some? ==> r.value.id == k && r.value in records
    ensures r.None? <==> forall i | 0 <= i < |records| :: records[i].id != k
    decreases |records|
  {
    if records == [] then None
    else if records[|records| - 1].id == k then Some(records[|records| - 1])
    else LastWithId(records[..|records| - 1], k)
  }

  /** Reference definition: the ids of the records whose parent is `k`, in input order. */
  function ChildrenOf(records: seq<RawFeature>, k: FeatureId): seq<FeatureId>
    decreases |records|
  {
    if records == [] then []
    else
      var last := records[|records| - 1];
      ChildrenOf(records[..|records| - 1], k) + (if last.parentId == Some(k) then [last.id] else [])
  }

  /** `k` is the id or the parent of some record. */
  ghost predicate Mentioned(records: seq<RawFeature>, k: FeatureId) {
    exists i | 0 <= i < |records| :: records[i].id == k || records[i].parentId == Some(k)
  }

  /**
   * What the build loop computes: the keys are exactly the ids and parents
   * mentioned by some record; an entry's data is the last record with that
   * id (none if the id only ever appeared as a parent); its children are
   * the ids of the records naming it as parent, one per such record, in
   * input order.
   */
  lemma MappingsCharacterized(records: seq<RawFeature>)
    ensures forall k :: k in Mappings(records) <==> Mentioned(records, k)
    ensures forall k | k in Mappings(records) ::
              Mappings(records)[k] == Entry(LastWithId(records, k), ChildrenOf(records, k))
  {
    forall k ensures k in Mappings(records) <==> Mentioned(records, k)
             ensures k in Mappings(records) ==>
                       Mappings(records)[k] == Entry(LastWithId(records, k), ChildrenOf(records, k))
    {
      EntryCharacterized(records, k);
    }
  }

  /** `MappingsCharacterized` for one key, by induction on the records. */
  lemma {:induction false} EntryCharacterized(records: seq<RawFeature>, k: FeatureId)
    ensures k in Mappings(records) <==> Mentioned(records, k)
    ensures k in Mappings(records) ==>
              Mappings(records)[k] == Entry(LastWithId(records, k), ChildrenOf(records, k))
    decreases |records|
  {
    if records != [] {
      var n := |records| - 1;
      var init, f := records[..n], records[n];
      EntryCharacterized(init, k);
      MentionedSnoc(records, k);
      UpsertEntry(Mappings(init), f, k);
      if k !in Mappings(init) {
        NotMentionedHasNothing(init, k);
      }
    }
  }

  /** What one iteration of the build loop does to the entry under `k`. */
  lemma UpsertEntry(m: FeatureMap, f: RawFeature, k: FeatureId)
    ensures k in Upsert(m, f) <==> k in m || k == f.id || f.parentId == Some(k)
    ensures k in Upsert(m, f) ==>
              && Upsert(m, f)[k].data == (if k == f.id then Some(f) else if k in m then m[k].data else None)
              && Upsert(m, f)[k].children ==
                   (if k in m then m[k].children else []) + (if f.parentId == Some(k) then [f.id] else [])
  {
    if k in m {
      assert m[k].children + [] == m[k].children;
    }
  }

  /** The last record mentions `k`, or an earlier one does. */
  lemma MentionedSnoc(records: seq<RawFeature>, k: FeatureId)
    requires records != []
    ensures var n := |records| - 1;
      Mentioned(records, k) <==>
        Mentioned(records[..n], k) || records[n].id == k || records[n].parentId == Some(k)
  {
    var n := |records| - 1;
    if Mentioned(records, k) {
      var i :| 0 <= i < |records| && (records[i].id == k || records[i].parentId == Some(k));
      if i < n {
        assert records[..n][i] == records[i];
      }
    }
    if Mentioned(records[..n], k) {
      var i :| 0 <= i < n && (records[..n][i].id == k || records[..n][i].parentId == Some(k));
      assert records[i] == records[..n][i];
    }
  }

  /** An id the records never mention has no record and no children. */
  lemma {:induction false} NotMentionedHasNothing(records: seq<RawFeature>, k: FeatureId)
    requires !Mentioned(records, k)
    ensures LastWithId(records, k) == None && ChildrenOf(records, k) == []
    decreases |records|
  {
    if records != [] {
      var n := |records| - 1;
      forall i | 0 <= i < n ensures records[..n][i] == records[i] {
      }
      assert !(records[n].id == k || records[n].parentId == Some(k));
      NotMentionedHasNothing(records[..n], k);
    }
  }

  /** Every child id collected under any key is the id of some record. */
  lemma {:induction false} ChildrenAreRecords(records: seq<RawFeature>, k: FeatureId)
    ensures forall c | c in ChildrenOf(records, k) :: exists i | 0 <= i < |records| :: records[i].id == c
    decreases |records|
  {
    if records != [] {
      var n := |records| - 1;
      ChildrenAreRecords(records[..n], k);
      forall c | c in ChildrenOf(records, k) ensures exists i | 0 <= i < |records| :: records[i].id == c {
        if c in ChildrenOf(records[..n], k) {
          var i :| 0 <= i < n && records[..n][i].id == c;
          assert records[i].id == c;
        } else {
          assert records[n].id == c;
        }
      }
    }
  }

  /**
   * The map's invariants: an entry's data, when present, is the record
   * with the entry's key as id, and every child id names an entry whose
   * data is present.
   */
  ghost predicate WellFormed(m: FeatureMap) {
    && (forall k | k in m && m[k].data.Some? :: m[k].data.value.id == k)
    && (forall k, c | k in m && c in m[k].children :: c in m && m[c].data.Some?)
  }

  /**
   * One iteration keeps the invariants, because the record's own entry
   * gets its data (step 1) before its id is added to the parent's
   * children (step 2).
   */
  lemma UpsertPreservesWellFormed(m: FeatureMap, f: RawFeature)
    requires WellFormed(m)
    ensures WellFormed(Upsert(m, f))
  {
    var m1 := UpsertOwn(m, f);
    OwnKeepsWellFormed(m, f);
    ParentKeepsWellFormed(m1, f);
  }

  /** Step 1 keeps the invariants. */
  lemma OwnKeepsWellFormed(m: FeatureMap, f: RawFeature)
    requires WellFormed(m)
    ensures WellFormed(UpsertOwn(m, f))
  {
    var m1 := UpsertOwn(m, f);
    forall k, c | k in m1 && c in m1[k].children ensures c in m1 && m1[c].data.Some? {
      assert k in m;
      assert c in m[k].children;
    }
  }

  /** Step 2 keeps the invariants once the record's own entry holds data. */
  lemma ParentKeepsWellFormed(m: FeatureMap, f: RawFeature)
    requires WellFormed(m) && f.id in m && m[f.id].data.Some?
    ensures WellFormed(UpsertParent(m, f))
  {
    var m2 := UpsertParent(m, f);
    forall k, c | k in m2 && c in m2[k].children ensures c in m2 && m2[c].data.Some? {
      if f.parentId.Some? && k == f.parentId.value && c != f.id {
        assert k in m && c in m[k].children;
      }
    }
  }

  /**
   * After the loop the invariants hold, and the entries without data are
   * exactly the parents that never arrived as a record of their own.
   */
  lemma {:induction false} MappingsWellFormed(records: seq<RawFeature>)
    ensures WellFormed(Mappings(records))
    ensures forall k | k in Mappings(records) ::
              Mappings(records)[k].data.None? <==> forall i | 0 <= i < |records| :: records[i].id != k
    decreases |records|
  {
    if records != [] {
      MappingsWellFormed(records[..|records| - 1]);
      UpsertPreservesWellFormed(Mappings(records[..|records| - 1]), records[|records| - 1]);
    }
    MappingsCharacterized(records);
  }

  lemma {:induction false} ChildrenOfAppend(records: seq<RawFeature>, more: seq<RawFeature>, k: FeatureId)
    ensures ChildrenOf(records + more, k) == ChildrenOf(records, k) + ChildrenOf(more, k)
    decreases |more|
  {
    if more == [] {
      assert records + more == records;
    } else {
      var n := |more| - 1;
      assert (records + more)[..|records + more| - 1] == records + more[..n];
      ChildrenOfAppend(records, more[..n], k);
    }
  }

  /**
   * Children lists only grow: a key present after some records stays
   * present after more, and its children list is extended at the end.
   */
  lemma ChildrenGrow(records: seq<RawFeature>, more: seq<RawFeature>)
    ensures forall k | k in Mappings(records) ::
              && k in Mappings(records + more)
              && Mappings(records)[k].children <= Mappings(records + more)[k].children
  {
    MappingsCharacterized(records);
    MappingsCharacterized(records + more);
    forall k | k in Mappings(records)
      ensures k in Mappings(records + more)
      ensures Mappings(records)[k].children <= Mappings(records + more)[k].children
    {
      var i :| 0 <= i < |records| && (records[i].id == k || records[i].parentId == Some(k));
      assert (records + more)[i] == records[i];
      ChildrenOfAppend(records, more, k);
    }
  }
}
