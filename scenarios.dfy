/**
 * The repository's own examples, run through the model: the single line of
 * program_ingester/src/input.rs, its copy in feature_ingester/src/input.rs,
 * the four lines of program_ingester/src/lib.rs, the two records of
 * program_ingester/src/output.rs, and an input on which the original never
 * returns.
 *
 * Timestamps are the UTC instants of the texts, in seconds since the Unix
 * epoch; the RFC 3339 parser is any function that reads the date texts used
 * here as those instants.
 */
module Scenarios {
  import opened Wrappers
  import opened Text
  import opened Errors
  import opened Input
  import opened FeatureMaps
  import opened Output
  import opened Equality
  import Ordering
  import opened HashMaps

  /* Parsing one line */

  /**
   * A line made of five space-free fields and a relation `parent->id`, with
   * no whitespace at either end, parses to those fields once both dates do.
   */
  lemma ParsesTo(crate: Crate, rfc3339: Rfc3339Parser, s: string,
                 t0: string, t1: string, t2: string, t3: string, t4: string, parent: string, id: string)
    requires s == t0 + " " + t1 + " " + t2 + " " + t3 + " " + t4 + " " + parent + "->" + id
    requires t0 != [] && !IsWhitespace(t0[0]) && id != [] && !IsWhitespace(id[|id| - 1])
    requires ' ' !in t0 && ' ' !in t1 && Plain(t2) && Plain(t3) && Plain(t4) && Plain(parent) && Plain(id)
    requires rfc3339(t0).Success? && rfc3339(t1).Success?
    ensures FromStr(crate, rfc3339, s) ==
            Success(RawFeature(id, if parent == "null" then None else Some(parent), t2, t3, t4,
                               rfc3339(t0).value, rfc3339(t1).value))
  {
    JoinFields(t0, t1, t2, t3, t4, parent + "->" + id);
    assert s[0] == t0[0] && s[|s| - 1] == id[|id| - 1];
    TrimUnchanged(s);
    NoOccurrenceWithout(parent, "->", 1);
    NoOccurrenceWithout(id, "->", 1);
    ParseFields(crate, rfc3339, s, t0, t1, t2, t3, t4, parent, id);
  }

  /** The same line as `read_line` returns it, with or without its newline, reads as the same record. */
  lemma ReadsTo(crate: Crate, rfc3339: Rfc3339Parser, s: string, tail: string,
                t0: string, t1: string, t2: string, t3: string, t4: string, parent: string, id: string)
    requires s == t0 + " " + t1 + " " + t2 + " " + t3 + " " + t4 + " " + parent + "->" + id
    requires t0 != [] && !IsWhitespace(t0[0]) && id != [] && !IsWhitespace(id[|id| - 1])
    requires ' ' !in t0 && ' ' !in t1 && Plain(t2) && Plain(t3) && Plain(t4) && Plain(parent) && Plain(id)
    requires rfc3339(t0).Success? && rfc3339(t1).Success?
    requires tail == "" || tail == "\n"
    ensures ParseLine(crate, rfc3339, s + tail) ==
            Success(RawFeature(id, if parent == "null" then None else Some(parent), t2, t3, t4,
                               rfc3339(t0).value, rfc3339(t1).value))
  {
    ParsesTo(crate, rfc3339, s, t0, t1, t2, t3, t4, parent, id);
    assert s[|s| - 1] == id[|id| - 1];
    TrimEndNewline(s, tail);
  }

  /** Six fields joined by single spaces. */
  lemma JoinFields(t0: string, t1: string, t2: string, t3: string, t4: string, t5: string)
    ensures Join([t0, t1, t2, t3, t4, t5], " ") == t0 + " " + t1 + " " + t2 + " " + t3 + " " + t4 + " " + t5
  {
    var tokens := [t0, t1, t2, t3, t4, t5];
    assert tokens[5..][1..] == [];
    assert Join(tokens[5..], " ") == t5;
    assert Join(tokens[4..], " ") == t4 + " " + t5;
    assert Join(tokens[3..], " ") == t3 + " " + t4 + " " + t5;
    assert Join(tokens[2..], " ") == t2 + " " + t3 + " " + t4 + " " + t5;
    assert Join(tokens[1..], " ") == t1 + " " + t2 + " " + t3 + " " + t4 + " " + t5;
  }

  const Jan1 := 1672531200
  const Apr30 := 1682812800
  const May1 := 1682899200
  const Jun30 := 1688083200
  const Dec31 := 1703980800

  /** The parser reads the five dates of the examples as their instants. */
  ghost predicate ReadsDates(rfc3339: Rfc3339Parser) {
    && rfc3339("2023-01-01T00:00:00.000Z") == Success(Jan1)
    && rfc3339("2023-04-30T00:00:00.000Z") == Success(Apr30)
    && rfc3339("2023-05-01T00:00:00.000Z") == Success(May1)
    && rfc3339("2023-06-30T00:00:00.000Z") == Success(Jun30)
    && rfc3339("2023-12-31T00:00:00.000Z") == Success(Dec31)
  }

  /** `t` holds neither a space nor the `>` of an arrow. */
  predicate Plain(t: string) {
    ' ' !in t && '>' !in t
  }

  /** `2023-01-01T00:00:00.000Z 2023-06-30T00:00:00.000Z program1 Complete TeamB ProductivitySuite->Email`, field by field. */
  const LineEmail := "2023-01-01T00:00:00.000Z" + " " + "2023-06-30T00:00:00.000Z" + " " + "program1" + " " + "Complete" + " " +
                     "TeamB" + " " + "ProductivitySuite" + "->" + "Email"

  const Email := RawFeature("Email", Some("ProductivitySuite"), "program1", "Complete", "TeamB", Jan1, Jun30)

  /** The line of the parser's own example becomes the record the example expects. */
  lemma EmailLineParses(rfc3339: Rfc3339Parser)
    requires ReadsDates(rfc3339)
    ensures FromStr(ProgramIngester, rfc3339, LineEmail) == Success(Email)
  {
    ParsesTo(ProgramIngester, rfc3339, LineEmail, "2023-01-01T00:00:00.000Z", "2023-06-30T00:00:00.000Z",
             "program1", "Complete", "TeamB", "ProductivitySuite", "Email");
  }

  /** `2023-01-01T00:00:00.000Z 2023-06-30T00:00:00.000Z program_1 Complete Team_B Productivity_Suite->Email`. */
  const CopyLine := "2023-01-01T00:00:00.000Z" + " " + "2023-06-30T00:00:00.000Z" + " " + "program_1" + " " + "Complete" + " " +
                    "Team_B" + " " + "Productivity_Suite" + "->" + "Email"

  /**
   * The copy's example line: the fields are copied as they are written, so
   * the program id is `program_1`, not the `program1` its example expects.
   */
  lemma CopyLineParses(rfc3339: Rfc3339Parser)
    requires ReadsDates(rfc3339)
    ensures var r := FromStr(FeatureIngester, rfc3339, CopyLine);
      && r == Success(RawFeature("Email", Some("Productivity_Suite"), "program_1", "Complete", "Team_B", Jan1, Jun30))
      && r.value.programId != "program1"
  {
    ParsesTo(FeatureIngester, rfc3339, CopyLine,
             "2023-01-01T00:00:00.000Z", "2023-06-30T00:00:00.000Z",
             "program_1", "Complete", "Team_B", "Productivity_Suite", "Email");
  }

  /** A blank line splits into one empty piece and is refused. */
  lemma BlankLineRefused(crate: Crate, rfc3339: Rfc3339Parser, s: string)
    requires forall i | 0 <= i < |s| :: IsWhitespace(s[i])
    ensures FromStr(crate, rfc3339, s) == Failure(InvalidProgramInput(PartsMessage(crate, s)))
  {
    assert TrimStart(s) == [];
    assert Split("", " ") == [""];
  }

  /* Reading the four lines of the crate's example */

  /** `trim_end` takes off the newline `read_line` leaves at the end of a line, and nothing else. */
  lemma TrimEndNewline(s: string, tail: string)
    requires s != [] && !IsWhitespace(s[|s| - 1]) && (tail == "" || tail == "\n")
    ensures TrimEnd(s + tail) == s
  {
    var r := TrimEnd(s + tail);
    if |r| < |s| {
      assert false;
    }
  }

  const LineSuite := "2023-01-01T00:00:00.000Z" + " " + "2023-12-31T00:00:00.000Z" + " " + "program1" + " " + "InProgress" + " " +
                     "TeamA" + " " + "null" + "->" + "ProductivitySuite"
  const LineSearch := "2023-01-01T00:00:00.000Z" + " " + "2023-04-30T00:00:00.000Z" + " " + "program1" + " " + "Complete" + " " +
                      "TeamB" + " " + "Email" + "->" + "EmailSearch"
  const LineFilters := "2023-05-01T00:00:00.000Z" + " " + "2023-06-30T00:00:00.000Z" + " " + "program1" + " " + "Complete" + " " +
                       "TeamB" + " " + "Email" + "->" + "EmailFilters"

  /** The lines as `read_line` hands them over: every line but the last ends in a newline. */
  const LibLines := [LineSuite + "\n", LineEmail + "\n", LineSearch + "\n", LineFilters + ""]

  const Suite := RawFeature("ProductivitySuite", None, "program1", "InProgress", "TeamA", Jan1, Dec31)
  const Search := RawFeature("EmailSearch", Some("Email"), "program1", "Complete", "TeamB", Jan1, Apr30)
  const Filters := RawFeature("EmailFilters", Some("Email"), "program1", "Complete", "TeamB", May1, Jun30)

  const LibRecords := [Suite, Email, Search, Filters]

  /** Each line of the example parses to the record at its position; one lemma per line keeps each proof small. */
  lemma SuiteLineReads(rfc3339: Rfc3339Parser)
    requires ReadsDates(rfc3339)
    ensures ParseLine(ProgramIngester, rfc3339, LibLines[0]) == Success(Suite)
  {
    ReadsTo(ProgramIngester, rfc3339, LineSuite, "\n", "2023-01-01T00:00:00.000Z", "2023-12-31T00:00:00.000Z",
            "program1", "InProgress", "TeamA", "null", "ProductivitySuite");
  }

  lemma EmailLineReads(rfc3339: Rfc3339Parser)
    requires ReadsDates(rfc3339)
    ensures ParseLine(ProgramIngester, rfc3339, LibLines[1]) == Success(Email)
  {
    ReadsTo(ProgramIngester, rfc3339, LineEmail, "\n", "2023-01-01T00:00:00.000Z", "2023-06-30T00:00:00.000Z",
            "program1", "Complete", "TeamB", "ProductivitySuite", "Email");
  }

  lemma SearchLineReads(rfc3339: Rfc3339Parser)
    requires ReadsDates(rfc3339)
    ensures ParseLine(ProgramIngester, rfc3339, LibLines[2]) == Success(Search)
  {
    ReadsTo(ProgramIngester, rfc3339, LineSearch, "\n", "2023-01-01T00:00:00.000Z", "2023-04-30T00:00:00.000Z",
            "program1", "Complete", "TeamB", "Email", "EmailSearch");
  }

  lemma FiltersLineReads(rfc3339: Rfc3339Parser)
    requires ReadsDates(rfc3339)
    ensures ParseLine(ProgramIngester, rfc3339, LibLines[3]) == Success(Filters)
  {
    ReadsTo(ProgramIngester, rfc3339, LineFilters, "", "2023-05-01T00:00:00.000Z", "2023-06-30T00:00:00.000Z",
            "program1", "Complete", "TeamB", "Email", "EmailFilters");
  }

  /** Lines that each parse to the record at their position are read into those records. */
  lemma IngestEach(parse: string -> Result<RawFeature, IngesterError>, lines: seq<string>, records: seq<RawFeature>)
    requires |lines| == |records| && forall i | 0 <= i < |lines| :: parse(lines[i]) == Success(records[i])
    ensures Ingest(parse, lines) == Success(Ingester(records))
  {
    IngestAllOrNothing(parse, lines);
    assert Ingest(parse, lines).value.features == records;
  }

  /** `Ingester::try_from` reads the four lines into the four records, in order. */
  lemma LibLinesIngest(rfc3339: Rfc3339Parser)
    requires ReadsDates(rfc3339)
    ensures Ingest(LineParser(ProgramIngester, rfc3339), LibLines) == Success(Ingester(LibRecords))
  {
    var parse := LineParser(ProgramIngester, rfc3339);
    forall i | 0 <= i < 4 ensures parse(LibLines[i]) == Success(LibRecords[i]) {
      if i == 0 {
        SuiteLineReads(rfc3339);
      } else if i == 1 {
        EmailLineReads(rfc3339);
      } else if i == 2 {
        SearchLineReads(rfc3339);
      } else {
        FiltersLineReads(rfc3339);
      }
    }
    IngestEach(parse, LibLines, LibRecords);
  }

  /* The graph of the crate's example */

  /** The ids of the example are distinct. */
  lemma LibIdsDistinct()
    ensures "ProductivitySuite" != "Email" && "ProductivitySuite" != "EmailSearch" && "ProductivitySuite" != "EmailFilters"
    ensures "Email" != "EmailSearch" && "Email" != "EmailFilters" && "EmailSearch" != "EmailFilters"
  {
  }

  /** The map the build loop makes of the four records. */
  const LibMap: FeatureMap := map[
    "ProductivitySuite" := Entry(Some(Suite), ["Email"]),
    "Email" := Entry(Some(Email), ["EmailSearch", "EmailFilters"]),
    "EmailSearch" := Entry(Some(Search), []),
    "EmailFilters" := Entry(Some(Filters), [])]

  lemma LibMappings()
    ensures Mappings(LibRecords) == LibMap
  {
    LibIdsDistinct();
    MappingsOfTree(Suite, Email, Search, Filters);
  }

  /**
   * The map of a root `r`, its child `c`, and two children `g1`, `g2` of
   * `c`, arriving in that order and with distinct ids.
   */
  lemma MappingsOfTree(r: RawFeature, c: RawFeature, g1: RawFeature, g2: RawFeature)
    requires r.parentId == None && c.parentId == Some(r.id) && g1.parentId == Some(c.id) && g2.parentId == Some(c.id)
    requires r.id != c.id && r.id != g1.id && r.id != g2.id && c.id != g1.id && c.id != g2.id && g1.id != g2.id
    ensures Mappings([r, c, g1, g2]) == map[r.id := Entry(Some(r), [c.id]), c.id := Entry(Some(c), [g1.id, g2.id]),
                                            g1.id := Entry(Some(g1), []), g2.id := Entry(Some(g2), [])]
  {
    var m3 := MappingsOfPath(r, c, g1);
    MappingsSnoc([r, c, g1], g2);
    assert [r, c, g1] + [g2] == [r, c, g1, g2];
    AddLeaf(m3, g2, c.id);
    assert [g1.id] + [g2.id] == [g1.id, g2.id];
    UpdateInPlace(r.id, c.id, g1.id, g2.id, Entry(Some(r), [c.id]), Entry(Some(c), [g1.id]), Entry(Some(g1), []),
                  Entry(Some(g2), []), Entry(Some(c), [g1.id, g2.id]));
  }

  /** Adding a fourth key and then replacing the value under the second gives the map written out. */
  lemma UpdateInPlace<K, V>(a: K, b: K, c: K, d: K, va: V, vb: V, vc: V, vd: V, vb2: V)
    requires a != b && a != c && a != d && b != c && b != d && c != d
    ensures map[a := va, b := vb, c := vc][d := vd][b := vb2] == map[a := va, b := vb2, c := vc, d := vd]
  {
  }

  lemma MappingsSnoc(records: seq<RawFeature>, f: RawFeature)
    ensures Mappings(records + [f]) == Upsert(Mappings(records), f)
  {
    assert (records + [f])[..|records|] == records;
  }

  /** The map of a root `r`, its child `c` and its grandchild `g`, with distinct ids. */
  lemma MappingsOfPath(r: RawFeature, c: RawFeature, g: RawFeature) returns (m: FeatureMap)
    requires r.parentId == None && c.parentId == Some(r.id) && g.parentId == Some(c.id)
    requires r.id != c.id && r.id != g.id && c.id != g.id
    ensures m == map[r.id := Entry(Some(r), [c.id]), c.id := Entry(Some(c), [g.id]), g.id := Entry(Some(g), [])]
    ensures Mappings([r, c, g]) == m
  {
    var m2 := MappingsOfPair(r, c);
    assert [r, c, g][..2] == [r, c];
    AddLeaf(m2, g, c.id);
    assert [] + [g.id] == [g.id];
    m := map[r.id := Entry(Some(r), [c.id]), c.id := Entry(Some(c), [g.id]), g.id := Entry(Some(g), [])];
  }

  /** The map of a root `r` and its child `c`, with distinct ids. */
  lemma MappingsOfPair(r: RawFeature, c: RawFeature) returns (m: FeatureMap)
    requires r.parentId == None && c.parentId == Some(r.id) && r.id != c.id
    ensures m == map[r.id := Entry(Some(r), [c.id]), c.id := Entry(Some(c), [])]
    ensures Mappings([r, c]) == m
  {
    assert [r, c][..1] == [r] && [r][..0] == [];
    var m1 := map[r.id := Entry(Some(r), [])];
    assert Mappings([r]) == m1;
    AddLeaf(m1, c, r.id);
    assert [] + [c.id] == [c.id];
    m := map[r.id := Entry(Some(r), [c.id]), c.id := Entry(Some(c), [])];
  }

  /** The same map when the child arrives before its root: the child's entry creates the root's, which the root then fills. */
  lemma MappingsOfPairChildFirst(r: RawFeature, c: RawFeature)
    requires r.parentId == None && c.parentId == Some(r.id) && r.id != c.id
    ensures Mappings([c, r]) == Mappings([r, c])
  {
  }

  /** A new record whose parent is already in the map adds an entry and extends the parent's children. */
  lemma AddLeaf(m: FeatureMap, f: RawFeature, p: FeatureId)
    requires f.id !in m && p in m && f.parentId == Some(p)
    ensures Upsert(m, f) == m[f.id := Entry(Some(f), [])][p := m[p].(children := m[p].children + [f.id])]
  {
  }

  /** One iteration order of the map: the order the records arrived in. */
  const LibOrder := ["ProductivitySuite", "Email", "EmailSearch", "EmailFilters"]

  /** The graph of the example: one program whose root has the email feature and its two subfeatures. */
  const LibGraph := ProgramGraph([Program("program1",
    FeatureOf(Suite, [FeatureOf(Email, [FeatureOf(Search, []), FeatureOf(Filters, [])])]))])

  lemma LibOrderIterates()
    ensures IsIterationOrder(LibOrder, LibMap) && KeysOf(LibOrder, LibMap)
  {
    LibIdsDistinct();
  }

  /** The two subfeatures of the email feature, in the order `[Suite, Email, Search, Filters]`. */
  lemma LibLeaves()
    ensures KeysOf(LibOrder, LibMap)
    ensures Resolve(LibMap, LibOrder, ["EmailSearch", "EmailFilters"], {"ProductivitySuite", "Email"}) ==
            Success([FeatureOf(Search, []), FeatureOf(Filters, [])])
  {
    LibOrderIterates();
    LibIdsDistinct();
    var m, o, ids, v := LibMap, LibOrder, ["EmailSearch", "EmailFilters"], {"ProductivitySuite", "Email"};
    var fs, ff := FeatureOf(Search, []), FeatureOf(Filters, []);
    assert ResolveFrom(m, o, ids, v, 4) == Success([]);
    assert o[3] == "EmailFilters" && Picked(m, o[3], ids) && o[3] !in v;
    LeafStep(m, o, ids, v, 3);
    assert [ff] + [] == [ff];
    assert ResolveFrom(m, o, ids, v, 3) == Success([ff]);
    assert o[2] == "EmailSearch" && Picked(m, o[2], ids) && o[2] !in v;
    LeafStep(m, o, ids, v, 2);
    assert [fs] + [ff] == [fs, ff];
    assert ResolveFrom(m, o, ids, v, 2) == Success([fs, ff]);
    assert !Picked(m, o[1], ids) && !Picked(m, o[0], ids);
    assert ResolveFrom(m, o, ids, v, 1) == Success([fs, ff]);
  }

  /** The children of the root, in the same order. */
  lemma LibChildren()
    ensures KeysOf(LibOrder, LibMap)
    ensures Resolve(LibMap, LibOrder, ["Email"], {"ProductivitySuite"}) ==
            Success([FeatureOf(Email, [FeatureOf(Search, []), FeatureOf(Filters, [])])])
  {
    LibLeaves();
    LibIdsDistinct();
    var m, o, ids, v := LibMap, LibOrder, ["Email"], {"ProductivitySuite"};
    assert o[3] == "EmailFilters" && !Picked(m, o[3], ids);
    assert o[2] == "EmailSearch" && !Picked(m, o[2], ids);
    assert ResolveFrom(m, o, ids, v, 3) == Success([]);
    assert ResolveFrom(m, o, ids, v, 2) == Success([]);
    assert v + {"Email"} == {"ProductivitySuite", "Email"};
    assert o[1] == "Email" && Picked(m, o[1], ids) && o[1] !in v;
    var fe := FeatureOf(Email, [FeatureOf(Search, []), FeatureOf(Filters, [])]);
    assert [fe] + [] == [fe];
    assert ResolveFrom(m, o, ids, v, 1) == Success([fe]);
    assert o[0] == "ProductivitySuite" && !Picked(m, o[0], ids);
  }

  /** `ProgramGraph::from` builds the expected graph when the map yields the records in arrival order. */
  lemma LibGraphInOrder()
    ensures KeysOf(LibOrder, LibMap) && GraphOf(LibMap, LibOrder) == Success(LibGraph)
  {
    LibChildren();
    LibIdsDistinct();
    var m, o := LibMap, LibOrder;
    assert !IsRootEntry(m, o[1]) && !IsRootEntry(m, o[2]) && !IsRootEntry(m, o[3]);
    assert ProgramsFrom(m, o, 1) == Success([]);
    assert IsRootEntry(m, o[0]);
    var program := LibGraph.programs[0];
    assert ProgramOf(m, o, o[0]) == Success(program);
    assert [program] + [] == [program];
  }

  /**
   * The four lines of the crate's example become, in whatever order the map
   * is iterated, a graph of the same shape as the expected one: a single
   * program whose root has the email feature, with its two subfeatures.
   */
  lemma LibExample(rfc3339: Rfc3339Parser, order: seq<FeatureId>)
    requires ReadsDates(rfc3339)
    ensures Ingest(LineParser(ProgramIngester, rfc3339), LibLines) == Success(Ingester(LibRecords))
    ensures IsIterationOrder(order, Mappings(LibRecords)) ==>
              && KeysOf(order, Mappings(LibRecords))
              && GraphOf(Mappings(LibRecords), order).Success?
              && SameGraph(GraphOf(Mappings(LibRecords), order).value, LibGraph)
  {
    LibLinesIngest(rfc3339);
    LibMappings();
    if IsIterationOrder(order, LibMap) {
      LibOrderIterates();
      LibGraphInOrder();
      GraphOrderIndependent(LibMap, order, LibOrder);
    }
  }

  /* Trees without ties */

  lemma LeafUntied(d: RawFeature)
    ensures Untied(ShapeOf(FeatureOf(d, [])))
  {
  }

  lemma OneChildUntied(d: RawFeature, c: Feature)
    requires Untied(ShapeOf(c))
    ensures Untied(ShapeOf(FeatureOf(d, [c])))
  {
    ShapesOfOne(c);
    UntiedSingleton(ShapeOf(FeatureOf(d, [c])), ShapeOf(c));
  }

  lemma ShapesOfOne(c: Feature)
    ensures ShapesOf([c]) == multiset{ShapeOf(c)}
  {
    assert [c][1..] == [];
    assert ShapesOf([]) == multiset{};
  }

  lemma UntiedSingleton(s: Shape, sub: Shape)
    requires s.subfeatures == multiset{sub} && Untied(sub)
    ensures Untied(s)
  {
  }

  lemma TwoLeavesUntied(d: RawFeature, l1: RawFeature, l2: RawFeature)
    requires l1.startDate != l2.startDate
    ensures Untied(ShapeOf(FeatureOf(d, [FeatureOf(l1, []), FeatureOf(l2, [])])))
  {
    var fs := [FeatureOf(l1, []), FeatureOf(l2, [])];
    assert fs[1..][1..] == [];
    assert ShapesOf(fs) == multiset{ShapeOf(fs[0]), ShapeOf(fs[1])};
    LeafUntied(l1);
    LeafUntied(l2);
  }

  lemma SingleProgramUntied(p: Program)
    requires Untied(ShapeOf(p.root))
    ensures UntiedGraph(ProgramGraph([p]))
  {
    assert [p][1..] == [];
    assert Ordering.Bag(ProgramShapeOf, [p]) == multiset{ProgramShapeOf(p)};
  }

  lemma LibGraphUntied()
    ensures UntiedGraph(LibGraph)
  {
    TwoLeavesUntied(Email, Search, Filters);
    OneChildUntied(Suite, FeatureOf(Email, [FeatureOf(Search, []), FeatureOf(Filters, [])]));
    SingleProgramUntied(LibGraph.programs[0]);
  }

  /**
   * The graph of the crate's example, compared with the expected graph by
   * `PartialEq` as written: equal in every iteration order, since the two
   * subfeatures of the email feature start on different days.
   */
  lemma LibExampleCompares(order: seq<FeatureId>)
    requires IsIterationOrder(order, Mappings(LibRecords))
    ensures KeysOf(order, Mappings(LibRecords)) && GraphOf(Mappings(LibRecords), order).Success?
    ensures GraphEq(GraphOf(Mappings(LibRecords), order).value, LibGraph)
  {
    LibMappings();
    LibOrderIterates();
    LibGraphInOrder();
    GraphOrderIndependent(LibMap, order, LibOrder);
    LibGraphUntied();
    var g := GraphOf(LibMap, order).value;
    assert SameGraph(LibGraph, g);
    GraphEqComplete(g, LibGraph);
  }

  /* The test of the graph builder */

  const Oct1 := 1696118400
  const Oct20 := 1697760000
  const Nov20 := 1700438400
  const Nov30 := 1701302400

  /** `a`: a root of program `t1`, from 2023-10-01 to 2023-11-30. */
  const TestParent := RawFeature("a", None, "t1", "s1", "s1", Oct1, Nov30)
  /** `b`: a child of `a`, from 2023-10-20 to 2023-11-20. */
  const TestChild := RawFeature("b", Some("a"), "t1", "s2", "s1", Oct20, Nov20)

  const TestGraph := ProgramGraph([Program("t1", FeatureOf(TestParent, [FeatureOf(TestChild, [])]))])

  /** A map with two keys is iterated in one of two orders. */
  lemma TwoKeyOrders(m: FeatureMap, a: FeatureId, b: FeatureId, order: seq<FeatureId>)
    requires m.Keys == {a, b} && a != b && IsIterationOrder(order, m)
    ensures order == [a, b] || order == [b, a]
  {
    Ordering.DistinctPermutation(order, [a, b]);
    assert |order| == |multiset(order)| == 2;
    assert order[0] in m && order[1] in m;
  }

  /** The graph of a root and its only child, when the map yields the child first or second. */
  lemma PairGraph(r: RawFeature, c: RawFeature, order: seq<FeatureId>)
    requires r.parentId == None && c.parentId == Some(r.id) && r.id != c.id
    requires order == [r.id, c.id] || order == [c.id, r.id]
    ensures var m := Mappings([r, c]);
      KeysOf(order, m) && GraphOf(m, order) == Success(ProgramGraph([Program(r.programId, FeatureOf(r, [FeatureOf(c, [])]))]))
  {
    var m := MappingsOfPair(r, c);
    var program := Program(r.programId, FeatureOf(r, [FeatureOf(c, [])]));
    var fc := FeatureOf(c, []);
    assert [fc] + [] == [fc] && [program] + [] == [program];
    if order == [r.id, c.id] {
      assert ResolveFrom(m, order, [c.id], {r.id}, 2) == Success([]);
      LeafStep(m, order, [c.id], {r.id}, 1);
      assert ProgramsFrom(m, order, 1) == Success([]);
    } else {
      assert ResolveFrom(m, order, [c.id], {r.id}, 1) == Success([]);
      LeafStep(m, order, [c.id], {r.id}, 0);
      assert ProgramsFrom(m, order, 1) == Success([program]);
    }
  }

  /**
   * The test of the graph builder: a root `a` and its child `b` become the
   * expected graph exactly, in either iteration order and whether the root
   * or the child comes first in the input, and `assert_eq!` holds.
   */
  lemma ParentChildGraph(order: seq<FeatureId>)
    requires IsIterationOrder(order, Mappings([TestParent, TestChild]))
    ensures KeysOf(order, Mappings([TestParent, TestChild]))
    ensures GraphOf(Mappings([TestParent, TestChild]), order) == Success(TestGraph)
    ensures GraphEq(GraphOf(Mappings([TestParent, TestChild]), order).value, TestGraph)
    ensures Mappings([TestChild, TestParent]) == Mappings([TestParent, TestChild])
    ensures KeysOf(order, Mappings([TestChild, TestParent]))
    ensures GraphOf(Mappings([TestChild, TestParent]), order) == Success(TestGraph)
  {
    MappingsOfPairChildFirst(TestParent, TestChild);
    var m := MappingsOfPair(TestParent, TestChild);
    TwoKeyOrders(m, "a", "b", order);
    PairGraph(TestParent, TestChild, order);
    GraphEqReflexive(TestGraph);
  }

  /* An input on which the original never returns */

  /** A root `p`, a record `x` under `p`, and a second record `x` that names itself as parent. */
  const CycleRoot := RawFeature("p", None, "t1", "s1", "s1", Oct1, Nov30)
  const CycleFirst := RawFeature("x", Some("p"), "t1", "s1", "s1", Oct1, Nov20)
  const CycleSecond := RawFeature("x", Some("x"), "t1", "s1", "s1", Oct20, Nov20)

  const CycleRecords := [CycleRoot, CycleFirst, CycleSecond]

  /** The second `x` replaces the first as data and lists `x` among its own children. */
  const CycleMap: FeatureMap := map["p" := Entry(Some(CycleRoot), ["x"]), "x" := Entry(Some(CycleSecond), ["x"])]

  lemma CycleMappings()
    ensures Mappings(CycleRecords) == CycleMap
  {
    var m2 := MappingsOfPair(CycleRoot, CycleFirst);
    assert CycleRecords[..2] == [CycleRoot, CycleFirst];
    assert [] + ["x"] == ["x"];
    assert UpsertOwn(m2, CycleSecond) == m2["x" := Entry(Some(CycleSecond), [])];
  }

  /** Under the order `[p, x]`, resolving below `x` reaches `x` again. */
  lemma CycleInOrder()
    ensures KeysOf(["p", "x"], CycleMap)
    ensures GraphOf(CycleMap, ["p", "x"]) == Failure(CyclicReference("x"))
  {
    var m, o := CycleMap, ["p", "x"];
    assert "p" != "x";
    assert ResolveFrom(m, o, ["x"], {"p", "x"}, 1) == Failure(CyclicReference("x"));
    assert ResolveFrom(m, o, ["x"], {"p", "x"}, 0) == Failure(CyclicReference("x"));
    assert {"p"} + {"x"} == {"p", "x"};
    assert ResolveFrom(m, o, ["x"], {"p"}, 1) == Failure(CyclicReference("x"));
    assert ProgramOf(m, o, "p") == Failure(CyclicReference("x"));
  }

  /**
   * Two records with the same id, one of them its own parent: the original
   * recurses without end, in every iteration order; the model reports a
   * cyclic reference. The records are not unique by id, as
   * `UniqueIdsResolve` requires for a result.
   */
  lemma CycleNeverResolves(order: seq<FeatureId>)
    requires IsIterationOrder(order, Mappings(CycleRecords))
    ensures !UniqueIds(CycleRecords)
    ensures KeysOf(order, Mappings(CycleRecords)) && GraphOf(Mappings(CycleRecords), order).Failure?
  {
    assert CycleRecords[1].id == CycleRecords[2].id;
    CycleMappings();
    CycleInOrder();
    assert IsIterationOrder(["p", "x"], CycleMap);
    GraphOrderIndependent(CycleMap, order, ["p", "x"]);
  }
}
