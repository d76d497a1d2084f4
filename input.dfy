/**
 * The line parser and the ingester (program_ingester/src/input.rs and its
 * field-renamed copy feature_ingester/src/input.rs).
 *
 * A line has six fields separated by single spaces,
 *   <start> <end> <program_id> <progress_status> <assigned_team> <parent>-><id>
 * where <parent> is the literal `null` for a root feature.
 */
module Input {
  import opened Wrappers
  import opened Text
  import opened Errors

  /**
   * chrono's `DateTime<FixedOffset>`, reduced to the UTC instant it denotes.
   * chrono compares and orders such values by that instant alone; the
   * offset only changes how a value is printed.
   */
  type Timestamp = int

  /** `DateTime::parse_from_rfc3339` (section 5.6 of RFC 3339), supplied by the caller. */
  type Rfc3339Parser = string -> Result<Timestamp, ParseErrorKind>

  type FeatureId = string

  /** One parsed line. */
  datatype RawFeature = RawFeature(
    id: FeatureId,
    parentId: Option<FeatureId>,
    programId: string,
    progressStatus: string,
    assignedTeam: string,
    startDate: Timestamp,
    endDate: Timestamp)
  {
    /** A root feature is one without a parent. */
    predicate IsRoot() {
      parentId.None?
    }
  }

  /** The two copies of the parser differ only in the text of their error messages. */
  datatype Crate = ProgramIngester | FeatureIngester

  function PartsMessage(crate: Crate, s: string): string {
    match crate
    case ProgramIngester =>
      "The feature '" + s + "' needs to have 6 parts, start, end, program, progress_status, assigned_team, feature-relation"
    case FeatureIngester =>
      "The feature '" + s + "' needs to have 5 parts, start, end, program, progress_status, assigned_team, feature-relation"
  }

  function RelationMessage(crate: Crate, s: string): string {
    match crate
    case ProgramIngester =>
      "The feature-relation '" + s + "' needs to have 2 parts"
    case FeatureIngester =>
      "The feature-relation '" + s + "' needs to have 5 parts, start, end, program, progress_status, feature-relation"
  }

  /** How a parent is written in the relation field. */
  function ParentText(parentId: Option<FeatureId>): string {
    match parentId
    case None => "null"
    case Some(p) => p
  }

  /**
   * The records a line can express: no space inside a field, no arrow
   * inside an id, no trailing whitespace on the id (it ends the line), and
   * no parent literally named `null`.
   */
  ghost predicate Representable(f: RawFeature) {
    && ' ' !in f.programId
    && ' ' !in f.progressStatus
    && ' ' !in f.assignedTeam
    && ' ' !in f.id
    && NoOccurrence(f.id, "->")
    && (f.id != [] ==> !IsWhitespace(f.id[|f.id| - 1]))
    && (f.parentId.Some? ==>
          && ' ' !in f.parentId.value
          && NoOccurrence(f.parentId.value, "->")
          && f.parentId.value != "null")
  }

  /**
   * `RawFeature::from_str` (and `TryFrom<String>`, which delegates to it).
   * Structure is checked first (six pieces, then exactly one arrow), and
   * only then are the two timestamps parsed, start before end.
   */
  function FromStr(crate: Crate, rfc3339: Rfc3339Parser, s: string): Result<RawFeature, IngesterError> {
    var parts := Split(Trim(s), " ");
    if |parts| != 6 then
      Failure(InvalidProgramInput(PartsMessage(crate, s)))
    else
      var featureIds := Split(parts[5], "->");
      if |featureIds| != 2 then
        Failure(InvalidProgramInput(RelationMessage(crate, s)))
      else
        match rfc3339(parts[0])
        case Failure(e) => Failure(InvalidTimestamp(e))
        case Success(startDate) =>
          match rfc3339(parts[1])
          case Failure(e) => Failure(InvalidTimestamp(e))
          case Success(endDate) =>
            var f := RawFeature(
              id := featureIds[1],
              parentId := if featureIds[0] == "null" then None else Some(featureIds[0]),
              programId := parts[2],
              progressStatus := parts[3],
              assignedTeam := parts[4],
              startDate := startDate,
              endDate := endDate);
            Success(f)
  }

  /** A trimmed line without exactly five separating spaces is refused with the six-parts message. */
  lemma FieldCountChecked(crate: Crate, rfc3339: Rfc3339Parser, s: string)
    ensures Occurrences(Trim(s), " ") != 5 ==>
            FromStr(crate, rfc3339, s) == Failure(InvalidProgramInput(PartsMessage(crate, s)))
  {
    SeparatorsUnbordered();
    PieceCount(Trim(s), " ");
  }

  /** Every record `FromStr` builds is one a line can express. */
  lemma FromStrRepresentable(crate: Crate, rfc3339: Rfc3339Parser, s: string)
    ensures FromStr(crate, rfc3339, s).Success? ==> Representable(FromStr(crate, rfc3339, s).value)
  {
    var r := FromStr(crate, rfc3339, s);
    if r.Success? {
      var t := Trim(s);
      var parts := Split(t, " ");
      assert |parts| == 6;
      var featureIds := Split(parts[5], "->");
      assert |featureIds| == 2;
      PiecesRepresentable(t, parts, featureIds);
      var f := r.value;
      assert f.id == featureIds[1] && f.programId == parts[2];
      assert f.progressStatus == parts[3] && f.assignedTeam == parts[4];
      assert f.parentId == if featureIds[0] == "null" then None else Some(featureIds[0]);
    }
  }

  /** The fields `FromStr` cuts out of a trimmed line satisfy `Representable`. */
  lemma PiecesRepresentable(t: string, parts: seq<string>, featureIds: seq<string>)
    requires t != [] ==> !IsWhitespace(t[|t| - 1])
    requires |parts| == 6 && parts == Split(t, " ")
    requires |featureIds| == 2 && featureIds == Split(parts[5], "->")
    ensures ' ' !in parts[2] && ' ' !in parts[3] && ' ' !in parts[4]
    ensures ' ' !in featureIds[0] && ' ' !in featureIds[1]
    ensures NoOccurrence(featureIds[0], "->") && NoOccurrence(featureIds[1], "->")
    ensures featureIds[1] != [] ==> !IsWhitespace(featureIds[1][|featureIds[1]| - 1])
  {
    SplitJoinsBack(t, " ");
    forall k | 0 <= k < 6 ensures ' ' !in parts[k] {
      NoOccurrenceChar(parts[k], ' ');
    }
    RelationRepresentable(parts[5], featureIds);
    JoinEndsWithLast(parts, " ");
    var rel := parts[5];
    if featureIds[1] != [] {
      assert t[|t| - |rel|..] == rel;
      assert t[|t| - 1] == rel[|rel| - 1];
    }
  }

  /** The two ids cut out of a space-free relation field are space-free and arrow-free, and the second ends it. */
  lemma RelationRepresentable(rel: string, featureIds: seq<string>)
    requires ' ' !in rel
    requires |featureIds| == 2 && featureIds == Split(rel, "->")
    ensures ' ' !in featureIds[0] && ' ' !in featureIds[1]
    ensures NoOccurrence(featureIds[0], "->") && NoOccurrence(featureIds[1], "->")
    ensures rel == featureIds[0] + "->" + featureIds[1]
    ensures featureIds[1] != [] ==> rel[|rel| - 1] == featureIds[1][|featureIds[1]| - 1]
  {
    SplitJoinsBack(rel, "->");
    assert Join(featureIds[1..], "->") == featureIds[1];
    assert rel == featureIds[0] + "->" + featureIds[1];
    assert forall c | c in featureIds[0] :: c in rel;
    assert forall c | c in featureIds[1] :: c in rel;
  }


  /** Six space-free tokens that make up the trimmed line are exactly the pieces `FromStr` works on. */
  lemma PiecesOfTokens(s: string, tokens: seq<string>)
    requires |tokens| >= 1 && Trim(s) == Join(tokens, " ")
    requires forall k | 0 <= k < |tokens| :: ' ' !in tokens[k]
    ensures Split(Trim(s), " ") == tokens
  {
    SeparatorsUnbordered();
    forall k | 0 <= k < |tokens| ensures NoOccurrence(tokens[k], " ") {
      NoOccurrenceChar(tokens[k], ' ');
    }
    SplitJoin(tokens, " ");
  }

  /** A line whose trimmed text is made of space-free tokens, but not six of them, is refused. */
  lemma WrongFieldCountRejected(crate: Crate, rfc3339: Rfc3339Parser, s: string, tokens: seq<string>)
    requires |tokens| >= 1 && |tokens| != 6 && Trim(s) == Join(tokens, " ")
    requires forall k | 0 <= k < |tokens| :: ' ' !in tokens[k]
    ensures FromStr(crate, rfc3339, s) == Failure(InvalidProgramInput(PartsMessage(crate, s)))
  {
    PiecesOfTokens(s, tokens);
  }

  /**
   * With six fields in place, a relation field without exactly one arrow is
   * refused before either timestamp is looked at.
   */
  lemma WrongRelationRejected(crate: Crate, rfc3339: Rfc3339Parser, s: string, tokens: seq<string>)
    requires |tokens| == 6 && Trim(s) == Join(tokens, " ")
    requires forall k | 0 <= k < 6 :: ' ' !in tokens[k]
    requires Occurrences(tokens[5], "->") != 1
    ensures FromStr(crate, rfc3339, s) == Failure(InvalidProgramInput(RelationMessage(crate, s)))
  {
    PiecesOfTokens(s, tokens);
    SeparatorsUnbordered();
    PieceCount(tokens[5], "->");
  }

  /** A relation field with no arrow at all. */
  lemma NoArrowCounted(rel: string)
    requires NoOccurrence(rel, "->")
    ensures Occurrences(rel, "->") == 0
  {
    SeparatorsUnbordered();
    PieceCount(rel, "->");
    SplitJoin([rel], "->");
  }

  /** A relation field with two arrows, such as `a->b->c`. */
  lemma TwoArrowsCounted(a: string, b: string, c: string)
    requires NoOccurrence(a, "->") && NoOccurrence(b, "->") && NoOccurrence(c, "->")
    ensures Occurrences(a + "->" + b + "->" + c, "->") == 2
  {
    SeparatorsUnbordered();
    var rel := a + "->" + b + "->" + c;
    assert [a, b, c][1..] == [b, c] && [b, c][1..] == [c];
    assert Join([b, c], "->") == b + "->" + c;
    assert Join([a, b, c], "->") == rel;
    SplitJoin([a, b, c], "->");
    PieceCount(rel, "->");
  }

  /**
   * Six space-free tokens whose last one holds exactly one arrow parse back to
   * exactly those tokens: the id is the text after the arrow, the parent is
   * absent exactly when the text before it is `null`, the middle three
   * fields are copied verbatim, and a timestamp that fails to parse (the
   * start is tried first) gives `InvalidTimestamp`.
   */
  lemma {:induction false} ParseFields(crate: Crate, rfc3339: Rfc3339Parser, s: string,
                                        t0: string, t1: string, t2: string, t3: string, t4: string,
                                        parent: string, id: string)
    requires Trim(s) == Join([t0, t1, t2, t3, t4, parent + "->" + id], " ")
    requires ' ' !in t0 && ' ' !in t1 && ' ' !in t2 && ' ' !in t3 && ' ' !in t4
    requires ' ' !in parent && ' ' !in id
    requires NoOccurrence(parent, "->") && NoOccurrence(id, "->")
    ensures var r := FromStr(crate, rfc3339, s);
      && (rfc3339(t0).Failure? ==> r == Failure(InvalidTimestamp(rfc3339(t0).error)))
      && (rfc3339(t0).Success? && rfc3339(t1).Failure? ==> r == Failure(InvalidTimestamp(rfc3339(t1).error)))
      && (rfc3339(t0).Success? && rfc3339(t1).Success? ==>
            && r.Success?
            && r.value.id == id
            && r.value.parentId == (if parent == "null" then None else Some(parent))
            && (r.value.IsRoot() <==> parent == "null")
            && r.value.programId == t2
            && r.value.progressStatus == t3
            && r.value.assignedTeam == t4
            && r.value.startDate == rfc3339(t0).value
            && r.value.endDate == rfc3339(t1).value)
  {
    var rel := parent + "->" + id;
    RelationPieces(parent, id);
    PiecesOfTokens(s, [t0, t1, t2, t3, t4, rel]);
  }

  /** The relation field `parent->id` has no space and splits at its one arrow. */
  lemma RelationPieces(parent: string, id: string)
    requires ' ' !in parent && ' ' !in id
    requires NoOccurrence(parent, "->") && NoOccurrence(id, "->")
    ensures ' ' !in parent + "->" + id
    ensures Split(parent + "->" + id, "->") == [parent, id]
  {
    var rel := parent + "->" + id;
    assert forall k | 0 <= k < |rel| :: rel[k] in parent || rel[k] in "->" || rel[k] in id;
    SeparatorsUnbordered();
    assert Join([parent, id], "->") == rel;
    SplitJoin([parent, id], "->");
  }

  /** A record written back as a line, with `format` rendering the timestamps. */
  function FormatLine(format: Timestamp -> string, f: RawFeature): string {
    Join([format(f.startDate), format(f.endDate), f.programId, f.progressStatus, f.assignedTeam,
          ParentText(f.parentId) + "->" + f.id], " ")
  }

  /**
   * Round trip: given a timestamp format that `rfc3339` reads back and that
   * has no space and no leading whitespace, every record a line can express
   * is recovered from its line.
   */
  lemma RoundTrip(crate: Crate, rfc3339: Rfc3339Parser, format: Timestamp -> string, f: RawFeature)
    requires forall t :: rfc3339(format(t)) == Success(t)
    requires forall t :: format(t) != [] && ' ' !in format(t) && !IsWhitespace(format(t)[0])
    requires Representable(f)
    ensures FromStr(crate, rfc3339, FormatLine(format, f)) == Success(f)
  {
    var line := FormatLine(format, f);
    FormatLineTrimmed(format, f);
    if f.parentId.None? {
      NoOccurrenceWithout("null", "->", 1);
    }
    ParseFields(crate, rfc3339, line, format(f.startDate), format(f.endDate), f.programId, f.progressStatus,
                f.assignedTeam, ParentText(f.parentId), f.id);
  }

  /** A formatted line has no whitespace to trim at either end. */
  lemma FormatLineTrimmed(format: Timestamp -> string, f: RawFeature)
    requires forall t :: format(t) != [] && !IsWhitespace(format(t)[0])
    requires f.id != [] ==> !IsWhitespace(f.id[|f.id| - 1])
    ensures Trim(FormatLine(format, f)) == FormatLine(format, f)
  {
    var line := FormatLine(format, f);
    var rel := ParentText(f.parentId) + "->" + f.id;
    var tokens := [format(f.startDate), format(f.endDate), f.programId, f.progressStatus, f.assignedTeam, rel];
    assert line == tokens[0] + " " + Join(tokens[1..], " ");
    assert line[0] == format(f.startDate)[0];
    JoinEndsWithLast(tokens, " ");
    assert line[|line| - |rel|..] == rel;
    assert line[|line| - 1] == rel[|rel| - 1];
    if f.id == [] {
      assert rel[|rel| - 1] == '>';
    } else {
      assert rel[|rel| - 1] == f.id[|f.id| - 1];
    }
    TrimUnchanged(line);
  }

  /**
   * The two copies of `from_str` accept the same lines, build the same
   * records and report the same kind of error; only the message text of
   * `InvalidProgramInput` differs.
   */
  lemma CopiesAgree(rfc3339: Rfc3339Parser, s: string)
    ensures var a := FromStr(ProgramIngester, rfc3339, s);
            var b := FromStr(FeatureIngester, rfc3339, s);
      && (a.Success? <==> b.Success?)
      && (a.Success? ==> a == b)
      && (a.Failure? ==> (a.error.InvalidProgramInput? <==> b.error.InvalidProgramInput?))
      && (a.Failure? && a.error.InvalidTimestamp? ==> a == b)
  {
  }

  /** `Ingester`: the records of all lines, in input order. */
  datatype Ingester = Ingester(features: seq<RawFeature>)

  /** One line as the read loop hands it over: trailing whitespace (the newline) removed first. */
  function ParseLine(crate: Crate, rfc3339: Rfc3339Parser, line: string): Result<RawFeature, IngesterError> {
    FromStr(crate, rfc3339, TrimEnd(line))
  }

  /** The per-line parser of one copy of the crate, as a value. */
  function LineParser(crate: Crate, rfc3339: Rfc3339Parser): string -> Result<RawFeature, IngesterError> {
    line => ParseLine(crate, rfc3339, line)
  }

  /** `Ingester::try_from` as a fold over the lines: the first failing line aborts the whole batch. */
  function Ingest(parse: string -> Result<RawFeature, IngesterError>, lines: seq<string>): Result<Ingester, IngesterError>
    decreases |lines|
  {
    if lines == [] then Success(Ingester([]))
    else
      match parse(lines[0])
      case Failure(e) => Failure(e)
      case Success(f) =>
        match Ingest(parse, lines[1..])
        case Failure(e) => Failure(e)
        case Success(rest) => Success(Ingester([f] + rest.features))
  }

  /** Ingesting succeeds exactly when every line parses, and then yields one record per line, in order. */
  lemma {:induction false} IngestAllOrNothing(parse: string -> Result<RawFeature, IngesterError>, lines: seq<string>)
    ensures Ingest(parse, lines).Success? <==> forall i | 0 <= i < |lines| :: parse(lines[i]).Success?
    ensures Ingest(parse, lines).Success? ==>
            var features := Ingest(parse, lines).value.features;
            && |features| == |lines|
            && forall i | 0 <= i < |lines| :: features[i] == parse(lines[i]).value
    decreases |lines|
  {
    if lines != [] {
      IngestAllOrNothing(parse, lines[1..]);
      assert forall i | 1 <= i < |lines| :: lines[i] == lines[1..][i - 1];
    }
  }

  /** The first failing line decides the error, and no partial list is returned. */
  lemma {:induction false} IngestFirstError(parse: string -> Result<RawFeature, IngesterError>, lines: seq<string>, k: nat)
    requires k < |lines| && parse(lines[k]).Failure?
    requires forall i | 0 <= i < k :: parse(lines[i]).Success?
    ensures Ingest(parse, lines) == Failure(parse(lines[k]).error)
    decreases k
  {
    if k > 0 {
      assert lines[1..][k - 1] == lines[k];
      assert forall i | 0 <= i < k - 1 :: lines[1..][i] == lines[i + 1];
      IngestFirstError(parse, lines[1..], k - 1);
    }
  }

  /** `features` put in front of the records of a successful result; an error passes through. */
  function Prefixed(features: seq<RawFeature>, r: Result<Ingester, IngesterError>): Result<Ingester, IngesterError> {
    match r
    case Failure(e) => Failure(e)
    case Success(rest) => Success(Ingester(features + rest.features))
  }

  lemma PrefixedTwice(features: seq<RawFeature>, f: RawFeature, r: Result<Ingester, IngesterError>)
    ensures Prefixed(features, Prefixed([f], r)) == Prefixed(features + [f], r)
  {
    if r.Success? {
      assert features + ([f] + r.value.features) == (features + [f]) + r.value.features;
    }
  }

  /** One step of the fold, taken at position `i`. */
  lemma IngestStep(parse: string -> Result<RawFeature, IngesterError>, lines: seq<string>, i: nat)
    requires i < |lines|
    ensures Ingest(parse, lines[i..]) ==
            match parse(lines[i])
            case Failure(e) => Failure(e)
            case Success(f) => Prefixed([f], Ingest(parse, lines[i + 1..]))
  {
    assert lines[i..][0] == lines[i];
    assert lines[i..][1..] == lines[i + 1..];
  }

  /**
   * The read loop of `Ingester::try_from`, pushing one record per line; the
   * per-line parser is a parameter so that the loop is proved once for both copies.
   */
  method ReadFeatures(parse: string -> Result<RawFeature, IngesterError>, lines: seq<string>) returns (r: Result<Ingester, IngesterError>)
    ensures r == Ingest(parse, lines)
  {
    var features: seq<RawFeature> := [];
    var i := 0;
    assert lines[0..] == lines;
    assert Ingest(parse, lines).Success? ==>
           Ingest(parse, lines).value == Ingester([] + Ingest(parse, lines).value.features);
    while i < |lines|
      invariant 0 <= i <= |lines|
      invariant Ingest(parse, lines) == Prefixed(features, Ingest(parse, lines[i..]))
    {
      var feature := parse(lines[i]);
      IngestStep(parse, lines, i);
      if feature.Failure? {
        return Failure(feature.error);
      }
      PrefixedTwice(features, feature.value, Ingest(parse, lines[i + 1..]));
      features := features + [feature.value];
      i := i + 1;
    }
    assert lines[i..] == [] && features + [] == features;
    r := Success(Ingester(features));
  }

  /** `Ingester::try_from`: each line has its trailing whitespace removed and goes through `from_str`. */
  method TryFrom(crate: Crate, rfc3339: Rfc3339Parser, lines: seq<string>) returns (r: Result<Ingester, IngesterError>)
    ensures r == Ingest(LineParser(crate, rfc3339), lines)
  {
    r := ReadFeatures(LineParser(crate, rfc3339), lines);
  }
}
