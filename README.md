# Gantt-chart program ingester, modelled in Dafny

The ingester reads a log of program features. It builds the tree of programs a Gantt chart is drawn from. Each log line is one feature record:

    <start> <end> <program> <progress_status> <assigned_team> <parent>-><id>

The parent is `null` for the root feature of a program.

`Ingester::try_from` reads the lines. It trims each one and parses it with `RawFeature::from_str`. The first line that does not parse ends the run with its error.

`ProgramGraph::from` then works in three steps:

1. It indexes the records in a `HashMap` from feature id to the record last seen under that id and the ids of that feature's children (`FeatureMap`).
2. It picks out the root entries.
3. It resolves each root's children recursively with `resolve_subfeatures`.

`Feature` and `ProgramGraph` compare (and serialize) their child lists after a stable sort by start date. The repository has two copies of the crate, `program_ingester` and `feature_ingester`, and a prototype of the resolver over `u8` ids in `program_ingester/examples/simple_tree.rs`.

The model is organised in these modules:

- `Text`: the string operations the parser relies on. These are `trim`, `trim_end` and `split`, with `split` proved inverse to joining.
- `Input`: `from_str` and the ingest loop.
  - The loop is written twice: as a function `Ingest` and as a method `ReadFeatures` with a `while` loop, and the method is proved equal to the function. `TryFrom` runs that loop with the line parser.
  - The `feature_ingester` copy differs only in the text of its two `InvalidProgramInput` messages. It is selected by a `Crate` argument.
- `FeatureMaps`: the two upserts of the build loop, and a characterisation of the finished map directly in terms of the records.
- `HashMaps`: the iteration of a `HashMap`, shared by `Output` and `SimpleTree`.
- `Output`: the roots and `resolve_subfeatures`, as functions, plus the build loop and the program loop as methods proved equal to them.
- `Ordering`: `sort_by_key` as a stable insertion sort, with its properties.
- `Equality`: the hand-written `PartialEq` implementations.
  - It also gives an order-blind comparison of graphs (`SameGraph`). Under `SameGraph`, the result of `ProgramGraph::from` is the same for every `HashMap` iteration order.
- `InputOrder`: with unique ids, the graph does not depend on the order of the input records, up to the order of programs and children.
- `SimpleTree`: the prototype, including its `Display` and its sample input. It has its own record, entry and feature types, so its map and resolver are stated over those types beside the ones of `Output`.
- `Scenarios`: the repository's own test inputs, worked through the model.

Two modelling choices:

- **HashMap iteration order.** The order in which a `HashMap` is iterated is an explicit sequence `order` listing every key once. The methods choose it nondeterministically.
- **Cycles.** `resolve_subfeatures` recurses forever when an entry is reached again below itself. The model carries the entries of the current path and returns `CyclicReference` (or `None` in the prototype) there. On every input where the original returns, the model returns the same value.

The scenario lemmas show two things about the repository's tests:

- `feature_ingester/src/input.rs:145` parses to a record whose program id is `program_1`. The test's expected value at line 150 says `program1`.
- `feature_ingester/src/lib.rs:47-48` gives the root two children, `Email` and `Calendar`, that start at the same instant. That is the situation described under Findings.

## Model

| member | source | states |
|---|---|---|
| Text.TrimEnd | program_ingester/src/input.rs:42 | `trim_end` removes exactly the trailing whitespace. The result is a prefix of the line, every removed character is whitespace, and the result does not end in whitespace. |
| Text.TrimStart | program_ingester/src/input.rs:108 | the leading half of `trim`: the result is a suffix of the input, every removed character is whitespace, and the result does not start with whitespace |
| Text.Trim | program_ingester/src/input.rs:108 | `trim`: the leading and trailing whitespace removed; `Text.TrimStart`, `Text.TrimEnd` and `Text.TrimUnchanged` state what it keeps and removes |
| Text.TrimUnchanged | program_ingester/src/input.rs:108 | `trim` leaves a string unchanged when it neither starts nor ends with whitespace |
| Text.FindFirstLeftmost | program_ingester/src/input.rs:108-120 | the separator search used by `split` returns the leftmost occurrence, and returns none exactly when the separator does not occur |
| Text.Split | program_ingester/src/input.rs:108-120 | `str::split` on a non-empty separator: the pieces between successive leftmost occurrences, at least one; `Text.SplitJoinsBack`, `Text.SplitJoin` and `Text.PieceCount` state its properties |
| Text.SplitJoinsBack | program_ingester/src/input.rs:108-120 | joining the pieces of `split` with the separator gives the string back, and no piece contains the separator |
| Text.SplitJoin | program_ingester/src/input.rs:108-120 | splitting a join of separator-free pieces on `" "` or `"->"` gives back exactly those pieces |
| Text.PieceCount | program_ingester/src/input.rs:108-120 | `split` on `" "` or `"->"` yields one more piece than there are occurrences of the separator |
| Input.RawFeature.IsRoot | program_ingester/src/input.rs:88-90 | `is_root`: the record has no parent; `Input.ParseFields` states that this holds exactly when the relation's parent text is `null` |
| Input.FromStr | program_ingester/src/input.rs:107-140 | `from_str` in either crate: trim, split on single spaces, refuse any count but six, split the last field on `->`, refuse any count but two, then parse start and end date and build the record; the lemmas below state each error path and the accepted records |
| Input.FieldCountChecked | program_ingester/src/input.rs:108-114 | a line whose trimmed text does not hold exactly five single spaces is refused with the "needs to have 6 parts" `InvalidProgramInput` error, in both crates |
| Input.WrongFieldCountRejected | program_ingester/src/input.rs:108-114 | a line made of any number of space-free fields other than six is refused with that crate's parts message |
| Input.WrongRelationRejected | program_ingester/src/input.rs:117-126 | six fields whose last one does not hold exactly one `->` are refused with the "feature-relation" message, before any date is parsed |
| Input.NoArrowCounted | program_ingester/src/input.rs:120-126 | a relation field without `->` counts zero arrows, so the two-part check refuses it |
| Input.TwoArrowsCounted | program_ingester/src/input.rs:120-126 | a relation field with two arrows counts two, so the two-part check refuses it |
| Input.ParseFields | program_ingester/src/input.rs:107-140 | On a line of six fields with relation `parent->id`, an unparsable start date fails with `InvalidTimestamp` carrying the parser's error, and the start is checked first. Then the end date is checked the same way. Otherwise the record carries `id`, a parent that is `None` exactly when the text before the arrow is `null` (so `is_root` holds exactly then), fields 3-5 as program, status and team, and the two dates. |
| Input.FromStrRepresentable | program_ingester/src/input.rs:107-140 | every record `from_str` accepts can be written back as a log line: no field holds a space, and neither id holds `->` |
| Input.RoundTrip | program_ingester/src/input.rs:107-140 | a record written as a log line (with dates in a format the RFC 3339 parser reads back) parses to that same record |
| Input.CopiesAgree | feature_ingester/src/input.rs:90-121 | The two crates' `from_str` accept the same lines and yield the same records. They refuse the same lines with the same kind of error, with identical timestamp errors. |
| Input.ParseLine | program_ingester/src/input.rs:42-43 | one line of the read loop: its trailing whitespace removed, then `from_str`; `Scenarios.TrimEndNewline` and `Scenarios.ReadsTo` state what that does to a line read with its newline |
| Input.LineParser | program_ingester/src/input.rs:43 | the line parser of one crate with one RFC 3339 parser, as the function the read loop applies; `Input.TryFrom` states that it is the parser `try_from` uses |
| Input.Ingest | program_ingester/src/input.rs:39-48 | the read loop as a function: the parsed lines in order, or the error of the first line that fails; `Input.IngestAllOrNothing`, `Input.IngestFirstError` and `Input.ReadFeatures` state its properties |
| Input.IngestAllOrNothing | program_ingester/src/input.rs:32-49 | ingesting succeeds exactly when every line parses, and then yields one feature per line, in line order |
| Input.IngestFirstError | program_ingester/src/input.rs:39-47 | the first line that fails to parse decides the error; later lines do not matter |
| Input.ReadFeatures | program_ingester/src/input.rs:39-48 | the read loop, which pushes one parsed line at a time and stops at the first error, computes exactly the all-or-nothing ingest of the lines |
| Input.TryFrom | program_ingester/src/input.rs:32-49 | `Ingester::try_from`, in either crate, yields the ingest of the lines, each first stripped of trailing whitespace (the newline `read_line` keeps) and then parsed by `from_str` |
| FeatureMaps.UpsertOwn | program_ingester/src/output.rs:172-183 | step 1: the record's own entry gets the record as its data and keeps the children it had (none if new); every other entry is unchanged |
| FeatureMaps.UpsertParent | program_ingester/src/output.rs:185-198 | Step 2: a root record leaves the map unchanged. Otherwise the parent's entry gets the record's id appended to its children and keeps its data (none if new), and every other entry is unchanged. |
| FeatureMaps.Upsert | program_ingester/src/output.rs:163-199 | one iteration of the build loop: step 1 then step 2 on one record; `FeatureMaps.UpsertEntry` and `FeatureMaps.UpsertPreservesWellFormed` state its effect |
| FeatureMaps.Mappings | program_ingester/src/output.rs:161-199 | the map after the build loop has upserted every record in input order; `FeatureMaps.MappingsCharacterized` and `FeatureMaps.MappingsWellFormed` state what it holds |
| FeatureMaps.UpsertEntry | program_ingester/src/output.rs:163-199 | after one iteration, a key is present exactly when it was before or is the record's id or parent id, with the data and children the two upserts give it |
| FeatureMaps.LastWithId | program_ingester/src/output.rs:172-173 | the record an entry ends up holding has the entry's id and is one of the input records; there is none exactly when no record has that id |
| FeatureMaps.EntryCharacterized | program_ingester/src/output.rs:163-199 | An id has an entry after the loop exactly when some record has it as id or parent id. Its data is the last record with that id, and its children are the ids of the records naming it as parent, in input order. |
| FeatureMaps.MappingsCharacterized | program_ingester/src/output.rs:163-199 | the same characterisation, for every key of the finished map at once |
| FeatureMaps.ChildrenAreRecords | program_ingester/src/output.rs:185-198 | every child id collected under an entry is the id of some input record |
| FeatureMaps.ChildrenOfAppend | program_ingester/src/output.rs:185-198 | the children collected from two stretches of input are those of the first followed by those of the second |
| FeatureMaps.ChildrenGrow | program_ingester/src/output.rs:163-199 | later records never remove an entry or a child: each entry's children only grow, by appending |
| FeatureMaps.UpsertPreservesWellFormed | program_ingester/src/output.rs:163-199 | one iteration keeps the map's invariant: an entry's data has the entry's id, and every child id names an entry that has data |
| FeatureMaps.OwnKeepsWellFormed | program_ingester/src/output.rs:172-183 | step 1 keeps that invariant |
| FeatureMaps.ParentKeepsWellFormed | program_ingester/src/output.rs:185-198 | step 2 keeps it, given that step 1 has already stored the record |
| FeatureMaps.MappingsWellFormed | program_ingester/src/output.rs:163-199 | The finished map satisfies the invariant. An entry is left without data exactly when no record carries its id, so the expectation in the comment at line 170 holds only when every parent id is also a record's id. |
| Output.Picked | program_ingester/src/output.rs:137-144 | the filter of `resolve_subfeatures`: the entry has data whose id is one of the child ids; `Output.PickedKeys` states which entries pass it |
| Output.ResolveFrom | program_ingester/src/output.rs:131-158 | `resolve_subfeatures` over the entries from one position of the iteration on, failing with `CyclicReference` on an entry already on the path; `Output.ResolveFromSpec`, `Output.ResolveFromSucceeds` and `Equality.ResolveSucceedsIff` state its result |
| Output.Resolve | program_ingester/src/output.rs:131-158 | `resolve_subfeatures` over the whole iteration; `Output.ResolveOnePerChild` and `Equality.ResolveOrderIndependent` state its result |
| Output.PickedKeys | program_ingester/src/output.rs:137-144 | the entries `resolve_subfeatures` keeps from the iteration are exactly the keys whose data has an id in `child_ids` |
| Output.ResolveFromSpec | program_ingester/src/output.rs:131-158 | a successful resolution yields one feature per kept entry, in iteration order, each carrying that entry's record and the resolution of that entry's own children |
| Output.ResolveFromSucceeds | program_ingester/src/output.rs:131-158 | the resolution succeeds when every kept entry is off the current path and its own children resolve |
| Output.PickedKeysDistinct | program_ingester/src/output.rs:133-135 | because a `HashMap` yields each key once, no entry is resolved twice in one child list |
| Output.ResolveOnePerChild | program_ingester/src/output.rs:131-158 | On a well-formed map, a successful resolution yields exactly one feature per child id, none twice. Each is the child's record with its own resolved children. |
| Output.ResolvedIds | program_ingester/src/output.rs:148-155 | each resolved feature carries the id of the entry it was built from |
| Output.IsRootEntry | program_ingester/src/output.rs:201-212 | the roots filter: an entry whose data is present and is a root; `Output.RootKeys` states which entries pass it |
| Output.ProgramOf | program_ingester/src/output.rs:214-233 | the program of one root: its program id and the root's fields with its resolved children; `Output.ProgramsAreRoots` states its shape |
| Output.ProgramsFrom | program_ingester/src/output.rs:214-233 | the program loop over the entries from one position of the iteration on; `Output.ProgramsFromSpec` and `Output.ProgramsFromSucceeds` state its result |
| Output.GraphOf | program_ingester/src/output.rs:201-235 | the graph of a finished map in one iteration order; `Output.ProgramsAreRoots`, `Output.UniqueIdsResolve` and `Equality.GraphOrderIndependent` state its properties |
| Output.RootKeys | program_ingester/src/output.rs:201-212 | the roots are exactly the entries whose data is present and has no parent |
| Output.ProgramsFromSpec | program_ingester/src/output.rs:214-233 | a successful program loop yields one program per root entry, in iteration order, each built from that root |
| Output.ProgramsFromSucceeds | program_ingester/src/output.rs:214-233 | the program loop succeeds when every root's program resolves |
| Output.RootKeysDistinct | program_ingester/src/output.rs:201-212 | no root is turned into a program twice |
| Output.ProgramsAreRoots | program_ingester/src/output.rs:201-233 | The graph has one program per root record and no other. Each program has the root's program id, the root's fields and the root's resolved children. An id that never occurs as a record's own id is never a root. |
| Output.ProgramIds | program_ingester/src/output.rs:214-233 | the programs are those of the root entries, in iteration order, and each program's root carries its entry's id |
| Output.ChildrenHaveParent | program_ingester/src/output.rs:185-198 | a child id collected under an entry comes from a record with that id that names the entry as its parent |
| Output.UniqueIdsParentConsistent | program_ingester/src/output.rs:163-199 | when no two records share an id, the record under every child's entry names that entry as its parent |
| Output.ExtendChain | program_ingester/src/output.rs:137-154 | in a map where every child's record names the entry it sits under, a child picked below a path from a root is not already on that path |
| Output.ChainResolves | program_ingester/src/output.rs:131-158 | with unique ids, resolving the children of the last entry on any path from a root never meets a cycle |
| Output.UniqueIdsResolve | program_ingester/src/output.rs:127-236 | `ProgramGraph::from` returns, for every iteration order, when no two records share an id |
| HashMaps.IterationOrder | program_ingester/src/output.rs:201 | the iteration order chosen lists every key of the map exactly once; the prototype iterates its map the same way (program_ingester/examples/simple_tree.rs:140-141) |
| Output.BuildMappings | program_ingester/src/output.rs:161-199 | the build loop, upserting one record at a time into the map, ends with exactly the map the records determine |
| Output.BuildPrograms | program_ingester/src/output.rs:214-235 | the program loop, pushing one program per root, computes exactly the graph of the finished map |
| Output.ProgramGraphFrom | program_ingester/src/output.rs:127-236 | `ProgramGraph::from`: with some iteration order of the finished map, the result is the graph of the records' map resolved in that order |
| Ordering.SortByKey | program_ingester/src/output.rs:58 | `sort_by_key` returns a permutation of its input |
| Ordering.InsertPermutes | program_ingester/src/output.rs:58 | inserting one element adds exactly that element |
| Ordering.InsertSorted | program_ingester/src/output.rs:58 | inserting into a sorted list keeps it sorted by the key |
| Ordering.InsertStable | program_ingester/src/output.rs:58 | inserting keeps the relative order of elements with equal keys, the new one going first |
| Ordering.SortByKeySorted | program_ingester/src/output.rs:58 | `sort_by_key`'s result is ordered by the key |
| Ordering.SortByKeyStable | program_ingester/src/output.rs:58 | `sort_by_key` is stable: the elements with any one key keep their input order |
| Ordering.SortByKeySortedUnchanged | program_ingester/src/output.rs:58 | sorting an already sorted list leaves it unchanged |
| Ordering.SortedBagsAgree | program_ingester/src/output.rs:57-67 | two lists sorted by a key whose images form the same multiset with no tied keys agree position by position on those images |
| Equality.OrderedFeatures | program_ingester/src/output.rs:43-51 | the sort of `odered_features` (and of `PartialEq for Feature`): the subfeatures stably sorted by start date; `Equality.SortedShapes` states that it is sorted and has the same children |
| Equality.OrderedPrograms | program_ingester/src/output.rs:85-93 | the sort of `odered_programs` (and of `PartialEq for ProgramGraph`): the programs stably sorted by root start date; `Ordering.SortByKeySorted` and `Ordering.SortByKey` state its properties |
| Equality.FeatureEq | program_ingester/src/output.rs:54-69 | `PartialEq for Feature` as written; `Equality.FeatureEqSound`, `Equality.FeatureEqComplete` and `Equality.TiedRootsDiffer` state what it decides |
| Equality.ProgramEq | program_ingester/src/output.rs:71-75 | the derived `PartialEq for Program`: equal ids and equal roots under `PartialEq for Feature`; `Equality.GraphEqSound` covers it |
| Equality.GraphEq | program_ingester/src/output.rs:96-106 | `PartialEq for ProgramGraph` as written; `Equality.GraphEqSound`, `Equality.GraphEqComplete` and `Equality.TiedSiblingsBreakEquality` state what it decides |
| Equality.ShapesOfIsBag | program_ingester/src/output.rs:54-69 | the order-blind view of a child list is the multiset of its children's order-blind views |
| Equality.SameFeatureIgnoresOrder | program_ingester/src/output.rs:54-69 | features that differ only in the order of their children are the same under the order-blind comparison that the sort is meant to give |
| Equality.SameGraphIgnoresOrder | program_ingester/src/output.rs:96-106 | graphs whose programs are a permutation of each other are the same under the order-blind comparison |
| Equality.FeatureEqSound | program_ingester/src/output.rs:54-69 | features equal under `PartialEq for Feature` are the same up to the order of children at every level |
| Equality.GraphEqSound | program_ingester/src/output.rs:96-106 | graphs equal under `PartialEq for ProgramGraph` are the same up to the order of programs and of children |
| Equality.FeatureEqReflexive | program_ingester/src/output.rs:54-69 | `PartialEq for Feature` is reflexive |
| Equality.GraphEqReflexive | program_ingester/src/output.rs:96-106 | `PartialEq for ProgramGraph` is reflexive |
| Equality.FeatureEqComplete | program_ingester/src/output.rs:54-69 | when no two siblings anywhere share a start date, features that are the same up to the order of children are equal under `PartialEq` |
| Equality.SortedShapesAgree | program_ingester/src/output.rs:57-67 | without tied siblings, the two sorted child lists of such features agree position by position |
| Equality.SortedShapes | program_ingester/src/output.rs:57-60 | the sorted child list is ordered by start date and has the same children |
| Equality.GraphEqComplete | program_ingester/src/output.rs:96-106 | when no two programs or siblings share a start date, graphs that are the same up to order are equal under `PartialEq` |
| Equality.ResolveSucceedsIff | program_ingester/src/output.rs:131-158 | a resolution succeeds exactly when every kept entry is off the path and its own children resolve |
| Equality.ResolveShapes | program_ingester/src/output.rs:131-158 | up to order, the resolved child list is the multiset of the kept entries' resolved features |
| Equality.ResolveOrderIndependent | program_ingester/src/output.rs:131-158 | under any two iteration orders, a resolution succeeds in both or in neither, and the results are the same up to the order of children |
| Equality.SamePickedKeys | program_ingester/src/output.rs:137-144 | the set of entries kept does not depend on the iteration order |
| Equality.GraphSucceedsIff | program_ingester/src/output.rs:214-233 | building the programs succeeds exactly when every root's program resolves |
| Equality.GraphShapes | program_ingester/src/output.rs:214-233 | up to order, the programs are the multiset of the roots' programs |
| Equality.SameRootKeys | program_ingester/src/output.rs:201-212 | the set of roots does not depend on the iteration order |
| Equality.GraphOrderIndependent | program_ingester/src/output.rs:127-236 | for any two iteration orders, `ProgramGraph::from` succeeds in both or neither, and the two graphs are the same up to the order of programs and children |
| InputOrder.SameMembers | program_ingester/src/output.rs:163 | two orders of the same records hold the same records |
| InputOrder.MentionedPermuted | program_ingester/src/output.rs:163-199 | whether an id gets an entry does not depend on the order of the records |
| InputOrder.LastWithIdPermuted | program_ingester/src/output.rs:172-183 | with unique ids, the record an entry holds does not depend on the order of the records |
| InputOrder.ChildrenOfPermuted | program_ingester/src/output.rs:185-198 | the children collected under an id are the same ids, in some order, whatever the order of the records |
| InputOrder.MappingsPermuted | program_ingester/src/output.rs:163-199 | with unique ids, two orders of the same records give maps with the same keys and records, and child lists that are permutations of each other |
| InputOrder.ResolveFromAlike | program_ingester/src/output.rs:131-158 | `resolve_subfeatures` only asks whether an id is in a child list, so maps that differ only in the order of child lists resolve alike |
| InputOrder.ProgramsFromAlike | program_ingester/src/output.rs:214-233 | such maps give the same programs |
| InputOrder.GraphOfAlike | program_ingester/src/output.rs:201-235 | such maps, in the same iteration order, give the same graph |
| InputOrder.InputOrderIndependent | program_ingester/src/output.rs:127-236 | with unique ids, any two orders of the input records, each map in any iteration order, both give a graph, the same up to the order of programs and children; when no siblings or programs share a start date, `PartialEq` calls them equal |
| Equality.TieResolve | program_ingester/src/output.rs:131-158 | two siblings with one start date are resolved in the order the map yields them |
| Equality.TieGraph | program_ingester/src/output.rs:127-236 | the graph of a root with two tied leaves lists the leaves in iteration order |
| Equality.TieComparison | program_ingester/src/output.rs:54-69 | the same root with its two tied leaves listed in the two orders is unequal under `PartialEq` |
| Equality.TiedRootsDiffer | program_ingester/src/output.rs:57-67 | two siblings with the same start date and different ids, listed in the two orders, make any parent unequal under `PartialEq` |
| Equality.TiedSiblingsBreakEquality | program_ingester/src/output.rs:54-69 | One input, under two iteration orders of its map, gives two graphs that `PartialEq` calls different. The order-blind comparison calls them the same. |
| SimpleTree.Display | program_ingester/examples/simple_tree.rs:26-33 | the record's `Display`: its id in decimal, prefixed by `*` for a root; `SimpleTree.DisplayReadsBack` and `SimpleTree.DisplayDistinguishes` state its properties |
| SimpleTree.DecimalRoundTrip | program_ingester/examples/simple_tree.rs:29-30 | the decimal text of a number reads back as that number |
| SimpleTree.DisplayReadsBack | program_ingester/examples/simple_tree.rs:26-33 | `Display` writes the id, marked with `*` exactly when the record is a root, and both can be read back from the text |
| SimpleTree.DisplayDistinguishes | program_ingester/examples/simple_tree.rs:26-33 | two records display alike exactly when they have the same id and both or neither is a root |
| SimpleTree.Upsert | program_ingester/examples/simple_tree.rs:107-133 | one iteration of the prototype's loop; `SimpleTree.UpsertEntry` states its effect |
| SimpleTree.Mappings | program_ingester/examples/simple_tree.rs:95-134 | the prototype's map after its loop; `SimpleTree.MappingsEntries` and `SimpleTree.EveryEntryHasData` state what it holds |
| SimpleTree.UpsertEntry | program_ingester/examples/simple_tree.rs:107-133 | one iteration of the prototype's loop: a key is present exactly when it was before or is the record's id or parent, with the data and children the two upserts give it |
| SimpleTree.MappingsEntries | program_ingester/examples/simple_tree.rs:95-134 | after the loop, an id has an entry exactly when it arrived as a record or is named as a parent; the entry has data exactly when it arrived, and the data carries the entry's id |
| SimpleTree.EveryEntryHasData | program_ingester/examples/simple_tree.rs:95-134 | every entry ends with data exactly when every parent named also arrives as a record (the expectation stated at line 105) |
| SimpleTree.BuildMappings | program_ingester/examples/simple_tree.rs:91-134 | the prototype's loop computes exactly the map its records determine |
| SimpleTree.ResolveFrom | program_ingester/examples/simple_tree.rs:182-199 | the prototype's `resolve_subfeatures` from one position of the iteration on, `None` where the original never returns; `SimpleTree.ResolveFromSpec` and `SimpleTree.ResolveFromReturns` state its result |
| SimpleTree.PickedKeys | program_ingester/examples/simple_tree.rs:182-199 | the entries kept are exactly those whose data's id is among the child ids |
| SimpleTree.ResolveFromSpec | program_ingester/examples/simple_tree.rs:182-199 | a successful resolution yields one feature per kept entry, in iteration order, with that entry's id and resolved children |
| SimpleTree.ResolveFromReturns | program_ingester/examples/simple_tree.rs:182-199 | resolution returns when every kept entry is off the path and its own children resolve |
| SimpleTree.PickedKeysDistinct | program_ingester/examples/simple_tree.rs:182-199 | no entry is resolved twice in one child list |
| SimpleTree.RootKeys | program_ingester/examples/simple_tree.rs:140-153 | the roots are exactly the entries whose data is present and has no parent |
| SimpleTree.ProgramOf | program_ingester/examples/simple_tree.rs:160-168 | the program of one root: its program id, and the root's id with its resolved children; `SimpleTree.ProgramsFromSpec` states how the programs use it |
| SimpleTree.GraphOf | program_ingester/examples/simple_tree.rs:155-172 | the prototype's graph of a finished map in one iteration order; `SimpleTree.SampleGraph` works it through on the sample |
| SimpleTree.ProgramsFromSpec | program_ingester/examples/simple_tree.rs:155-172 | a successful program loop yields one program per root entry, in iteration order |
| SimpleTree.ProgramsFromReturns | program_ingester/examples/simple_tree.rs:155-172 | the program loop returns when every root's program resolves |
| SimpleTree.BuildPrograms | program_ingester/examples/simple_tree.rs:155-172 | the program loop computes exactly the graph of the finished map |
| SimpleTree.BuildGraph | program_ingester/examples/simple_tree.rs:65-172 | the prototype's `main`, without its printing, yields the graph of its records' map in some iteration order |
| SimpleTree.RootKeysDistinct | program_ingester/examples/simple_tree.rs:140-153 | no root is turned into a program twice |
| SimpleTree.ResolveBag | program_ingester/examples/simple_tree.rs:182-199 | up to order, a resolved child list is the multiset of the kept entries' features |
| SimpleTree.SampleMappings | program_ingester/examples/simple_tree.rs:67-134 | the sample sequence, where the leaf 3 arrives before its parent 2, ends with every entry holding data |
| SimpleTree.SampleGraph | program_ingester/examples/simple_tree.rs:155-199 | for every iteration order, the sample map gives one program, 1, whose root 1 has the children 2 (with child 3) and 4 |
| SimpleTree.SampleBuilt | program_ingester/examples/simple_tree.rs:65-172 | for every iteration order, the sample input gives the graph `1 -> {2 -> {3}, 4}` |
| Scenarios.ParsesTo | program_ingester/src/input.rs:107-140 | a line of five space-free fields and a relation `parent->id` parses to the record with exactly those fields |
| Scenarios.ReadsTo | program_ingester/src/input.rs:39-43 | the same holds for the line as read, with or without its trailing newline |
| Scenarios.EmailLineParses | program_ingester/src/input.rs:177-197 | the crate's own test line parses to the expected `Email` record |
| Scenarios.CopyLineParses | feature_ingester/src/input.rs:144-164 | the copy's test line parses to a record whose program id is `program_1`, not the `program1` its test expects |
| Scenarios.BlankLineRefused | program_ingester/src/input.rs:108-114 | a blank or all-whitespace line is refused with the parts message |
| Scenarios.TrimEndNewline | program_ingester/src/input.rs:42 | trimming a line read with its newline gives the line without it |
| Scenarios.LibLinesIngest | program_ingester/src/lib.rs:45-51 | the four lines of the crate's multi-program test ingest to the four expected records, in order |
| Scenarios.LibMappings | program_ingester/src/output.rs:161-199 | those four records give the map with `ProductivitySuite -> Email -> {EmailSearch, EmailFilters}` |
| Scenarios.MappingsOfTree | program_ingester/src/output.rs:161-199 | a root, a child and two grandchildren arriving top-down give four entries, each with its record and its children in arrival order |
| Scenarios.LibGraphInOrder | program_ingester/src/output.rs:127-236 | in one iteration order, that map resolves to the test's expected graph |
| Scenarios.LibExample | program_ingester/src/lib.rs:43-107 | the test input ingests, and for every iteration order the graph is the expected one up to the order of children |
| Scenarios.LibExampleCompares | program_ingester/src/lib.rs:97-106 | for every iteration order, the test's `assert_eq!` comparison holds: the graph equals the expected one under `PartialEq` |
| Scenarios.TwoKeyOrders | program_ingester/src/output.rs:201 | a map of two keys iterates in one of its two orders |
| Scenarios.PairGraph | program_ingester/src/output.rs:127-236 | a root and one child give one program: the root with that child |
| Scenarios.MappingsOfPairChildFirst | program_ingester/src/output.rs:163-199 | a root and its child give the same map whichever arrives first |
| Scenarios.ParentChildGraph | program_ingester/src/output.rs:246-299 | for every iteration order, the crate's parent-and-child test input gives exactly the expected graph, and `PartialEq` agrees; with the child listed first, the map and the graph are the same |
| Scenarios.CycleMappings | program_ingester/src/output.rs:161-199 | a root `p`, a record `x` under `p`, and a second record `x` naming `x` as its parent leave `x` listed among its own children |
| Scenarios.CycleInOrder | program_ingester/src/output.rs:154 | the resolution of that map reaches the entry again below itself, where the original recurses without end |
| Scenarios.CycleNeverResolves | program_ingester/src/output.rs:131-158 | such an input has a repeated id, and fails to resolve in every iteration order |

## Left out

- Reading from a `BufReader`: the input is the sequence of lines `read_line` returns, each with its newline. Read failures (`IoError`) are not modelled.
- chrono's RFC 3339 parser is a function parameter. A timestamp is its UTC instant, which is what `==`, `<` and `sort_by_key` compare. The offset is kept by chrono only for display, so it is not modelled.
- JSON serialization through serde: only the sort step of `odered_features` and `odered_programs` is modelled (`Equality.OrderedFeatures`, `Equality.OrderedPrograms`). The JSON text is not.
- `tracing` instrumentation and debug logging.
- The `todo!` branch of the program loop (program_ingester/src/output.rs:231) cannot be reached, because roots are filtered to have data, so the model has no such branch.
- `resolve_subfeatures` on a cycle: the original never returns. The model returns `CyclicReference` there (in the prototype, `None`), and returns the original's value everywhere else.
- `Ordering.SortByKey`: `sort_by_key` is modelled on sequences by a stable insertion sort. Its contract gives the result, not the in-place algorithm of the standard library.
- feature_ingester/src/input.rs:119 and feature_ingester/src/output.rs:110 and :182 do not compile as written (a named-argument call and moves out of a borrowed record). They are modelled by their evident meaning, which is the same as program_ingester's.
- The `feature_ingester` copy renames `start_date`/`end_date` to `start_time`/`end_time` and `start`/`end`. The model uses one set of names for both crates.
- The multi-program test of feature_ingester/src/lib.rs is not worked through: its expected graph names features (`Email_Filter`, `Calendar_Reminding`) that the input does not contain.
- The printing in `simple_tree.rs` (`print!`, `println!`, `{:#?}` and its JSON output) is left out. Only `Display` is modelled.
- The `cli` crate, `hashmap_iteration.rs` and `errors.rs` beyond its variants are not part of this model.

## Findings

| source | as written | input that shows it | evidently intended | confidence | as-written member | corrected member |
|---|---|---|---|---|---|---|
| program_ingester/src/output.rs:54-69 | `PartialEq` stably sorts each child list by start date alone before comparing element by element, so two siblings with the same start date stay in the order the `HashMap` yielded them, and the result of `==` depends on that order | a root `p` with two children `x` and `y` that start at the same instant; the iteration orders `p, x, y` and `p, y, x` give graphs that `==` calls different (feature_ingester/src/lib.rs:47-48 has such a pair, `Email` and `Calendar`) | graphs compare equal whatever the order in which children were produced | not executed; high | Equality.TiedSiblingsBreakEquality | Equality.GraphOrderIndependent |
