# Verified model of the packet tables, the semantic database and the wire decoders

A Dafny model of the parts of the repository that decide how packets are measured, named and read, with proofs of what
they promise. `dafny verify dfyconfig.toml` checks everything.

**Length tables** (`internal/codegen`). A packet length table is kept as sparse blocks, `version -> {id -> length}`. What a
table means at a version is its replay: the last write of the id at or before that version, 0 when there is none
(`LengthTables.Replay`; `Partial` also tells a written 0 from no write). Four passes feed the map server's table:
differences of packet database snapshots (`LengthDiff`), two further diff chains, and lengths joined from struct version
ranges (`VersionRanges`, `JoinPass`). They are combined by two merge rules (`LengthMerge`), stripped of repeats
(`LengthArrange`, `LengthDedup`) and emitted (`LengthEmit.Emit`). Each pass is proved against replay, at every version and id, and
`LengthPipeline` puts them together. Go's map iteration is modelled by an arbitrary choice, `sort.Slice` by an arbitrary
sorted permutation, so the results hold for every order.

**Semantic database** (`internal/semanticsdb`). `SemanticModel` says what the loader reads out of a document tree and what
each edit does to it; `SemanticRefinement`, `SemanticSearch` and `SemanticRuns` prove when a call, and a run of calls,
behaves like one on an ordered map of typed actions, what every run keeps and what a failed call leaves alone;
`SemanticInputs` holds the inputs on which calls fail their documentation. `SemanticNodes` and `SemanticEdits` are the mutable nodes and the helpers that
edit them in place, and `SemanticDB.DB` is the class with the index into the same tree: each call is proved to keep index
and tree in agreement and to be one step of the model. A call may write nothing but the index and the nodes below
`semantic_actions`, so every other section of the document is untouched. `SemanticValidate` proves what a silent validator
guarantees, and `SemanticReports` what it reports. `PacketIDs` says which spellings of a packet id are the same id,
`SemanticText` what each node of a document says and each edit writes.

**Decoders** (`pkg/decode`, `pkg/packing`). `EquipItems`, `StackableItems` and `GroupList` model the version-conditional
cursors against a serialiser for the same layout, for every packet version, and give each field its offset in the bytes
(`PlainBytes`). `Packing` is the bit packing of coordinates.

**Fixtures** (`cmd/gen-fixture`). `DumpSplitter` is the three-phase scan of a hex dump, `DumpText` what the lines of a
dump say character by character, `Fixture` the binary file and its reader.

Where the source is not what it says:

- `README-LLM.md:713` says Parts 2 to 4 only fill in missing lengths. The code merges Part 4 with the overlay rule
  (`internal/codegen/main.go:571`). `LengthPipeline.PacketDbKeptExactly` says when a Part 1 length survives, and
  `LengthPipeline.PacketDbOverridden`, packet 0x01D7, is an input where it does not.
- `internal/codegen/main.go:1544` calls the sort of the deduplication stable; `sort.Slice` is not. It makes no difference
  exactly when no two blocks of one version disagree on an id (`LengthArrange.UnstableSortExactly`), so none on lists with
  one block per version, which is what the merges deliver.
- The snapshots must begin with the baseline version, which becomes version 0. The code does not enforce it, and it is
  needed: `LengthDiff.BaselineMustBeFirst`.
- "Base if nonzero, else extra" is not quite what the fill-only merge gives: an explicit 0 in base hides older extra
  lengths. `LengthMerge.FallbackExactly` gives the exact condition, `LengthMerge.HiddenLength` an input.
- The hex line parser is documented to stop at the ASCII column. It reads a byte there when the first token of the column
  is exactly two hex digits: `DumpSplitter.StopsAtAsciiColumn`, and `DumpText.DataLineExactly` for whole lines.
- `UpdateImplementation` is documented to leave unset bounds untouched. It forgets either bound of a range that is not a
  two-element sequence, and misplaces the second bound of a pair whose first is unreadable. The exact conditions are
  `SemanticRefinement.LowerBoundKept` and `SemanticRefinement.UpperBoundKept`; calls where they fail are
  `SemanticInputs.LowerBoundLost`, `SemanticInputs.UpperBoundLost` and `SemanticInputs.UpperBoundGained`.
- The editor writes the first pair of a key and the loader reads the last, so an edit of a repeated key is not seen:
  `SemanticLaws.EditSeenExactly`, `SemanticLaws.RepeatedKeyHidesEdit`. YAML forbids repeated keys; the loader does not check.
- The editor compares the text of an id node, the loader reads a missing, null or nested id as blank. So the editor cannot
  find an implementation without an id (`SemanticInputs.BlankIDNotFound`), and adding and deleting an id can remove an older
  node whose id is null (`SemanticInputs.NullIDDeleted`). The exact conditions are `SemanticSearch.AlikeExactly`,
  `SemanticSearch.StepErrorExactly` and `SemanticRuns.AddThenDelete`.
- Renaming an action there and back does not restore it when its inner name already was the temporary name:
  `SemanticRuns.RenameThereAndBack`, `SemanticRuns.RenameNotUndone`.
- The join pass skips ranges that start at or after the end of a mapping's window, but does not cut short a range that runs
  past it: `JoinPass.WindowEndExactly`, `JoinPass.WindowEndIgnored`.

## Model

| member | source | states |
|---|---|---|
| LengthDiff.DiffLenTable | internal/codegen/main.go:752-765 | for any map iteration order, the reported entries have distinct ids and form exactly the table of changed or new lengths plus 0 for removed ids; with no previous table everything is reported |
| LengthDiff.DiffTelescopes | internal/codegen/main.go:752-765 | applying the reported entries to the previous table, in any order, reads as the current table at every id |
| LengthDiff.BuildTable | internal/codegen/main.go:637-640 | the table of a snapshot is the fold of its packet list, a later entry of an id winning |
| LengthDiff.BuildChain | internal/codegen/main.go:606-660 | the emitted blocks hold, cell for cell, the differences between consecutive snapshots; from dated snapshots with the baseline first they are sorted, with one block per version and one entry per id |
| LengthDiff.ChainTelescopes | internal/codegen/main.go:784-812 | at every version and id, replaying the chain gives the last snapshot at or before that version |
| LengthDiff.ChainReads | internal/codegen/main.go:606-660 | on the snapshots as given: at every version from a snapshot on and before the next one, and at every version before the second one if the first is the baseline, the chain reads as the last entry that snapshot lists for the id, or 0 if it lists none |
| LengthDiff.ChainStartsEmpty | internal/codegen/main.go:606-660 | before the first snapshot, if that is not the baseline, it reads 0 |
| LengthDiff.BaselineMustBeFirst | internal/codegen/main.go:784-812 | the baseline has to come first: for any ascending versions with the baseline later in the list there are tables for which the chain replays to something other than the snapshot in force |
| LengthEmit.Emit | internal/codegen/gen/lengths.go:41-80 | the generated function, with both unstable sorts, executes exactly the entries of the input, in version order, and leaves at every version what the cells replay to |
| LengthTables.RunIsPartial | internal/codegen/gen/lengths.go:64-76 | executing version-sorted blocks one after another leaves, for every id, the last write at or before the version |
| LengthTables.Flatten | internal/codegen/main.go:1129-1138 | turning the nested map back into blocks, in any iteration order, keeps every cell and gives each version one block and each id one entry |
| LengthMerge.MergeBreakpoints | internal/codegen/main.go:1108-1139 | the result holds the cells of base with those of extra stored over them |
| LengthMerge.LastWriterWins | internal/codegen/main.go:1105-1139 | at every version and id the reading is that of extra when its last write is at or after the last write of base, and that of base otherwise |
| LengthMerge.StateAt | internal/codegen/main.go:1205-1214 | the snapshot consulted for a version is exactly what base replays to there |
| LengthMerge.MergeBreakpointsFillOnly | internal/codegen/main.go:1148-1248 | a cell of extra is taken exactly when base, replayed up to that version, reads 0 for the id; every other cell is that of base |
| LengthMerge.FillKeepsBase | internal/codegen/main.go:1141-1147 | a nonzero base reading at any version is the reading after the merge |
| LengthMerge.FillReadsExtra | internal/codegen/main.go:1201-1226 | where base reads 0 the result is the latest extra entry not older than the last base write of the id, and else what base set |
| LengthMerge.FallbackExactly | internal/codegen/main.go:1141-1248 | "base if nonzero, else extra" holds at a version exactly when no explicit base 0 newer than all extra entries hides a nonzero extra length |
| LengthMerge.HiddenLength | internal/codegen/main.go:1141-1248 | an input where it fails: a packet that leaves base at version 4 reads 0 at version 5, although extra has length 9 for it from version 3 on; the merge of the two is base itself |
| LengthDedup.DeduplicateLengthBreakpoints | internal/codegen/main.go:1539-1562 | the result executes to the same table as the sorted input at every version, and holds only entries that change the running state; when no two blocks of one version disagree on an id, as with distinct versions, it also replays like the unsorted input |
| LengthArrange.UnstableSortExactly | internal/codegen/main.go:1544-1545 | every ascending arrangement of the blocks executes to what the list denotes exactly when no two blocks of one version disagree on an id |
| LengthArrange.DistinctVersionsAgree | internal/codegen/main.go:1539-1545 | one block per version is enough for that, even if a block lists an id twice |
| LengthDedup.EntryMatters | internal/codegen/main.go:1539-1562 | every kept entry changes the replayed partial map at exactly its version |
| LengthDedup.LeanIsMinimal | internal/codegen/main.go:1539-1562 | any list with the same replay at every version has an entry wherever the deduplicated list has one |
| VersionRanges.BuildRanges | internal/codegen/main.go:286-329 | the ranges are the run-length encoding of the snapshots: ascending, each ending where the next starts, the last unbounded, neighbours differing in total size or number of fields, each starting at a snapshot, and every snapshot with the struct lying in a range with its own total size and number of fields; none exactly when the struct is never available |
| VersionRanges.RangeOpens | internal/codegen/main.go:286-329 | every range opens at a snapshot that has the struct available, with the layout it has there |
| VersionRanges.SnapshotHeld | internal/codegen/main.go:286-329 | every snapshot that has the struct available lies in a range with its total size and number of fields |
| VersionRanges.AtMostOneRange | internal/codegen/main.go:405-442 | no version lies in two of the ranges |
| VersionRanges.StepSame | internal/codegen/main.go:315-321 | when a snapshot repeats the shape of the open range, the bound written into the previous range is the one it already has |
| VersionRanges.FindMaxVer | internal/codegen/main.go:294-310 | the bound is the version of the next available snapshot of another shape, or 0 |
| VersionRanges.InjectStructs | internal/codegen/main.go:342-456 | exactly the structs with a wanted prefix are replaced by their run-length encoding, in any iteration order; with the keep-existing rule those that already have ranges are left alone, and so is every other entry |
| JoinPass.JoinRange | internal/codegen/main.go:1007-1091 | one range of one mapping makes its proposals: a length, and a 0 at its end, or none |
| JoinPass.BuildMapStocJoinPass | internal/codegen/main.go:983-1103 | the blocks hold exactly what the proposals of all receive mappings build |
| JoinPass.CellsOnlyGrow | internal/codegen/main.go:1069-1091 | a cell only moves absent, then 0, then nonzero, and a nonzero length is final |
| JoinPass.CellOutcome | internal/codegen/main.go:1069-1091 | a cell is absent iff nothing was proposed for it, 0 iff only zeros were, and otherwise holds a proposed length |
| JoinPass.OrderIndependent | internal/codegen/main.go:1069-1091 | which cells are absent, 0 or nonzero does not depend on the order of the proposals, and neither do the lengths when the nonzero ones agree |
| JoinPass.MappingOrderIndependent | internal/codegen/main.go:983-1103 | the same for any permutation of the mappings |
| JoinPass.JoinReads | internal/codegen/main.go:1007-1091 | for one mapping over disjoint ranges, at every version from 20030000 on, replay gives the length of the range that applies and 0 where none does |
| JoinPass.ResetNeverErases | internal/codegen/main.go:1078-1091 | any rearrangement of the proposals of one mapping over disjoint ranges builds the same cells, so a reset at a boundary never erases a length starting there |
| JoinPass.PassReads | internal/codegen/main.go:983-1103 | the same for the whole pass: an id that only one receive mapping has reads as the ranges of its struct, whatever the other mappings are |
| JoinPass.WindowReads | internal/codegen/main.go:1007-1091 | on the bounds as given: an id that one mapping receives reads, at any version from 20030000 on, as the size of the range that holds the version (-1 with a flexible array, and otherwise its 16 low bits) if the mapping has begun by then and the range began before its end; where no range does it reads 0, in particular before the mapping begins |
| JoinPass.BelowFirstVersion | internal/codegen/main.go:1066-1068 | at every version below 20030000 it reads as at 20030000 |
| JoinPass.NotReceivedNotSet | internal/codegen/main.go:989-1004 | an id that no receive mapping with a known struct spells is not set at any version |
| JoinPass.WindowEndExactly | internal/codegen/main.go:1021-1033 | past the end of a mapping window its id reads 0 exactly when every range that began inside the window, and still runs, has a size that is 0 in 16 bits and no flexible array |
| JoinPass.WindowEndIgnored | internal/codegen/main.go:1031-1033 | an input where it does not: the pass over a receive mapping of 0x0ADD until 20100101 and one unbounded range of size 10 still reads 10 at every later version |
| JoinPass.NewestProposalReads | internal/codegen/main.go:983-1103 | whatever the mappings, an id reads as its newest proposals say: 0 iff they are all resets, and the nonzero length among them when the nonzero proposals agree |
| JoinPass.NoProposalReads | internal/codegen/main.go:983-1103 | an id without a proposal by a version is not set there |
| LengthPipeline.GenMapLengths | internal/codegen/main.go:533-575 | the emitted function reads, at every version and id, as Part 4 overlaid on Part 3 filled under Part 2 filled under Part 1 |
| LengthPipeline.EarlierPartsWin | internal/codegen/main.go:536-571 | for an id Part 4 has not written by a version, a nonzero Part 1 length there is final, and any nonzero length after Part 2 survives Part 3 |
| LengthPipeline.PacketDbKeptExactly | internal/codegen/main.go:536-571 | a nonzero Part 1 length at a version is the one the emitted function sets exactly when Part 4 has not written the id by then, wrote it before Part 1 last did, or wrote the same length |
| LengthPipeline.PacketDbOverridden | internal/codegen/main.go:839-841 | an input where it is not: 0x01D7 is 11 throughout Part 1 and 15 in Part 4 from 20181121, and the function sets 15 from then on |
| LengthPipeline.PacketDbReachesTheTable | internal/codegen/main.go:606-660 | a nonzero length listed by the packet database snapshot to go by at a version is what the emitted function sets, unless Part 4 has written the id |
| LengthPipeline.SnapshotReachesTheTable | internal/codegen/main.go:387-450 | from snapshots through ranges to the join pass: at every snapshot with the struct available, some layout opened the range it lies in, has its total size and number of fields, and the replayed length of its one mapping is the total size of the snapshot itself, or -1 if that first layout has a flexible array |
| LengthPipeline.StructReachesTheFunction | internal/codegen/main.go:550-575 | and through the merges to the emitted function: where the other parts have not written the id, the function sets exactly that length |
| SemanticNodes.Node.Find | internal/semanticsdb/mutate.go:380-390 | the position of the first such key of a mapping, none for any other node |
| SemanticNodes.Node.EnsureMapping | internal/semanticsdb/mutate.go:370-377 | a node that is not a mapping becomes an empty one in place |
| SemanticEdits.SetMappingFieldNode | internal/semanticsdb/mutate.go:428-437 | the value of the first such key is replaced in place, or the pair is appended |
| SemanticEdits.GetImplsSeq | internal/semanticsdb/mutate.go:409-425 | returns the implementations node itself, inserted or converted in place where needed |
| SemanticEdits.AppendImplToAction | internal/semanticsdb/mutate.go:447-451 | the node is appended to the implementations of the action, in place |
| SemanticEdits.FindImplIndex | internal/semanticsdb/mutate.go:455-468 | the first item whose packet id normalises to the wanted one |
| SemanticEdits.UpdateImplNode | internal/semanticsdb/mutate.go:159-173 | only the struct name and the range are rewritten, unset bounds keeping what the editor can read of the old range |
| SemanticEdits.BuildImplNode | internal/semanticsdb/mutate.go:292-325 | the node has the four keys in order, with the field names sorted and each once |
| SemanticText.BuiltText | internal/semanticsdb/mutate.go:292-338 | that node, key by key: packet_id, packetver_range with the lower and then the upper bound (null for 0, and otherwise its decimal digits), struct_name and field_mapping |
| SemanticText.NewActionText | internal/semanticsdb/mutate.go:258-275 | the node of a new action, key by key: name, description, openkore_name, and two empty sequences |
| SemanticEdits.ParsePacketverRange | internal/semanticsdb/db.go:296-327 | the first two readable bounds of the sequence, null reading as 0 |
| SemanticEdits.ParseImplNode | internal/semanticsdb/db.go:270-292 | the loop reads a node as the fold of its pairs, later keys winning |
| SemanticEdits.ParseActionNode | internal/semanticsdb/db.go:229-255 | the same for an action, its name falling back to the key |
| SemanticText.ImplementationSays | internal/semanticsdb/db.go:270-327 | node by node: the last value under packet_id, struct_name, packetver_range and field_mapping is what the loader reads in that field; a range of two decimal or null bounds reads as lower and upper |
| SemanticText.ImplementationOmits | internal/semanticsdb/db.go:270-292 | a field whose key is missing reads as empty, 0 or no map |
| SemanticText.FieldSays | internal/semanticsdb/db.go:329-355 | a field map reads, under each name, the text of the last pair with that name, null and nested nodes reading as empty |
| SemanticText.ActionSays | internal/semanticsdb/db.go:229-267 | the last name, description, openkore_name and implementations are what the loader reads of an action; an empty name falls back to the key |
| SemanticText.LoadsShape | internal/semanticsdb/db.go:91-108 | the loader wants a document, a mapping in it, the key semantic_actions there and a mapping under its first occurrence, and names the first of these that is missing |
| SemanticLaws.LookupSetField | internal/semanticsdb/mutate.go:394-405 | setting a key of a mapping without repeated keys changes what it maps to and no other key |
| SemanticText.SetReplaces | internal/semanticsdb/mutate.go:394-405 | setting a key that is there replaces the value of its first pair, and no other node of the mapping |
| SemanticText.SetAppends | internal/semanticsdb/mutate.go:394-405 | setting a key that is not there appends the pair |
| SemanticText.SetStartsOver | internal/semanticsdb/mutate.go:368-377 | setting a key of anything but a mapping leaves a mapping of that pair alone |
| SemanticText.ItemsEdited | internal/semanticsdb/mutate.go:409-425 | the implementations edited are the items of the sequence under the first such key, and none if that is another node |
| SemanticLaws.EditSeenExactly | internal/semanticsdb/mutate.go:394-405 | on any mapping, the loader reads the value set for a key exactly when the key is not repeated or its last value already was that |
| SemanticLaws.RepeatedKeyHidesEdit | internal/semanticsdb/mutate.go:394-405 | an input where it does not: with two name keys the first is set and the second read |
| SemanticLaws.SetFieldOther | internal/semanticsdb/mutate.go:394-405 | on any mapping, repeated keys or not, setting a key changes nothing the loader reads for another |
| SemanticLaws.ImplReads | internal/semanticsdb/db.go:270-292 | on a mapping without repeated keys the reading of an implementation is a lookup of its four keys |
| SemanticLaws.NormIdempotent | internal/semanticsdb/db.go:358-367 | normalising a packet id twice is normalising it once |
| PacketIDs.NormExactly | internal/semanticsdb/db.go:358-367 | two ids normalise alike exactly when both are blank, or they agree up to white space around them, letter case and an optional 0x |
| PacketIDs.NormForm | internal/semanticsdb/db.go:357 | an id that is not blank normalises to 0x and characters none of which is a lower-case letter |
| PacketIDs.NormKeepsNumber | internal/semanticsdb/db.go:358-367 | an id reads as the same number, or as none, before and after normalising |
| PacketIDs.ParsesExactly | internal/codegen/main.go:1250-1253 | the join pass reads an id as the 16-bit number its hex digits spell, with or without 0x, and as nothing if they spell none |
| PacketIDs.DeleteAnySpelling | internal/semanticsdb/mutate.go:178-191 | any spelling of an id deletes the first implementation whose id node has that id, and leaves the others as they are |
| PacketIDs.FindsAnySpelling | internal/semanticsdb/mutate.go:455-468 | deleting and updating fail exactly when no implementation has an id node with that id in any spelling |
| PacketIDs.AddRefusedAnySpelling | internal/semanticsdb/mutate.go:131-137 | adding is refused exactly when the loader reads that id, in any spelling, of an implementation of the action |
| SemanticText.AddAtEnd | internal/semanticsdb/mutate.go:131-141 | an added implementation comes after the others and reads as given, with the same id; a refused one changes nothing |
| SemanticLaws.RangeReadsBack | internal/semanticsdb/mutate.go:329-338 | any two bounds, negative ones included, are read back from the node built for them |
| SemanticLaws.BuildThenParse | internal/semanticsdb/mutate.go:292-325 | reading the node built for an implementation returns it with its id normalised, for any bounds and any field map |
| SemanticRefinement.UpdateReads | internal/semanticsdb/mutate.go:149-175 | after an update of an implementation without repeated keys the loader reads the given fields as set and all others as before exactly when both bounds are set, or none, or the one left unset survives |
| SemanticText.UpdateGives | internal/semanticsdb/mutate.go:149-175 | without repeated keys, each value given to an update is the one then read; id and fields, and bounds when none is given, read as before |
| SemanticText.MetadataGives | internal/semanticsdb/mutate.go:99-112 | the same for the two texts of an action, its name and implementations reading as before |
| SemanticRefinement.LowerBoundKept | internal/semanticsdb/mutate.go:471-479 | changing only the upper bound keeps the lower one exactly when that reads as 0 or the stored range is a two-element sequence with a readable first bound |
| SemanticRefinement.UpperBoundKept | internal/semanticsdb/mutate.go:471-479 | changing only the lower bound keeps the upper one exactly when there is no range, or a pair whose first bound is readable or whose second reads as 0, or another range without an upper bound |
| SemanticInputs.LowerBoundLost | internal/semanticsdb/mutate.go:471-479 | an input: updating the upper bound of an implementation with a one-element range succeeds, and its lower bound then reads 0 |
| SemanticInputs.UpperBoundLost | internal/semanticsdb/mutate.go:471-479 | an input: updating the lower bound of an implementation with a three-element range succeeds, and its upper bound then reads 0 |
| SemanticInputs.UpperBoundGained | internal/semanticsdb/mutate.go:471-479 | an input: updating the lower bound of an implementation whose range is a pair with an unreadable first bound gives it an upper bound |
| SemanticSearch.AlikeExactly | internal/semanticsdb/mutate.go:455-468 | the search of the editor and that of the loader find the same implementation exactly when they agree on the first item that has the wanted id for either of them |
| SemanticSearch.SeenAlikeExactly | internal/semanticsdb/mutate.go:455-468 | they agree on an item exactly when its id is a plain scalar, or missing and the wanted id not blank, or another node whose text is the wanted id exactly when that is blank |
| SemanticSearch.PlainIsAlike | internal/semanticsdb/mutate.go:455-468 | it always does among implementations whose id is a plain scalar |
| SemanticInputs.BlankIDNotFound | internal/semanticsdb/mutate.go:455-468 | an input where it does not: an implementation without an id reads as the blank id but is not found by it |
| SemanticRefinement.WithImplsSeqReads | internal/semanticsdb/mutate.go:409-425 | inserting or converting the implementations node changes nothing the loader reads, repeated keys or not |
| SemanticRefinement.StepRefines | internal/semanticsdb/mutate.go:31-191 | on any document without repeated keys a call does to the typed view what the ordered map of actions says exactly when the implementation it finds is the one the loader would and the bounds an update leaves unset survive, or, where another is found, the difference cannot be read |
| SemanticRefinement.DeleteRefines | internal/semanticsdb/mutate.go:178-191 | a delete reads as one on the ordered map exactly when neither search finds anything, or all implementations from the place of the editor to that of the loader read the same |
| SemanticRefinement.UpdateRefines | internal/semanticsdb/mutate.go:149-175 | an update reads as one on the ordered map exactly when the bounds it leaves unset survive in the implementation both find, or neither changes anything in those they find |
| SemanticSearch.StepErrorExactly | internal/semanticsdb/mutate.go:31-191 | on any document without repeated keys a call ends with the error of the ordered map exactly when editor and loader agree on every item of the action, or some item has the wanted id for both |
| SemanticRuns.RunRefines | internal/semanticsdb/mutate.go:31-191 | on a document without repeated keys, a run of successful and failed calls that each meet that condition is a run on the ordered map |
| SemanticRuns.EditorRunRefines | internal/semanticsdb/mutate.go:31-191 | on a document whose implementations have plain ids and ranges of two readable bounds, any run is one on the ordered map, and the document stays of that kind |
| SemanticRuns.RunKeepsSound | internal/semanticsdb/mutate.go:117-141 | any run on any document, repeated keys and odd ids and ranges included, keeps action keys distinct and packet ids unique within each action as the loader reads them |
| SemanticRuns.FailureChangesNothing | internal/semanticsdb/mutate.go:177-191 | on any document, repeated keys and odd ranges included, a failed call leaves what the loader reads unchanged, although it may insert or convert the implementations node |
| SemanticRuns.AddThenDelete | internal/semanticsdb/mutate.go:117-191 | on any document, deleting an implementation just added by any spelling of its id succeeds, and restores the nodes exactly when none of the older ones has that id for the editor |
| SemanticRuns.AddThenDeleteReads | internal/semanticsdb/mutate.go:117-191 | the same for what the loader reads of an action without repeated keys |
| SemanticInputs.NullIDDeleted | internal/semanticsdb/mutate.go:455-468 | an input where it does not: beside a node with a null id, the id null can be added, and deleting it removes the older node |
| SemanticRuns.TypedAddThenDelete | internal/semanticsdb/mutate.go:117-191 | on the ordered map, adding and deleting always restores the action |
| SemanticRuns.RenameThereAndBack | internal/semanticsdb/mutate.go:67-93 | renaming there and back restores position, key and implementations and touches no other action, and restores the item exactly when its inner name was not already the temporary name |
| SemanticRuns.RenameNotUndone | internal/semanticsdb/mutate.go:87-89 | an input: an action keyed a whose inner name is b comes back with inner name a |
| SemanticDB.DB.Load | internal/semanticsdb/db.go:86-121 | fails with the error of the first shape check that fails; otherwise the index holds the last node of every scalar key, and on distinct scalar keys the database is valid |
| SemanticDB.LoadedIndexExactly | internal/semanticsdb/db.go:110-118 | the loaded index agrees with the tree exactly when no action key is repeated |
| SemanticDB.DB.FindActionsMap | internal/semanticsdb/mutate.go:552-570 | the walk from the root ends at the very node the database edits |
| SemanticDB.DB.CreateAction | internal/semanticsdb/mutate.go:31-43 | index and tree stay in agreement; the entries and the error are those of one step: the action is last, and blank or taken names are refused |
| SemanticDB.DB.DeleteAction | internal/semanticsdb/mutate.go:47-57 | index and tree stay in agreement; exactly the named entry is gone and the order kept |
| SemanticDB.DB.RenameAction | internal/semanticsdb/mutate.go:67-93 | index and tree stay in agreement; the entry keeps its place and its node, and the inner name follows only if it mirrored the key |
| SemanticText.CreateAtEnd | internal/semanticsdb/mutate.go:31-43 | a new action comes last; a blank name and a taken one are refused, in this order, and change nothing |
| SemanticText.DeleteTakesOut | internal/semanticsdb/mutate.go:47-57 | the action with the key goes and the others keep their order |
| SemanticText.RenameInPlace | internal/semanticsdb/mutate.go:67-93 | a renamed action keeps its place, all others are as they were, and the name it shows follows exactly if it was the old key |
| SemanticDB.DB.UpdateActionMetadata | internal/semanticsdb/mutate.go:99-112 | only the named entry changes, in the fields given |
| SemanticDB.DB.AddImplementation | internal/semanticsdb/mutate.go:117-141 | only the named entry changes, by the new node at the end; blank fields and a taken packet id are refused in the order of the source |
| SemanticDB.DB.UpdateImplementation | internal/semanticsdb/mutate.go:149-175 | only the named entry changes, in the implementation found by normalised id |
| SemanticDB.DB.DeleteImplementation | internal/semanticsdb/mutate.go:178-191 | only the named entry changes; the implementation found by normalised id is gone |
| SemanticDB.DB.GetAction | internal/semanticsdb/db.go:134-140 | the index finds the action the tree holds under that key |
| SemanticDB.DB.GetImplementation | internal/semanticsdb/db.go:160-172 | the first implementation of the action with that normalised id |
| SemanticDB.DB.ListActions | internal/semanticsdb/db.go:124-131 | every action of the tree, each name once, in order |
| SemanticText.BeforeExactly | internal/semanticsdb/db.go:124-131 | the order is by the first character that differs, a name before the longer ones it begins |
| SemanticValidate.OverlapExactly | internal/semanticsdb/validate.go:156-179 | a range is compared correctly with every well-formed range (true iff a version is in both) exactly when it is itself well-formed |
| SemanticValidate.CheckAction | internal/semanticsdb/validate.go:50-88 | the issues of one action in the order they are found, duplicates being those seen earlier in the action |
| SemanticValidate.ImplSilent | internal/semanticsdb/validate.go:61-87 | nothing is reported of an implementation exactly when its id matches the pattern and is new, its struct is named and its bounds are in order |
| SemanticValidate.GroupByPacket | internal/semanticsdb/validate.go:116-127 | each packet id is mapped to its usages in listing order, entries without id or struct skipped |
| SemanticValidate.FindConflicts | internal/semanticsdb/validate.go:135-152 | the two nested loops report each overlapping pair once, in order |
| SemanticValidate.CrossSilent | internal/semanticsdb/validate.go:110-154 | nothing is reported exactly when no two implementations of one packet id have overlapping ranges |
| SemanticValidate.ConflictHasWitness | internal/semanticsdb/validate.go:140-151 | every reported conflict names two implementations of that id, and over well-formed ranges some version is in both |
| SemanticReports.ReportExactly | internal/semanticsdb/validate.go:47-154 | an issue is reported exactly when something gives rise to it: an action name or a packet id that does not fit its pattern, an empty id or struct name, an id seen earlier in the action, two bounds with the lower one above, each with the values found, or two implementations of one id with a struct each, in listing order, whose ranges meet |
| SemanticValidate.CleanIsUnambiguous | internal/semanticsdb/validate.go:33-46 | in a clean listing no packet id is active in two implementations at any version |
| SemanticValidate.Validate | internal/semanticsdb/validate.go:47-105 | nothing is reported exactly when the listing is clean, and then no packet id of the document is active twice at any version |
| EquipItems.SizeOfWire | pkg/decode/inventory_items_equip.go:31-50 | the size table is the length of the serialised layout at every version |
| EquipItems.DecodeEquipItemEntry | pkg/decode/inventory_items_equip.go:54-150 | at every version each field is the number in the bytes at its offset in that era, down to the three flag bits; the entry read serialises back to exactly the bytes of its slot, fields the era lacks are untouched, and the cursor ends at the size-table value less the flag byte |
| EquipItems.WireInjective | pkg/decode/inventory_items_equip.go:54-150 | two entries with the same bytes are the same entry |
| EquipItems.DecodeEquipItems | pkg/decode/inventory_items_equip.go:153-161 | the items are the whole entries of the body, in order, a partial tail ignored |
| EquipItems.ListRoundTrip | pkg/decode/inventory_items_equip.go:153-161 | decoding n serialised entries and a partial tail returns exactly those n entries, at every version |
| EquipItems.DecodingUnique | pkg/decode/inventory_items_equip.go:153-161 | a body decodes in only one way |
| EquipItems.DecodeConcat | pkg/decode/inventory_items_equip.go:153-161 | decoding distributes over concatenation at an entry boundary |
| StackableItems.SizeOfWire | pkg/decode/inventory_items_stackable.go:25-36 | the size table is the length of the serialised layout at every version |
| StackableItems.DecodeNormalItemEntry | pkg/decode/inventory_items_stackable.go:40-96 | at every version each field is the number in the bytes at its offset in that era, down to the two flag bits; the entry read serialises back to the bytes of its slot, era-absent fields are zero, and the cursor ends at the size-table value |
| StackableItems.WireInjective | pkg/decode/inventory_items_stackable.go:40-96 | two entries with the same bytes are the same entry |
| StackableItems.DecodeNormalItems | pkg/decode/inventory_items_stackable.go:100-108 | the items are the whole entries of the body, in order |
| StackableItems.ListRoundTrip | pkg/decode/inventory_items_stackable.go:100-108 | decoding n serialised entries and a partial tail returns exactly those n entries |
| StackableItems.DecodeConcat | pkg/decode/inventory_items_stackable.go:100-108 | decoding distributes over concatenation at an entry boundary |
| GroupList.SizeOfWire | pkg/decode/zc_group_list.go:59-68 | the member size is the length of the serialised layout at every version |
| GroupList.DecodeMember | pkg/decode/zc_group_list.go:82-104 | at every version each field is what lies at its offset in that era, 0 or empty where the era lacks it; the cursor ends at the member size, and the member is the interpretation of the one raw record with those bytes: names up to the first zero, both flags inverted |
| GroupList.DecodeRoster | pkg/decode/zc_group_list.go:110-121 | the members are the whole records of the body, in order |
| GroupList.DecodeZcGroupList | pkg/decode/zc_group_list.go:128-137 | a packet shorter than 28 bytes gives the zero event; otherwise the length is bytes 2 and 3, the party name the text of bytes 4 to 27, and the roster what follows |
| GroupList.RosterRoundTrip | pkg/decode/zc_group_list.go:110-121 | a roster as the server sends it, even with a truncated last member, decodes to its whole members |
| Wire.NullTermString | pkg/decode/helpers.go:53-65 | the prefix before the first zero byte, or all of it |
| PlainBytes.ReadsTwo | pkg/decode/helpers.go:17-24 | two bytes are read with the first one lowest, the top bit counting negative for signed numbers |
| PlainBytes.ReadsFour | pkg/decode/helpers.go:27-34 | the same for four bytes |
| Packing.PosDirBits | pkg/packing/packing.go:30-35 | x is the first byte and the top two bits of the second, y the other six and the top half of the third, the direction its lower half |
| Packing.MoveDataBits | pkg/packing/packing.go:68-76 | ten bits for each of the four coordinates in turn, then the two halves of the last byte |
| Packing.EncodeDecodePosDir | pkg/packing/packing.go:30-46 | every 3-byte input is the encoding of what it decodes to |
| Packing.DecodeEncodePosDir | pkg/packing/packing.go:30-46 | decoding an encoding returns the coordinates mod 1024 and the direction mod 16, for all words |
| Packing.EncodeDecodeMoveData | pkg/packing/packing.go:68-91 | every 6-byte input is the encoding of what it decodes to |
| Packing.DecodeEncodeMoveData | pkg/packing/packing.go:68-91 | decoding an encoding returns the coordinates mod 1024 and the two low fields mod 16, for all words |
| DumpSplitter.ParseHexLine | cmd/gen-fixture/main.go:241-269 | the leading run of two-digit hex tokens after the first > of a line |
| DumpSplitter.StopsAtAsciiColumn | cmd/gen-fixture/main.go:238-269 | the parser stops at the ASCII column exactly when the first token of that is not a pair of hex digits |
| DumpText.DataLineExactly | cmd/gen-fixture/main.go:211-269 | a line of a counter, an arrow, bytes in hex digits set apart by white space, and a rest, is data that starts with those bytes, and is exactly those unless the first word of the rest is a pair of hex digits |
| DumpText.SentExactly | cmd/gen-fixture/main.go:121-125 | a line reads as a sent packet of an id exactly when it is white space, the mark, white space, the four hex digits of the id in either case, and anything |
| DumpText.ReceivedExactly | cmd/gen-fixture/main.go:147-156 | and as a received packet that opens a block exactly when it is so spelled with the other mark and some id |
| DumpText.HeaderExactly | cmd/gen-fixture/main.go:121-156 | every line that begins with one of the marks is a header of its kind, and no other line is |
| DumpSplitter.Scanner.FlushBlock | cmd/gen-fixture/main.go:107-115 | the open block goes whole to the current phase |
| DumpSplitter.Scanner.Scan | cmd/gen-fixture/main.go:117-176 | one line moves phase, state and pending bytes as its kind says, and no other bytes |
| DumpSplitter.ParseDump | cmd/gen-fixture/main.go:78-184 | phase k holds exactly the bytes of received packets seen while the phase was k |
| DumpSplitter.BytesConserved | cmd/gen-fixture/main.go:78-184 | the three phases concatenated are all received bytes in file order |
| DumpSplitter.PhaseNeverDecreases | cmd/gen-fixture/main.go:78-184 | the phase index never decreases |
| DumpSplitter.PhaseMeans | cmd/gen-fixture/main.go:76-77 | login until a sent 0x0065, char until a later sent 0x0436, then map, stated on the lines alone |
| DumpText.PhaseOfText | cmd/gen-fixture/main.go:131-142 | the same on the text: login until a line spelled as a sent 0x0065, char until a later one spelled as a sent 0x0436, then map |
| DumpSplitter.BlockGoesWhole | cmd/gen-fixture/main.go:78-184 | every data line of a received block goes to the phase fixed before its header |
| DumpText.LineGoesTo | cmd/gen-fixture/main.go:117-169 | on the text: a line adds the bytes read in it to the phase that holds at the nearest header above, if that is a received packet with an id, and nothing otherwise |
| Fixture.WriteFixture | cmd/gen-fixture/main.go:272-315 | the file holds, at their offsets, the letters RATF, 1 and the packetver, then per phase its tag, its length in 32 bits and its data, then the letters END and a blank, and nothing else |
| Fixture.LoadsExactly | pkg/session/fsm_scriptedserver_test.go:32-80 | the replay reader returns a packetver and three phases exactly for the files that begin with that layout of them, each phase shorter than 4 GiB |
| Fixture.LoadsWhatWasWritten | pkg/session/fsm_scriptedserver_test.go:32-80 | the replay reader gets back the packetver and the phases |
| Fixture.RoundTripExactly | cmd/gen-fixture/main.go:298-306 | the round trip holds exactly when every phase is shorter than 4 GiB |
| Fixture.GenFixture | cmd/gen-fixture/main.go:49-71 | from dump text to file: the file is that layout of the bytes received in each phase, which together are every received byte in order, and with short phases a reader gets them and the truncated packetver back |

## Left out

- Running the C++ preprocessor and reading headers, struct layouts, packet databases and the synthetic structs: snapshots,
  layouts and mappings are inputs of the model.
- The login and char length tables: the same diff chain over entries split by name prefix.
- The text of the generated Go code: the emitted function is modelled as the blocks it executes, in order.
- Shuffle tables, obfuscation keys, events, send structs, action names, registration and encoders: templates and plain data.
- Unused work in the fill-only merge: the snapshot map it fills and never reads.
- YAML parsing and emission, comments, style flags, `Save` and `SaveTo`: library and I/O. A node is kind, tag, value and
  children, and no node is shared between two places.
- Integer scalars in other than decimal notation, and the 64-bit limit on them: bounds are unbounded decimal integers.
- Unicode case folding and white space: letters and spaces are the ASCII ones.
- Documents with a repeated or a non-scalar action key: `Load` says what index they get, the editing calls require their absence.
- `Search`, `Statistics`, counts and the wording of errors.
- The entry points of the decoders for single packet ids, which cut off a header and call the list decoder.
- `pkg/decode/character_info.go`, the pre-shuffle id switches and the fixed-layout encoders: straight-line code.
- Opening files, the line-length limit of the dump scanner and I/O errors.
- `unsafe.String` in `nullTermString`: the model returns the bytes before the first zero.
- JoinPass.JoinReads: the bounds of a mapping are taken to be nonnegative and below 2^32, as dates are; a negative bound would wrap.
- JoinPass.WindowReads: the same, and so for `JoinPass.PassReads`, `JoinPass.BelowFirstVersion` and `JoinPass.WindowEndExactly`.
- VersionRanges.BuildRanges: a later snapshot without the struct does not close a range, and a change of the flexible-array
  flag alone does not open one, as in the source; shape means total size and field count.
- SemanticRefinement.StepRefines: repeated keys inside an action or an implementation, which YAML forbids, are covered by
  `SemanticLaws.EditSeenExactly`, `SemanticRuns.RunKeepsSound`, `SemanticRuns.FailureChangesNothing` and
  `SemanticRuns.AddThenDelete`, and by the tree-level steps of `SemanticDB.DB`.
- SemanticRuns.RunRefines: the same.
- SemanticValidate.Validate: the report is not sorted by action and packet at the end, which only rearranges it.
- SemanticValidate.CleanIsUnambiguous: versions up to 2^62, the stand-in for no upper bound.
- EquipItems.DecodeEquipItemEntry: returns the new value of the entry instead of writing through a pointer; the list decoder fills an array.
- StackableItems.DecodeNormalItemEntry: the same.
