# Orchestrator: verified models of its hardest parts

A Dafny model of five parts of the workflow orchestrator, with proofs about all inputs, all runs and all reachable
states. `dafny verify dfyconfig.toml` checks the whole project.

1. **Byte-capped dependency prompts** (`Utf8`, `Fitting`, `Rendering`, `RenderingTheorems`, `PromptLayout`,
   `BudgetCycle`, `Retention`, `BlockLayout`, `ContentSnapshot`, `Resolver`, `Ordering`, `SnapshotTypes`, `OutputCapture`).
   Resolved rows are grouped by target, a bounded amount of content is kept, and a prompt block of at most 262144 bytes is rendered. The truncation summary depends on
   the rendering and the rendering on the space left for the summary, so the code searches for a fixpoint and stops on
   a cycle. The proofs show that the search always ends with the best feasible member of its cycle, that the internal
   failure branches cannot be reached, that keeping at most one block of content changes nothing that is rendered, and
   which bytes stand where in every block.
   The renderer is proved for any header, marker and summary text with a header length that grows with the length it announces
   (`SnapshotTypes.Orderly`); `PromptLayout` supplies the real texts.
2. **Output contracts** (`JsonPointer`, `Workspace`, `ContractParse`, `TransportGraph`, `UnionContracts`,
   `UnionValidators`, `UnionMeaning`, `UnionAgreement`). Typed parsing with independent definitions of what each type contains
   and of what each raw value means, JSON
   Pointers as in sections 3 and 4 of RFC 6901, cycle detection in a heap graph, and the two validators for tagged
   unions, which are proved to agree and to accept exactly the documents of their variants.
3. **The pilot protocol** (`OneShot`, `PilotController`, `ReviewPackage`). `OneShot` is a transition system with any
   number of processes, every interleaving of their file operations, half-written files, crashes and tampering.
   `PilotController` is the controller over a whole history of runs; each method may stop at every point where the
   program could die, so its contract describes every crash state. Both also say what happens when nothing goes
   wrong: `OneShot.UndisturbedSlot` and `PilotController.UndisturbedPilot`.
4. **The run state** (`AtomicFile`, `StateFile`, `AttemptAllocator`, `ScopedState`). Atomic replacement under short
   writes and any combination of faults, the state file built on it, the ordinal allocator with rollback over whole
   histories of events, and the nested call-frame update as a lens. What goes wrong is an argument of every operation, so
   its outcome is a function of the faults.
5. **The session ledger** (`SessionLedger`, `RuntimeSweep`). The ledger as a state machine, and its interval sweep as
   the size of a set of milliseconds.

`Text` holds the string helpers of all of them (decimal numerals, Python's `int()` and `split`).

Conventions. A datatype stands for a record that the program does not change; a class with `modifies` clauses for one that
it does. Loops are methods proved against a function of their inputs, and the theorems are lemmas about that
function; where a function decides what is accepted or produced, a lemma named `…Exactly` says when, in terms that do not
use it. Python exceptions are results. What the program does not control is either an argument (faults, traces of
actions, liveness, the world of a pilot run) or, in `PilotController`, a nondeterministic choice of where a run stops; a
proof covers all of its outcomes.

Findings about the code, each with its exact condition and, where something can go wrong, a concrete input:

- The two tagged-union validators disagree on a union with a single variant that has fields of its own: the flat bundle
  refuses every document (`UnionAgreement.LoneVariantRefused`), `variant_output` does not
  (`UnionAgreement.ValidatorsCanDisagree`). `UnionAgreement.AgreementExactly` relates the two for every document.
- After a provider attempt whose state write fails, the next ordinal is the one after the disk's if the state file
  exists and one of the two rereads succeeds, and else the one after the ordinal that nobody received
  (`AttemptAllocator.FailureConsumesExactly`). A failure before the rename thus consumes no ordinal exactly when the
  state is reread (`AttemptAllocator.FailureBeforeRename`); `AttemptAllocator.OrdinalSkipped` is a history in which
  the first ordinal handed out is 2.
- After a failed write, `_mutate_scoped_state` leaves memory as it was exactly when the state was reread and the disk
  holds the old memory, or was not reread and the candidate equals the old memory (contract of
  `ScopedState.StateManager.MutateScopedState`). The candidate equals the old state exactly when the mutation leaves
  its leaf alone and no frame on the path is stale (`ScopedState.CandidateUnchangedExactly`).
  `ScopedState.FailedWriteCanChangeMemory` is a call that fails and changes memory.
- Putting a leaf back unchanged is the identity exactly when the frames on the path mirror their states
  (`ScopedState.PutGet`, with a run on which it is not in `ScopedState.PutGetCanChange`).
- The interval sweep is off by `RuntimeSweep.Error`, for all intervals (`RuntimeSweep.SweepIsOffBy`): each start that lies
  after every end so far is counted again up to that end, and nothing is counted while no end has been seen. If the first
  interval is closed, the sweep is right exactly when no start but the last is of that kind
  (`RuntimeSweep.SweepIsRightExactly`). `RuntimeSweep.SweepCanBeOff` has three ledgers on which it is
  wrong; none is reachable (`RuntimeSweep.ReachableSweep`).
- After an exception a file is as it was exactly when the rename did not take place. An exception after the rename
  comes from outside, or from a durable replacement that fails to sync the directory or to close it
  (`AtomicFile.RaisedMeansUnchangedExactly`; all three cases occur, `AtomicFile.RaiseAfterReplacement`).
- The search for a summary budget can go round in a cycle, and a member of the cycle can be too long for the cap:
  with ten files it alternates between 82 and 83 bytes and settles on 83 (`BudgetCycle.CycleIsLive`).
- `_resolve_patterns` lists files in the order of their targets and rows in the order of their lexical paths, which can
  differ (`Resolver.MatchesAreSorted`, `Resolver.OrdersCanDiffer`).

## Model

| member | source | states |
|---|---|---|
| `Utf8.StrictUtf8Prefix` | orchestrator/deps/content_snapshot.py:41-49 | the prefix that strict decoding keeps is `StrictPrefix`, the bytes up to where decoding of the cut stops |
| `Utf8.StrictPrefixIsGreatest` | orchestrator/deps/content_snapshot.py:41-49 | that prefix is the greatest character boundary within the limit, for all byte strings, well formed or not |
| `Utf8.GreatestBoundaryUnique` | orchestrator/deps/content_snapshot.py:41-49 | only one length is the greatest boundary, so the previous row determines the result |
| `Utf8.NextBoundaryIsNext` | orchestrator/deps/content_snapshot.py:344-354 | the next boundary is a boundary, and none lies strictly between |
| `Utf8.BoundariesOfEncoding` | orchestrator/deps/content_snapshot.py:344-354 | the boundaries of encoded text are exactly the ends of its encoded prefixes |
| `Utf8.DecodesExactly` | orchestrator/deps/content_snapshot.py:41-49 | what decodes strictly is exactly what some text encodes to |
| `Fitting.LargestFittingPrefix` | orchestrator/deps/content_snapshot.py:357-386 | the loop returns the longest character-aligned prefix whose own header, bytes and marker fit, or the empty one |
| `Fitting.FitLengthIsLargest` | orchestrator/deps/content_snapshot.py:357-386 | the specification of that loop is the largest fitting boundary although the header contains the length |
| `Fitting.LargestFitUnique` | orchestrator/deps/content_snapshot.py:357-386 | the largest fit is unique |
| `Rendering.RenderTruncatedBody` | orchestrator/deps/content_snapshot.py:389-459 | the loop over groups emits the instruction and `Sections`, with one truncation per group |
| `Rendering.SearchBudget` | orchestrator/deps/content_snapshot.py:528-575 | the search with its table of seen budgets terminates and computes `Search` |
| `Rendering.RenderContentSnapshot` | orchestrator/deps/content_snapshot.py:462-582 | the renderer with its error branches computes `Render`; `BlockLayout.RenderedBlock` says which bytes that gives |
| `RenderingTheorems.SectionsFit` | orchestrator/deps/content_snapshot.py:389-459 | the sections never exceed the room they were given |
| `RenderingTheorems.CycleHasFeasibleMember` | orchestrator/deps/content_snapshot.py:556-575 | every cycle of budgets has a member whose summary is no longer than its budget |
| `RenderingTheorems.SearchNeverStuck` | orchestrator/deps/content_snapshot.py:528-575 | the search returns the best feasible candidate on the cycle of budgets that it runs into from its first budget; "no feasible render" is unreachable |
| `RenderingTheorems.EarliestOfTheBest` | orchestrator/deps/content_snapshot.py:552-571 | the choice on a cycle fits, no member that fits shows more or is longer, and it beats every earlier one that fits |
| `RenderingTheorems.RenderIsCappedAndNeverStuck` | orchestrator/deps/content_snapshot.py:462-582 | every returned block is within the cap; the only errors are an oversized instruction, exactly then, and an oversized summary |
| `RenderingTheorems.TruncatedRenderIsBest` | orchestrator/deps/content_snapshot.py:528-582 | a truncated block is the body and summary of the best candidate on the cycle reached from the reserve of 512 bytes |
| `RenderingTheorems.CompleteIffFits` | orchestrator/deps/content_snapshot.py:402-459 | all groups are complete exactly when all content is there and the full size fits |
| `RenderingTheorems.RenderStatuses` | orchestrator/deps/content_snapshot.py:402-582 | statuses read complete*, at most one truncated with 0 < shown < total, then omitted*; the truncation flag holds exactly when the full block is too large or content was dropped |
| `BlockLayout.RenderedBlock` | orchestrator/deps/content_snapshot.py:389-582 | every block is the instruction, then for each group in order its header and content if complete, its header, the shown prefix and the marker if cut, nothing if omitted, then the summary, and no other byte |
| `BlockLayout.LaidOutAt` | orchestrator/deps/content_snapshot.py:389-459 | the section of each group stands at the sum of the sizes of those before it |
| `BlockLayout.BuiltBlock` | orchestrator/deps/content_snapshot.py:229-582 | the block of a built snapshot shows the bytes that were given, in order of the targets, although not all were kept |
| `PromptLayout.StandardIsOrderly` | orchestrator/deps/content_snapshot.py:327-328 | the real header grows with the length it announces |
| `PromptLayout.SummaryFitsReserve` | orchestrator/deps/content_snapshot.py:331-341 | the real summary fits the reserve of 512 bytes exactly when its three counts have at most 433 digits together |
| `PromptLayout.StandardRenderSucceeds` | orchestrator/deps/content_snapshot.py:462-582 | with the real texts and fewer than 10^144 groups every instruction within its limit renders to a block within the cap |
| `BudgetCycle.CycleIsLive` | orchestrator/deps/content_snapshot.py:552-571 | ten files on which the search alternates between the budgets 82 and 83, the block for 82 is one byte over the cap, and 83 is chosen |
| `Retention.CutAtSamePlace` | orchestrator/deps/content_snapshot.py:255-279 | no prefix beyond the kept bytes could have fitted, so the cut falls at the same place |
| `Retention.SectionsSame` | orchestrator/deps/content_snapshot.py:255-279 | the sections of the kept groups equal those of the whole groups, for every room within the kept amount |
| `Retention.RetentionIsInvisible` | orchestrator/deps/content_snapshot.py:255-279 | bounded retention never changes the rendered block, statuses or summary |
| `Retention.TruncatesExactlyWhenTooLarge` | orchestrator/deps/content_snapshot.py:482-526 | rendering truncates exactly when the full size exceeds the cap |
| `ContentSnapshot.BuildContentSnapshot` | orchestrator/deps/content_snapshot.py:229-279 | building succeeds exactly on contiguous rows with one payload per target and no missing required row; the result is `Built` and valid, and every group has the size of the content given for its target and a prefix of its bytes |
| `ContentSnapshot.BuiltSnapshotIsValid` | orchestrator/deps/content_snapshot.py:97-179 | the built snapshot passes every constructor check exactly when no required row is absent |
| `ContentSnapshot.BuiltGroupsPartition` | orchestrator/deps/content_snapshot.py:229-279 | the groups partition the present rows |
| `ContentSnapshot.BuiltGroupsValid` | orchestrator/deps/content_snapshot.py:97-123 | every built group passes the group checks |
| `ContentSnapshot.ContiguousMeansDistinct` | orchestrator/deps/content_snapshot.py:222-226 | contiguous indices leave no two rows with the same identity |
| `ContentSnapshot.PayloadMapIs` | orchestrator/deps/content_snapshot.py:243-247 | the payload of a target is the content given for it |
| `ContentSnapshot.BuiltIsKeptOf` | orchestrator/deps/content_snapshot.py:249-279 | every group keeps a prefix of the content given for its target and records its full size |
| `ContentSnapshot.BuiltRendersAsWhole` | orchestrator/deps/content_snapshot.py:229-279 | a built snapshot renders like one that keeps every payload whole |
| `Resolver.ResolveExactRows` | orchestrator/deps/resolver.py:124-162 | rows are numbered, files are exactly the targets, without repetition and in order of first use, and `missing` lists the paths of the required entries without target, in order |
| `Resolver.UntargetedInOrder` | orchestrator/deps/resolver.py:147-151 | the paths listed as missing are those of all rows without a target, each at its place |
| `Resolver.UniqueInOrder` | orchestrator/deps/resolver.py:256-262 | what remains of a list of files is each first use, at its place |
| `Resolver.ResolvePatterns` | orchestrator/deps/resolver.py:180-264 | rows follow the sorted matches of each pattern, or a single absent row; files are the sorted targets without repetition, in order of first use; `missing` lists the unmatched required patterns and is empty exactly when no required row lacks its target |
| `Resolver.MatchesAreSorted` | orchestrator/deps/resolver.py:225-227 | both orders are sorted permutations of what `glob` found |
| `Resolver.OrdersCanDiffer` | orchestrator/deps/resolver.py:225-227 | two matches whose rows and files come in different orders |
| `Resolver.UnmatchedAreMissing` | orchestrator/deps/resolver.py:240-254 | the rows without a target are those of the patterns without a match: their paths are the unmatched expansions, in order |
| `Resolver.ResolvedRowsContiguous` | orchestrator/deps/resolver.py:124-162 | required and optional rows together have contiguous indices |
| `Resolver.ResolvedRowsBuild` | orchestrator/deps/resolver.py:124-264 | the results of either route, with one valid payload per target, build a valid snapshot exactly when nothing required is missing |
| `OutputCapture.TruncateText` | orchestrator/exec/output_capture.py:164-171 | dropping one character at a time yields exactly the bytes of the strict prefix at that limit |
| `OutputCapture.CaptureText` | orchestrator/exec/output_capture.py:157-183 | the same for the whole capture, with the flag exactly when the text is too long |
| `JsonPointer.UnescapeEscape` | orchestrator/contracts/output_contract.py:1344-1346 | unescaping undoes escaping for all keys, also with "~" and "/" |
| `JsonPointer.PointerTokens` | orchestrator/contracts/output_contract.py:1344-1346 | a built pointer splits back into its tokens |
| `JsonPointer.ResolveJsonPointer` | orchestrator/contracts/output_contract.py:1415-1446 | the loop over tokens computes `Resolve` |
| `JsonPointer.PointerRoundTrip` | orchestrator/contracts/output_contract.py:1415-1446 | the path built for any sub-value resolves to that sub-value |
| `JsonPointer.LookupExactly` | orchestrator/contracts/output_contract.py:1425-1429 | a key is found exactly when it is in the dictionary, with a value that it has there |
| `JsonPointer.ResolvesExactly` | orchestrator/contracts/output_contract.py:1415-1446 | a pointer resolves to a value exactly when one step a token leads to it; otherwise it does not resolve |
| `TransportGraph.Validator.Validate` | orchestrator/contracts/output_contract.py:1262-1326 | on any finite graph validation terminates, computes `Check` and restores its active set |
| `TransportGraph.AcceptedExactly` | orchestrator/contracts/output_contract.py:1262-1326 | a graph is accepted exactly when no path repeats a container and every reachable leaf and key is in the JSON domain |
| `TransportGraph.RejectionIsExplained` | orchestrator/contracts/output_contract.py:1290-1322 | every rejection names a bad path that ends at the reported value |
| `TransportGraph.ReportedPathResolves` | orchestrator/contracts/output_contract.py:1290-1322 | for a value anywhere inside a root value, validated under the path of its place, the reported value path resolves from the root to the offending value, also in shared and cyclic graphs |
| `Workspace.RelativeRoundTrip` | orchestrator/contracts/output_contract.py:1449-1516 | the name of a target in the workspace resolves to that target |
| `ContractParse.ParseOutputBundleValue` | orchestrator/contracts/output_contract.py:1036-1239 | the parser with its loops over items and entries computes `ParseValue` |
| `ContractParse.ParseSound` | orchestrator/contracts/output_contract.py:1079-1239 | an accepted result conforms to its type |
| `ContractParse.ConformsIffFixpoint` | orchestrator/contracts/output_contract.py:1079-1239 | the values of a type are exactly those that parse to themselves |
| `ContractParse.ParseIdempotent` | orchestrator/contracts/output_contract.py:1449-1539 | parsing a parsed result again returns it unchanged, including normalized paths |
| `ContractParse.ParseExactly` | orchestrator/contracts/output_contract.py:1079-1239 | a raw value parses to a value exactly when it means that value under the type, defined case by case without the parser: which texts are true and false, which numerals are which integer, which path a text denotes, element by element for lists and maps |
| `ContractParse.RejectedPathResolves` | orchestrator/contracts/output_contract.py:1079-1161 | under every nested contract the value path of a rejected transportable value resolves to a number outside the JSON domain |
| `UnionValidators.ResolveProjectionActivity` | orchestrator/contracts/output_contract.py:330-523 | no violation exactly when all metadata is consistent and no switched-off field is present; exactly the members outside the selected variant are marked inactive |
| `UnionValidators.ValidateOutputBundle` | orchestrator/contracts/output_contract.py:577-664 | accepts exactly `BundleAccepts`, with the artifacts of the fields that are not switched off |
| `UnionValidators.ValidateVariantOutput` | orchestrator/contracts/output_contract.py:705-972 | accepts exactly `VariantAccepts`, with the artifacts of the fields in effect |
| `UnionMeaning.ContributesExactly` | orchestrator/contracts/output_contract.py:626-664 | a field gives exactly the value that its JSON Pointer leads to, read under its type, or null for an absent optional field |
| `UnionMeaning.PassedOverExactly` | orchestrator/contracts/output_contract.py:626-664 | a field is passed over exactly when it is absent and neither required nor of an optional type |
| `UnionMeaning.AcceptsItsVariants` | orchestrator/contracts/output_contract.py:705-972 | `variant_output` accepts exactly the documents tagged with one of its variants that hold every shared field and every field of that variant and no field of another |
| `UnionMeaning.ArtifactsAreTheFields` | orchestrator/contracts/output_contract.py:793-972 | the artifacts are named after the tag, the shared fields and the fields of the selected variant, and each is the value that the document holds for it |
| `UnionMeaning.FieldFineExactly` | orchestrator/contracts/output_contract.py:577-664 | what the flat bundle asks of each field, in terms of what the document holds |
| `UnionMeaning.BundleGatherExactly` | orchestrator/contracts/output_contract.py:577-664 | its artifacts are the values of the fields that are not switched off and have one, and nothing else |
| `UnionAgreement.SameSelection` | orchestrator/contracts/output_contract.py:478-491 | both validators select the same variant |
| `UnionAgreement.SameDocuments` | orchestrator/contracts/output_contract.py:330-523 | the two encodings of a union accept the same documents |
| `UnionAgreement.ActiveInEffect` | orchestrator/contracts/output_contract.py:486-494 | the active fields of the flat bundle are the fields in effect, in the same order |
| `UnionAgreement.ValidatorsAgree` | orchestrator/contracts/output_contract.py:734-972 | the two validators accept the same documents with the same artifact map |
| `UnionAgreement.LoneVariantRefused` | orchestrator/contracts/output_contract.py:456-476 | a lone variant with fields of its own is refused as a flat bundle, whatever the document |
| `UnionAgreement.AgreementExactly` | orchestrator/contracts/output_contract.py:456-476 | the flat bundle accepts a document exactly when `variant_output` does and the union does not consist of a lone variant with fields of its own |
| `UnionAgreement.ValidatorsCanDisagree` | orchestrator/contracts/output_contract.py:456-476 | a union and a document that `variant_output` accepts and the flat bundle refuses |
| `OneShot.RunKeepsInvariant` | orchestrator/experiments/_pilot_controller_state.py:416-484 | every step of every interleaving keeps the protocol invariant |
| `OneShot.AtMostOnce` | orchestrator/experiments/_pilot_review_execution.py:360-491 | over all interleavings, crashes and half-written files a slot launches at most once and publishes at most one review |
| `OneShot.AtMostOncePerSlot` | orchestrator/experiments/_pilot_review_execution.py:360-491 | with any number of slots side by side, every block is prepared at most once and every review slot launches at most once |
| `OneShot.ResultsBelongToTheLaunch` | orchestrator/experiments/_pilot_controller_state.py:416-484 | every result belongs to the one launch, with a matching intent on file and a fully written completion; preparation returns exactly what was prepared even if files were changed |
| `OneShot.ResumedNeverLaunches` | orchestrator/experiments/_pilot_review_execution.py:410-440 | a process that found the intent never launches, in any continuation: it is still reading, has replayed a result, or has stopped |
| `OneShot.ReplayNeedsFullMatch` | orchestrator/experiments/_pilot_review_execution.py:202-270 | in any run, a resumed process that has a result got it at a moment at which a whole completion matched its own intent, the intent on file and the artifacts on disk |
| `OneShot.LoadingDecides` | orchestrator/experiments/_pilot_controller_state.py:323-414 | without a full match at the moment of loading a process never has a result, in any continuation; with one, a preparation has it until it is stopped |
| `OneShot.ResultsAgree` | orchestrator/experiments/_pilot_review_execution.py:410-440 | while nobody touches the artifacts all results of a slot are the same |
| `OneShot.AbandonedForever` | orchestrator/experiments/_pilot_controller_state.py:442-449 | a claimed slot whose owner died before completing never launches again and never yields a result |
| `OneShot.LoneProcessLaunches` | orchestrator/experiments/_pilot_review_execution.py:441-491 | a process that has an untouched slot to itself claims it and launches, within five steps |
| `OneShot.LaunchedProcessFinishes` | orchestrator/experiments/_pilot_controller_state.py:463-484 | having launched, it binds the result and finishes within three more |
| `OneShot.SecondProcessReplays` | orchestrator/experiments/_pilot_controller_state.py:434-452 | a second process with the same intent gets the result of a completed slot within four steps and changes nothing else |
| `OneShot.UndisturbedSlot` | orchestrator/experiments/_pilot_review_execution.py:360-491 | undisturbed, the first process launches once and finishes, a second replays its result without launching, and a review is published with it |
| `OneShot.DirtySlotIsRefused` | orchestrator/experiments/_pilot_controller_state.py:453-454 | a process that finds other evidence without an intent never launches, in any continuation |
| `PilotController.LoadAttemptPrefix` | orchestrator/experiments/_pilot_controller.py:135-176 | loading succeeds exactly on a complete prefix begun after a VALID smoke and below the denominator; on reachable evidence the gap, failed-smoke and after-denominator errors never fire |
| `PilotController.PrefixExtends` | orchestrator/experiments/_pilot_controller.py:396-421 | the next attempt keeps the prefix, whatever becomes of it |
| `PilotController.ValidNeverExceedsTarget` | orchestrator/experiments/_pilot_controller.py:396-421 | VALID live blocks never exceed the target, attempts never exceed the maximum |
| `PilotController.SlotKeepsRun` | orchestrator/experiments/_pilot_review_execution.py:286-289 | one more review slot, stopped anywhere, keeps sessions distinct, new and from one run, and adds nothing to what an earlier run published |
| `PilotController.Evidence.RunReviewSlot` | orchestrator/experiments/_pilot_review_execution.py:340-491 | a slot publishes nothing, or one session that was not used; a published slot is refused without effect; success means that the slot was free and now has its review; if nothing disturbs it, a free slot succeeds |
| `PilotController.Evidence.ReviewAll` | orchestrator/experiments/_pilot_controller.py:423-453 | the review phase keeps sessions distinct and new, and publishes nothing if anything was published before; it ends well only with a review of every block by every reviewer, and undisturbed exactly when every slot was ready |
| `PilotController.Evidence.RunLiveBlocks` | orchestrator/experiments/_pilot_controller.py:379-421 | the attempt phase keeps the prefix at every stop and ends settled, with the VALID blocks packaged in order; undisturbed it fails only on a half-prepared package |
| `PilotController.Evidence.ExecutePilot` | orchestrator/experiments/_pilot_controller.py:298-453 | one run, stopped anywhere, keeps reachable evidence; after a publication it changes neither attempts nor reviews; a verdict means that the attempts are settled, the VALID blocks packaged and reviewed by every reviewer; an undisturbed run has a verdict exactly when the evidence was loadable and nothing it needs was left half done |
| `PilotController.UndisturbedPilot` | orchestrator/experiments/_pilot_controller.py:298-478 | an undisturbed first run ends with a verdict: not viable exactly when the smoke is not VALID; otherwise live blocks were run until enough are VALID or none may follow, and exactly the VALID blocks are packaged and reviewed by every reviewer, each with its own session |
| `PilotController.SlotFreeExactly` | orchestrator/experiments/_pilot_review_execution.py:340-440 | a slot is free after others were reviewed exactly when the evidence was ready for it from the start |
| `PilotController.AllSlotsAreAll` | orchestrator/experiments/_pilot_controller.py:427-445 | the slots visited are every block with every reviewer |
| `PilotController.Evidence.RunHistory` | orchestrator/experiments/_pilot_controller.py:298-453 | any number of runs, each in its own world, keeps it |
| `PilotController.ReachableEvidence` | orchestrator/experiments/_pilot_controller.py:331-453 | reachable evidence is a bounded contiguous prefix after a VALID smoke, and all published sessions are distinct, not from the calibration, and from one run |
| `ReviewPackage.Walk` | orchestrator/experiments/_evaluation_ingest.py:141-166 | the walk accepts exactly permitted trees and collects all their files |
| `ReviewPackage.FilesHaveAncestors` | orchestrator/experiments/_evaluation_ingest.py:133-138 | a directory of the tree lies on the way to each of its files |
| `ReviewPackage.VerifyClosedPackageTree` | orchestrator/experiments/_evaluation_ingest.py:128-170 | a tree is accepted exactly when its nodes are the manifest files, the manifest and their ancestor directories |
| `ReviewPackage.PairCount` | orchestrator/experiments/_evaluation_ingest.py:268-273 | n distinct labels have n(n-1)/2 unordered pairs |
| `ReviewPackage.CheckPairwiseCoverage` | orchestrator/experiments/_evaluation_ingest.py:268-294 | accepted exactly when every result compares two different labels and each pair is ranked exactly once; there are then n(n-1)/2 results |
| `AtomicFile.WrittenIsPrefix` | orchestrator/_common/io_atomic.py:18-24 | under arbitrary short writes the file always holds a prefix of the payload, and all of it at the end |
| `AtomicFile.ShortWritesAreContinued` | orchestrator/_common/io_atomic.py:18-24 | after any number of short writes the loop goes on with exactly the bytes that are left |
| `AtomicFile.LoopStopsExactly` | orchestrator/_common/io_atomic.py:18-24 | if every write makes progress everything is written; otherwise the loop stops at the first write that fails or writes nothing, and at no other |
| `AtomicFile.ReplacementIsAtomic` | orchestrator/_common/io_atomic.py:53-102 | under any faults the destination holds the whole payload if the rename took place and its whole old content if not; no other file changes |
| `AtomicFile.DoneMeansReplaced` | orchestrator/_common/io_atomic.py:53-102 | a normal return means that the payload is in place and nothing is left behind |
| `AtomicFile.UndisturbedReplacement` | orchestrator/_common/io_atomic.py:53-102 | without a fault, however short the writes, the file is replaced and nothing else changes |
| `AtomicFile.RaisedMeansUnchangedExactly` | orchestrator/_common/io_atomic.py:53-102 | after an exception the destination is unchanged exactly when the rename did not take place; otherwise the exception came from outside, or from syncing or closing the directory of a durable replacement |
| `AtomicFile.PlainRaiseMeansUnchanged` | orchestrator/_common/io_atomic.py:53-102 | an exception of a replacement that is neither durable nor interrupted from outside means that nothing was replaced |
| `AtomicFile.RaiseAfterReplacement` | orchestrator/_common/io_atomic.py:74-102 | faults of each of the three kinds under which the file is replaced and the caller sees an exception |
| `AtomicFile.Directory.WriteAll` | orchestrator/_common/io_atomic.py:18-24 | the loop computes `Written` |
| `AtomicFile.Directory.ReplaceBytes` | orchestrator/_common/io_atomic.py:53-102 | the program computes `Replaced`, files and outcome, for all faults |
| `StateFile.Store.Write` | orchestrator/state.py:632-641 | the state on disk is the new one exactly when the rename took place, and an exception means that it did not, unless it came from outside |
| `AttemptAllocator.HistoryKeeps` | orchestrator/state.py:431-531 | over any history of allocations, other writes, failures, deaths, reloads and restarts the issued ordinals of a scope strictly increase, the disk covers them, and no record on disk ever loses an ordinal or changes its authority |
| `AttemptAllocator.NeverReissued` | orchestrator/state.py:446-531 | in any history of a run no ordinal of a scope is handed out twice, and its authority is the same each time |
| `AttemptAllocator.IssueKeeps` | orchestrator/state.py:446-531 | the next ordinal of a record that covers all issued ones keeps them strictly increasing, covered and of one authority |
| `AttemptAllocator.ServedExactly` | orchestrator/state.py:446-531 | a request is served exactly when a state is loaded, the scope is new or of this authority and the write succeeds; it gets the next ordinal, which memory and disk then record |
| `AttemptAllocator.ServedWithoutGaps` | orchestrator/state.py:446-531 | requests that nothing disturbs are all served, and the ordinals of each scope have no gap |
| `AttemptAllocator.FailureConsumesExactly` | orchestrator/state.py:431-443 | the next ordinal after a failed write, for every manager: after the disk's if reread, else after the one nobody received |
| `AttemptAllocator.FailureBeforeRename` | orchestrator/state.py:431-443 | where memory and disk agree, a failure consumes no ordinal exactly when it struck before the rename and the state is reread |
| `AttemptAllocator.OrdinalSkipped` | orchestrator/state.py:524-531 | a history in which the first ordinal handed out is 2 |
| `AttemptAllocator.StateManager.AllocateProviderAttempt` | orchestrator/state.py:446-531 | the program over the state file computes `Attempted` for all faults of the write and both rereads |
| `ScopedState.GetPut` | orchestrator/state.py:1175-1246 | reading the path back gives the committed leaf, and all frames on the path are up to date |
| `ScopedState.PutPut` | orchestrator/state.py:1175-1246 | the last of two puts wins |
| `ScopedState.PutGet` | orchestrator/state.py:1175-1246 | putting back what is there changes nothing exactly when the frames on the path are up to date |
| `ScopedState.OffPathState` | orchestrator/state.py:1175-1246 | a path that parts from the updated one reaches the same state as before |
| `ScopedState.OffPathFrame` | orchestrator/state.py:1175-1246 | and the same frame, summary included |
| `ScopedState.AncestorsKeepFields` | orchestrator/state.py:1229-1237 | every state above the leaf keeps its own fields and its set of frames |
| `ScopedState.OnPathMirrors` | orchestrator/state.py:1229-1237 | every frame on the path mirrors its child's status and current step |
| `ScopedState.Descend` | orchestrator/state.py:1203-1219 | the walk down succeeds exactly when the path is valid and finds the leaf and its ancestors |
| `ScopedState.Ascend` | orchestrator/state.py:1229-1237 | the walk back up computes `Put` |
| `ScopedState.StateManager.MutateScopedState` | orchestrator/state.py:1175-1246 | each refusal happens exactly when its check fails and changes nothing; a commit puts the leaf in memory and on disk; a failed write leaves the disk alone, and memory as it was exactly under the condition given above |
| `ScopedState.CandidateUnchangedExactly` | orchestrator/state.py:1199-1237 | the candidate state equals the old one exactly when the mutation leaves its leaf alone and no frame on the path is stale |
| `ScopedState.PutGetCanChange` | orchestrator/state.py:1229-1237 | a run with a stale frame, which changes when its leaf is put back |
| `ScopedState.FailedWriteCanChangeMemory` | orchestrator/state.py:1239-1245 | a call whose write fails and which leaves another state in memory |
| `SessionLedger.NextSessionId` | orchestrator/runtime_observability.py:150-160 | in any ledger the next id is new |
| `SessionLedger.NameNumber` | orchestrator/runtime_observability.py:150-160 | the number in a generated id reads back |
| `SessionLedger.Ledger.ReconcileOpenSessions` | orchestrator/runtime_observability.py:279-298 | exactly the dead open sessions are ended |
| `SessionLedger.Ledger.OpenExecutorSession` | orchestrator/runtime_observability.py:301-339 | opening fails exactly when a live open session exists, and otherwise appends one with a new id |
| `SessionLedger.Ledger.CloseExecutorSession` | orchestrator/runtime_observability.py:342-363 | closing fails exactly when the id is unknown and changes only an open session |
| `SessionLedger.HistoryKeepsOrderly` | orchestrator/runtime_observability.py:279-363 | over any sequence of calls the ledger stays numbered with at most the last open, and a closed session is never changed |
| `SessionLedger.ReachableLedger` | orchestrator/runtime_observability.py:279-363 | reachable ids are pairwise distinct with increasing numbers, and at most one session is open |
| `RuntimeSweep.ComputeActiveRuntime` | orchestrator/runtime_observability.py:210-276 | the loops compute the sum of contributions and the sweep over the sorted intervals |
| `RuntimeSweep.SweepMeasuresIdleTime` | orchestrator/runtime_observability.py:258-264 | the sweep equals the number of milliseconds between the earliest and the latest start that no closed session covers |
| `RuntimeSweep.ReachableSweep` | orchestrator/runtime_observability.py:258-264 | this holds in every ledger reached with a monotone clock |
| `RuntimeSweep.SweepIsOffBy` | orchestrator/runtime_observability.py:258-264 | for any sorted intervals, open or closed, the sweep differs from the idle time by exactly `Error` |
| `RuntimeSweep.SweepIsRightExactly` | orchestrator/runtime_observability.py:258-264 | the sweep over any intervals is right exactly when its errors cancel, and with a closed first interval exactly when every interval but the last starts no later than some end up to its own |
| `RuntimeSweep.CaughtWhenProper` | orchestrator/runtime_observability.py:258-264 | for proper intervals that means: every open one but the last starts no later than the latest end before it |
| `RuntimeSweep.SweepCanBeOff` | orchestrator/runtime_observability.py:258-264 | three ledgers on which the excluded time differs from the number of idle milliseconds, and by how much |
| `RuntimeSweep.TimeIsConserved` | orchestrator/runtime_observability.py:210-276 | in every reachable ledger active plus excluded time is the time from the first start to the last end, to now if the last session is alive, or to its start if its process is dead |
| `RuntimeSweep.DeadTimeStandsStill` | orchestrator/runtime_observability.py:242-249 | without a live open session the active time does not depend on the clock |
| `RuntimeSweep.LiveTimeRuns` | orchestrator/runtime_observability.py:242-249 | a live open session adds one millisecond a millisecond from its start on |

## Left out

- PromptLayout.StandardRenderSucceeds: fewer than 10^144 groups, since the summary prints three counts; beyond that the program can report an oversized summary, as `PromptLayout.SummaryFitsReserve` says exactly.
- Resolver.ResolvePatterns: what `glob` finds, variable substitution and the checks that matches stay in the workspace are inputs, because they come from the file system.
- Resolver.ResolveExactRows: where an entry leads in the file system is an input.
- ContractParse.ParseOutputBundleValue: record and union descriptors are not modelled, `float()` is an uninterpreted conversion, `int()` reads ASCII digits only, and `lower()` is modelled for ASCII text.
- UnionValidators.ValidateOutputBundle: the bundle path, reading the file and decoding JSON are left out, and violations are counted without their messages.
- UnionValidators.ValidateVariantOutput: as above; the contract's own shape checks on dictionaries and lists are carried by the types.
- AttemptAllocator.StateManager.InitializeState: only on a run that has no state file yet, as the run id is new.
- PilotController.Evidence.constructor: takes a lock whose ids are distinct, as the validation of locks ensures.
- PilotController.Evidence.RunBlock: the runner's processes are left out; a block ends in the terminal status that the world of the run says.
- PilotController.Evidence.PreparePackage: only which files exist, because `OneShot` has the protocol in full.
- StateFile.Store.Write: the JSON text of a state is any encoding that decodes to it, and the timestamp is left out.
- RuntimeSweep.ComputeActiveRuntime: times are whole milliseconds and always parse; the description of the current session and the formatted durations are left out.
- The instruction text is an argument: choosing a default instruction from the dependency mode would only add an easy member.
- Digests and canonical JSON are treated as injective, so records are compared directly.
- Reading dependency files, log spills, JSON capture apart from its shared truncation loop, and citation checks of reviews.
- Publishing review and unblinding bindings, and the shape checks of locks, calibration records and source maps.
- State repair from backups, the visits of eligible pure steps, and list-mode injection.
- Dashboard, command line, monitoring, real locks, clocks and processes.
