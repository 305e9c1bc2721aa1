# Solana Playground: a verified model of its stateful parts

Most of Solana Playground is user interface and thin wrappers over browser and chain
services. Scattered among these are small stateful pieces whose correctness rests on an
invariant that no single function states. This project models those pieces in Dafny, in
the form the code has (classes and loops where it assigns, functions where it computes),
and proves what they are for.

| file | what it models |
|---|---|
| SlabHeap, HandleArray | the object heap of the wasm glue: a free list threaded through the array of live objects, and arrays of handles passed through linear memory |
| Memory, Utf8, StringMarshal | linear memory with an allocator, UTF-8 as in section 3 of RFC 3629, and the two-phase string writer |
| Text, EventStream | the incremental reader of the tutor's event stream |
| DepGraph, CrateWorld, CrateLoader | the crate graph of the language server: acyclicity, the abstract loader with its repair of missing edges, and the imperative loader that refines it |
| SymbolForest | the pop loop that turns a flat symbol list into a forest |
| BuildPermits | the build server's semaphore and id vector, step by step, with cancelled requests |
| ActionSlot, ActionHooks, ShownAction, BuildLog, Terminal, Workspace | the learning workspace: the single action slot under navigation, builds that end elsewhere and their log, the terminal, bounded and persisted histories |
| PatchApply | applying a tutor patch, rolling it back, undoing it |
| Router, CommandParser | route templates; sorting and parsing command tokens |
| Executor, RandomBigInt | the in-order async executor; the byte-wise random integer |
| SeahorseTree | flattening a source tree to path and content pairs |
| ProgramLibrary | names for new programs, and the learner's saved program list |

Concurrency is modelled as a state machine whose steps may come in any order; the main
results speak of every run. Where the code does less than one would expect of it, the
condition under which it does what it should is proved exact, for all inputs, and small
lemmas show inputs that fail:

- dropping a handle twice makes two later objects share one (`SlabHeap.DropSafeIff`,
  `SlabHeap.DoubleDropAliases`);
- an event whose payload is spread over two `data:` lines loses the line break, a value
  its outer spaces, and an event that no blank line ends is delivered; section 9.2.6 of
  the WHATWG HTML Standard keeps the break and all spaces but one, and discards the event
  (`EventStream.ReadsAsStandardIff`, `EventStream.LineBreakLost`,
  `EventStream.UnendedEventDelivered`);
- a cancelled build request gives its id back while its build runs on, so two builds can
  share an id (`BuildPermits.CollisionIffOrphan`, `BuildPermits.CancelOrphans`);
- deleting a created file also forgets every file whose path its path begins, so undo and
  rollback are exact only when that does not happen or is repaired; and a save that
  reaches the disk alone leaves a new file there (`PatchApply.UndoRestoresIff`,
  `PatchApply.AlwaysRestoresIff`, `PatchApply.FailureRestoresIff`);
- an inline interaction takes the action slot from whoever has it, and the action taken
  over stays shown (`ShownAction.InlineKeepsShownIff`, `ShownAction.TakenOverStaysShown`);
- two overlapping builds share one log, and the first to end erases it
  (`BuildLog.LogKeptIff`); a build typed into the terminal marks whatever workspace is
  open when it ends (`BuildLog.CommandStaysHomeIff`, `BuildLog.CommandLeavesHome`);
- a kind started again while its start is still in the list leaves a working event behind
  (`Workspace.NeverStaleIff`, `Workspace.DoubleStartStays`);
- an escape sequence cut by the end of a terminal message has its rest shown as text
  (`Workspace.CutIff`, `Workspace.CutSequenceShown`);
- a new crate that names itself, or that the local crate cannot name for a dash, makes the
  loader fail as a cycle does (`CrateLoader.WorldState.LoadDependency`);
- an option's value that is spelled like another option is read as that option
  (`CommandParser.ReadSaidIff`, `CommandParser.ValueReadAsFlag`), and of two arguments
  with one name only the last is kept (`CommandParser.RecordFaithfulIff`);
- a rejected callback stops the in-order executor for good (`Executor.FinishesIff`);
- a random integer reaches every value of its range only when their number is at most 256
  times a power of 256 (`RandomBigInt.AllReachableIff`);
- two leaves that differ only after a dot get one path (`SeahorseTree.InvertibleIff`,
  `SeahorseTree.DotsCollide`).

## Model

| member | source | states |
|---|---|---|
| SlabHeap.RunsSafe | wasm/pkgs/playnet/playnet_bg.js:3-49 | after every run of adds and of takes of live handles there is a free list, acyclic, at indices of at least 36 and ending at the heap length, the live handles hold their objects, and the heap length is 36 plus the peak number of live handles |
| SlabHeap.FreeListUnique | wasm/pkgs/playnet/playnet_bg.js:5-15 | the heap determines its free list |
| SlabHeap.AddKeeps | wasm/pkgs/playnet/playnet_bg.js:42-49 | adding pops the free list or grows the heap by one, and gives an index that was not live |
| SlabHeap.AddBinds | wasm/pkgs/playnet/playnet_bg.js:42-49 | adding binds the new handle and leaves every other live handle with its object |
| SlabHeap.DropKeeps | wasm/pkgs/playnet/playnet_bg.js:11-15 | dropping a live handle puts it at the head of the free list and unbinds it alone |
| SlabHeap.DropSafeIff | wasm/pkgs/playnet/playnet_bg.js:11-15 | some free list describes the heap after a drop exactly when the index is reserved or was live |
| SlabHeap.DoubleDropAliases | wasm/pkgs/playnet/playnet_bg.js:11-15 | a handle dropped twice is given out by the next add and again by the one after |
| SlabHeap.ConstantsExact | wasm/pkgs/playnet/playnet_bg.js:3-5 | the reserved cells: `undefined` 33 times, then null, true and false |
| SlabHeap.Slab.constructor | wasm/pkgs/playnet/playnet_bg.js:3-9 | the initial heap: 36 reserved cells, no handle live |
| SlabHeap.Slab.GetObject | wasm/pkgs/playnet/playnet_bg.js:7 | a live handle gives its object, a reserved index its constant, an index past the end nothing |
| SlabHeap.Slab.AddHeapObject | wasm/pkgs/playnet/playnet_bg.js:42-49 | a fresh handle of at least 36 is bound to the object; the heap grows exactly when no cell is free |
| SlabHeap.Slab.DropObject | wasm/pkgs/playnet/playnet_bg.js:11-15 | the handle alone is unbound; a reserved index changes nothing |
| SlabHeap.Slab.TakeObject | wasm/pkgs/playnet/playnet_bg.js:17-21 | gives the object of the handle and unbinds it alone |
| HandleArray.BindUndone | wasm/pkgs/playnet/playnet_bg.js:220-251 | binding distinct new handles to values and taking those handles away gives the same live handles back |
| HandleArray.PassArrayJsValueToWasm0 | wasm/pkgs/playnet/playnet_bg.js:220-228 | a fresh block holds one pairwise distinct new handle for each value, in order, and memory in use and live handles stay as they were |
| HandleArray.GetArrayJsValueFromWasm0 | wasm/pkgs/playnet/playnet_bg.js:243-251 | the objects of the handles in the block, in order; exactly those handles are unbound |
| HandleArray.PassAndTakeBack | wasm/pkgs/playnet/playnet_bg.js:220-251 | passing an array and taking it back gives the same array and the same live handles |
| StringMarshal.PassStringToWasm0 | wasm/pkgs/playnet/playnet_bg.js:70-106 | for every UTF-16 string and every path through the writer, a fresh block that is large enough starts with exactly its UTF-8 bytes and the vector length is their number; memory in use stays as it was |
| StringMarshal.CopyAscii | wasm/pkgs/playnet/playnet_bg.js:83-91 | the loop copies the longest ASCII prefix and writes only within the block |
| StringMarshal.EncodeRest | wasm/pkgs/playnet/playnet_bg.js:93-103 | growing to `offset + 3 * rest` and encoding the rest keeps the prefix and leaves the bytes of the rest after it |
| StringMarshal.EncodeString | wasm/pkgs/playnet/playnet_bg.js:57-68 | with room enough both encoders write exactly the UTF-8 bytes |
| StringMarshal.GetStringFromWasm0 | wasm/pkgs/playnet/playnet_bg.js:38-40 | a block that encodes scalar values gives their string, and any other block is an error |
| StringMarshal.PassAndReadBack | wasm/pkgs/playnet/playnet_bg.js:38-106 | a string written and read back is a string of the same length that differs only at surrogates without their partner, each of which reads as U+FFFD |
| Utf8.TextRoundTrip | wasm/pkgs/playnet/playnet_bg.js:38-106 | what was written always decodes, and to the same string exactly when every surrogate has its partner |
| Utf8.UnitsRestored | wasm/pkgs/playnet/playnet_bg.js:57-68 | replacing lone surrogates keeps the length, and the string exactly when it has none |
| Utf8.RestoredAt | wasm/pkgs/playnet/playnet_bg.js:57-68 | unit by unit: a surrogate without its partner beside it becomes U+FFFD, and every other unit stays |
| Utf8.RfcExamples | wasm/pkgs/playnet/playnet_bg.js:57-68 | the encoding is that of the examples in section 7 of RFC 3629 |
| Utf8.DecodeEncode | wasm/pkgs/playnet/playnet_bg.js:38-68 | strict decoding undoes encoding |
| Utf8.EncodeDecode | wasm/pkgs/playnet/playnet_bg.js:38-68 | strict decoding accepts nothing but encodings |
| Utf8.AtMostThreeBytesAUnit | wasm/pkgs/playnet/playnet_bg.js:97 | three bytes for each UTF-16 unit always suffice |
| Utf8.ThreeBytesAUnitNeeded | wasm/pkgs/playnet/playnet_bg.js:97 | and fewer do not: for every length some string takes all of them |
| Utf8.AsciiPrefix | wasm/pkgs/playnet/playnet_bg.js:83-98 | the bytes of an ASCII prefix are its units, whatever follows |
| Utf8.EncodeIntoComplete | wasm/pkgs/playnet/playnet_bg.js:57-61 | encoding into a large enough view reads every unit and writes every byte |
| EventStream.ChunkIndependent | client/src/learning/api.ts:161-176 | two splits of one text deliver the same payloads up to the first throw and leave the same pending text and event data |
| EventStream.OneShot | client/src/learning/api.ts:161-176 | feeding chunks one by one is feeding their concatenation at once, from any state |
| EventStream.FeedTwice | client/src/learning/api.ts:163-173 | two chunks fed in turn are as one |
| Text.SplitAppend | client/src/learning/api.ts:163-165 | splitting a text at newlines, keeping the last piece and going on with it, loses and repeats no line |
| Text.JoinSplit | client/src/learning/api.ts:164-165 | the pieces joined with newlines are the text |
| Text.TrimCuts | client/src/learning/api.ts:168-169 | trimming cuts off spaces at both ends, all of them and nothing else |
| EventStream.LinesAreBlocks | client/src/learning/api.ts:166-176 | the line loop delivers the payloads of the blocks between blank lines |
| EventStream.ReadIsBlocks | client/src/learning/api.ts:161-176 | the whole reader is a one-shot parse into blocks |
| EventStream.UnfinishedLineIgnored | client/src/learning/api.ts:163-176 | a last line without a newline has no effect on what is delivered |
| EventStream.PrintRead | client/src/learning/api.ts:125-176 | payloads printed as blocks and read in any chunking come back |
| EventStream.OnePayload | client/src/learning/api.ts:125-176 | one payload after `data: ` is handed over, `[DONE]` is not |
| EventStream.OtherLines | client/src/learning/api.ts:166-173 | a line of spaces and returns ends an event, and a line that is neither blank nor data is passed over |
| EventStream.DeliveredExact | client/src/learning/api.ts:125-176 | what is delivered is every payload that is neither empty nor the end marker, as far as the first that throws |
| EventStream.LineBreakLost | client/src/learning/api.ts:167-168 | two data lines of one event are joined with nothing between |
| EventStream.StdJoinedIff | client/src/learning/api.ts:166-172 | a block gives the data that section 9.2.6 of the WHATWG HTML Standard gives it exactly when it has at most one data line, and that line no space around its value but the one in front, and the return at the end, that the standard drops |
| EventStream.ReadsAsStandardIff | client/src/learning/api.ts:161-176 | a whole stream is delivered as that section has it, values and breaks between them as the standard takes them, exactly when every block read is as above and the last block, unless reading stopped before it, holds no event; which lines are data lines and which are blank is for both as the code has it |
| EventStream.UnendedEventDelivered | client/src/learning/api.ts:176 | an event that no blank line ends is delivered, where the standard discards it |
| EventStream.TutorStream.HandleCurrentEvent | client/src/learning/api.ts:125-159 | an event is handled once, an empty or final one not at all, a throw ends the reading, and a response that an event creates is remembered, the last one alone |
| EventStream.TutorStream.FeedChunk | client/src/learning/api.ts:163-173 | the loop over the lines of a chunk refines the specification of one chunk |
| EventStream.TutorStream.ReadAll | client/src/learning/api.ts:161-177 | the read loop and the last event refine the specification of the stream; without a throw the id handed back is that of the last event that created a response, and none when no event did |
| DepGraph.EdgeKeepsAcyclic | wasm/rust-analyzer/src/world_state.rs:154-167 | an edge keeps a graph acyclic exactly when its target does not reach its source |
| DepGraph.Reachable | wasm/rust-analyzer/src/world_state.rs:154-167 | the search finds exactly what can be reached |
| CrateWorld.LoadKeeps | wasm/rust-analyzer/src/world_state.rs:208-319 | every load keeps: each manifest dependency of a fully loaded crate is an edge or still needed, the edges are only those and the default ones, and names are distinct |
| CrateWorld.RunKeeps | wasm/rust-analyzer/src/world_state.rs:208-319 | so does every run, which leaves fully loaded exactly the crates that were |
| CrateWorld.FinalWorld | wasm/rust-analyzer/src/world_state.rs:208-319 | once every crate of a closed set is fully loaded the edges are exactly the default ones, those of the local crate, and from each crate those to the three libraries and to each name its manifest has, with underscores for its dashes; and nothing is needed |
| CrateWorld.OrderIndependent | wasm/rust-analyzer/src/world_state.rs:208-319 | any two orders of loading end with the same edges |
| CrateWorld.NeverCyclic | wasm/rust-analyzer/src/world_state.rs:208-319 | with acyclic manifests no run, complete or not, ever makes a cycle |
| CrateWorld.AcyclicIff | wasm/rust-analyzer/src/world_state.rs:208-319 | and a run that loads every crate ends with an acyclic graph only when the manifests are acyclic |
| CrateWorld.FitsAdmitted | wasm/rust-analyzer/src/world_state.rs:208-247 | no call of a closed plan is refused for a dash in a name or for a crate that names itself |
| CrateWorld.SnakeIff | wasm/rust-analyzer/src/world_state.rs:277 | the name looked up has the length of the declared one, an underscore where that has a dash, and the same character elsewhere; no other name has |
| CrateWorld.RemoveFirstExact | wasm/rust-analyzer/src/world_state.rs:300-310 | a crate that waits for a name more than once waits once less |
| CrateLoader.Lookups | wasm/rust-analyzer/src/utils.rs:4-25 | the lookups by path find the file and crate numbered as the name, and only them |
| CrateLoader.NumberedMore | wasm/rust-analyzer/src/utils.rs:21-25 | a new name takes the next file id and crate id and keeps names and ids one to one |
| CrateLoader.WorldState.constructor | wasm/rust-analyzer/src/world_state.rs:48-100 | an empty world |
| CrateLoader.WorldState.LoadDefaultCrates | wasm/rust-analyzer/src/world_state.rs:119-178 | the four first crates with the six edges between them, by name |
| CrateLoader.WorldState.AddDep | wasm/rust-analyzer/src/world_state.rs:154-167 | an edge is added unless it closes a cycle |
| CrateLoader.WorldState.AddCrate | wasm/rust-analyzer/src/world_state.rs:226-247 | a crate not known yet gets the next ids and, unless transitive, an edge from the local crate, which a name with a dash makes fail |
| CrateLoader.WorldState.AddManifestDeps | wasm/rust-analyzer/src/world_state.rs:272-297 | a dependency whose underscore spelling has text becomes an edge, any other is returned, in order; a new crate that names itself fails, since its text is not set yet |
| CrateLoader.WorldState.Repair | wasm/rust-analyzer/src/world_state.rs:300-310 | every crate that waited for this one gets its edge and waits for it no more |
| CrateLoader.WorldState.LoadDependency | wasm/rust-analyzer/src/world_state.rs:208-319 | on any state in which file and crate numbers agree, succeeds exactly when the resulting graph is acyclic, a new crate is not among its own dependencies, dashes read as underscores, and a new crate of the local one has no dash in its name; it is then the abstract load, and a declared dependency is an edge and not missing when its underscore spelling has text, and is missing otherwise |
| CrateLoader.WorldState.LoadEach | wasm/rust-analyzer/src/world_state.rs:208-319 | a proper sequence of loads of a closed plan never fails when the manifests are acyclic, fails when it would load every crate and they are not, and is the abstract run when it does not fail |
| SymbolForest.DocumentSymbols | wasm/rust-analyzer/src/world_state.rs:664-695 | the pop loop stays in bounds exactly when parents come first, and then gives the recursive forest |
| SymbolForest.EachOnceBelowItsParent | wasm/rust-analyzer/src/world_state.rs:664-695 | every symbol is in the forest as often as it was listed, below the parent it declared |
| SymbolForest.SiblingsReversed | wasm/rust-analyzer/src/world_state.rs:664-695 | roots and siblings come in reverse order |
| SymbolForest.LeafIff | wasm/rust-analyzer/src/world_state.rs:664-695 | `children` is absent exactly for a symbol that no other names as its parent |
| BuildPermits.RunsSafe | server/src/routes/build.rs:139-178 | in every interleaving free permits and holders add up to the concurrency, an id is set exactly when one permit holds it, and an id is always found |
| BuildPermits.StepKeeps | server/src/routes/build.rs:139-178 | each single step keeps that |
| BuildPermits.IdAlwaysFound | server/src/routes/build.rs:147-155 | whoever has a semaphore permit finds a free id |
| BuildPermits.StepsApart | server/src/routes/build.rs:84-107 | a step of one request touches nothing that another holds or runs, and only spawning starts and only finishing ends a build |
| BuildPermits.ComesBack | server/src/routes/build.rs:88-178 | from every reachable state a cancel-free run gives back every permit and every id, with no build left |
| BuildPermits.GetsIn | server/src/routes/build.rs:139-160 | so every request can still be admitted and get an id |
| BuildPermits.SafeWithoutCancel | server/src/routes/build.rs:84-103 | without cancellation no two builds run with one id |
| BuildPermits.CollisionIffOrphan | server/src/routes/build.rs:84-103 | two builds with one id can still come exactly when some build runs without its permit |
| BuildPermits.CancelOrphans | server/src/routes/build.rs:84-103 | cancelling a request whose build runs brings that about |
| BuildPermits.BuildState.constructor | server/src/routes/build.rs:61-69 | the initial state of the protocol |
| BuildPermits.BuildState.AcquireOwned | server/src/routes/build.rs:139-145 | the acquiring step |
| BuildPermits.BuildState.TakeId | server/src/routes/build.rs:147-159 | the assigning step: the first free id is set, or the request fails and gives its permit back |
| BuildPermits.BuildState.Acquire | server/src/routes/build.rs:139-160 | from any reachable state a request on its own gets an id, and the invariant stays |
| BuildPermits.BuildState.DropPermit | server/src/routes/build.rs:168-179 | the clearing step, of a finished or a cancelled request |
| BuildPermits.BuildState.ReleasePermit | server/src/routes/build.rs:121-129 | the release of the semaphore permit, after the id is cleared |
| BuildPermits.BuildState.AssignSlot | server/src/routes/build.rs:147-157 | sets the first free id, or fails when there is none |
| BuildPermits.BuildState.ClearSlot | server/src/routes/build.rs:168-178 | clears the id alone |
| PatchApply.AppliedMeansWritten | client/src/learning/useTutor.ts:261-279 | a patch reported as applied has its last content at each path, in memory and on disk, and no other path changed |
| PatchApply.AlwaysRestoresIff | client/src/learning/useTutor.ts:254-320 | known before the patch is applied: every failure is rolled back exactly when the patch creates no file, or, in a temporary project, when wherever the saves stop no deletion forgets a file for good |
| PatchApply.FailureRestoresIff | client/src/learning/useTutor.ts:254-320 | a patch that fails at any file in any way leaves the workspace as it was exactly when each deletion of the rollback forgets only files restored after it and every new file on disk is deleted |
| PatchApply.PrefixFreeRestoresIff | client/src/learning/useTutor.ts:254-320 | when no created path begins another path, that is so unless the failing save reached the disk but not the memory |
| PatchApply.UndoRestoresIff | client/src/learning/useTutor.ts:326-337 | undo gives back the original workspace exactly when no path is created twice and every file whose path a created path begins is patched later than it |
| PatchApply.CreateDeleteCleanIff | client/src/utils/explorer/explorer.ts:370-393 | creating a file and deleting it is the identity exactly when its path begins no other |
| PatchApply.UndoForgetsNeighbour | client/src/utils/explorer/explorer.ts:385-393 | undoing a creation forgets an untouched file whose path the new one begins |
| PatchApply.RollbackLeavesCopy | client/src/learning/useTutor.ts:304-320 | rolling back two new files can leave the longer one on disk |
| PatchApply.Explorer.CreateItem | client/src/utils/explorer/explorer.ts:178-246 | the file is saved to disk first and then set in memory, with every way in which this may fail |
| PatchApply.Explorer.DeleteItem | client/src/utils/explorer/explorer.ts:370-393 | the loop removes every path that begins with the given one; a missing file is an error that changes nothing |
| PatchApply.Explorer.ApplyPatch | client/src/learning/useTutor.ts:250-325 | write, read back, compare, and roll back at the first difference, as specified |
| PatchApply.Explorer.Rollback | client/src/learning/useTutor.ts:303-317 | restores in reverse order, passing over what fails |
| PatchApply.Explorer.UndoPatch | client/src/learning/useTutor.ts:327-337 | restores in order; ends at the first deletion of a file that is not on disk, with the files before it undone and the others as they were |
| ActionSlot.SlotAlwaysAgrees | client/src/learning/useProgramActions.ts:241-266 | in every run the slot and the terminal owner are both empty or name the same workspace |
| ActionSlot.StaleFinisherHarmless | client/src/learning/useProgramActions.ts:319-352 | in every run, an action whose slot was taken over does not get it back before it ends, so its finisher changes nothing but its own end |
| ActionSlot.MutualExclusion | client/src/learning/useProgramActions.ts:319-352 | without inline interactions at most one action is in flight, and it has the slot |
| ActionSlot.FlightKeepsWorkspace | client/src/learning/useProgramActions.ts:328-359 | an action keeps the workspace it was started for, and builds no other if it only builds, whatever happens until it ends |
| ActionSlot.BuildStepFrame | client/src/learning/useProgramActions.ts:79-153 | a step of a build changes only the record and files of the workspace it builds, and the build log, which a start opens for the workspace if it is the open one and an end closes; it sets the stage there and puts its event in front, and a successful end sets the IDL |
| ActionSlot.DiagnosticExact | client/src/learning/useProgramActions.ts:127-142 | a failed build shows its trimmed log, and after it the error unless that occurs in the log |
| ActionSlot.BuildStaysHome | client/src/learning/useProgramActions.ts:74-156 | a build that ends after any navigation changes only the record and files of the workspace that started it, and the build log as above |
| ActionSlot.NestedBuildStaysHome | client/src/learning/useProgramActions.ts:158-162 | so does a build inside a deployment, for the workspace active when the build started; its end closes the build log |
| BuildLog.CommandStaysHomeIff | client/src/learning/usePlaygroundEvents.ts:99-123 | from the start of a build typed into the terminal, through any steps until its end, that end leaves the stages of all but the workspace it started in alone exactly when that one is the open one, or the open one has that stage already |
| BuildLog.CommandLeavesHome | client/src/learning/usePlaygroundEvents.ts:99-108 | a run in which such a build marks the wrong workspace as built |
| BuildLog.LogKeptIff | client/src/learning/useProgramActions.ts:79-142 | the one build log stays with the builds in progress exactly when a build that starts finds none in another workspace and one that ends leaves none |
| BuildLog.LogAlwaysKept | client/src/learning/useProgramActions.ts:79-142 | without inline interactions no build ever loses its log, and the log always belongs to the action in the slot |
| BuildLog.LogIsWhatWasPrinted | client/src/learning/usePlaygroundEvents.ts:75-90 | and the log is at every moment the last 300 lines printed since the build started |
| BuildLog.FailedBuildShowsLog | client/src/learning/useProgramActions.ts:127-142 | a failed build shows in its workspace the last 300 lines printed since it started, trimmed, and its error |
| BuildLog.CommandStep | client/src/learning/usePlaygroundEvents.ts:99-123 | the end of a build typed into the terminal sets the stage of the open workspace and adds its event there, unless an action is building, and touches no other |
| Terminal.PrintedExact | client/src/learning/usePlaygroundEvents.ts:75-90 | what is printed goes to the workspace that owns the terminal, or else to the active one, cut to its last 300 lines; all other records stay |
| Terminal.OnlyPrinting | client/src/learning/usePlaygroundEvents.ts:75-90 | nothing else changes terminal lines |
| Terminal.ActionOwnsTerminal | client/src/learning/useProgramActions.ts:319-352 | from the start of an action to its end, under any navigation and without inline interactions, the terminal of its workspace has the last 300 lines of all that was printed, and every other is as it was |
| Terminal.TerminalStaysHome | client/src/learning/usePlaygroundEvents.ts:75-90 | the same from any moment of the action on |
| Terminal.LastNavigated | client/src/learning/useWorkspaceNavigation.ts:158-178 | the active workspace is the one navigated to last |
| ShownAction.ShownKept | client/src/learning/useProgramActions.ts:319-352 | a workspace shows an action exactly when it has the slot, kept by every step but an inline start |
| ShownAction.InlineKeepsShownIff | client/src/learning/useProgramActions.ts:241-252 | an inline start keeps that exactly when the slot was empty or already of its workspace |
| ShownAction.TakenOverStaysShown | client/src/learning/useProgramActions.ts:345-350 | an action taken over is still shown after it has ended |
| ShownAction.InlineGivesBack | client/src/learning/useProgramActions.ts:241-266 | an inline interaction has the slot from its start, its end gives the slot back, and ends it for no other action or workspace |
| ActionHooks.ProgramActions.BeginChainAction | client/src/learning/useProgramActions.ts:319-333 | an action starts exactly when the slot is empty, for the active workspace |
| ActionHooks.ProgramActions.EndChainAction | client/src/learning/useProgramActions.ts:338-350 | the finisher clears the slot only when it is still its own |
| ActionHooks.ProgramActions.SetInlineInteractionRunning | client/src/learning/useProgramActions.ts:241-266 | takes the slot unconditionally; clears it only from an interaction of the same workspace |
| ActionHooks.ProgramActions.BeginBuild | client/src/learning/useProgramActions.ts:74-89 | refused when the workspace is not the open one; otherwise opens the build log and marks the workspace as building |
| ActionHooks.ProgramActions.EndBuild | client/src/learning/useProgramActions.ts:93-153 | the outcome is written to the workspace of the build, a failure with its trimmed log and the error after it unless the log has it |
| ActionHooks.ProgramActions.OnDidFinishBuild | client/src/learning/usePlaygroundEvents.ts:99-123 | a command that has built writes its stage, and unless an action is building its event, to the open workspace |
| ActionHooks.ProgramActions.OnDidPrint | client/src/learning/usePlaygroundEvents.ts:75-90 | output goes to the terminal owner or else to the active workspace, and to the build log of that workspace |
| Workspace.WindowExact | client/src/learning/usePlaygroundEvents.ts:87-89 | after any prints the terminal lines are the last 300 of all cleaned lines, and nothing else changed |
| Workspace.WindowOfWindow | client/src/learning/usePlaygroundEvents.ts:82-89 | a window over a window and more is the window over all |
| Workspace.VisibleNext | client/src/learning/format.ts:24-38 | a character is shown exactly when it is neither an escape nor a return and a letter has come since the last escape |
| Workspace.CleanLinesExact | client/src/learning/format.ts:40 | the lines are the pieces of what is shown between newlines, without the empty ones |
| Workspace.AddKeepsNoStale | client/src/learning/useLearningWorkspace.ts:122-162 | an event added leaves working events only for kinds that are outstanding |
| Workspace.AddEventExact | client/src/learning/useLearningWorkspace.ts:122-162 | a new event comes first; one that is no start takes out the first start of its kind, and nothing else goes but what is beyond eight |
| Workspace.AddNoStaleIff | client/src/learning/useLearningWorkspace.ts:122-162 | a list free of stale starts stays so exactly when the new event is no start, or no start of its kind is still working among the seven events that stay |
| Workspace.NeverStaleIff | client/src/learning/useLearningWorkspace.ts:122-162 | and it is so all through a run exactly when every event of the run is so |
| Workspace.StartsEnd | client/src/learning/useLearningWorkspace.ts:122-162 | with at most one outstanding start of each kind no working event outlives its kind |
| Workspace.DoubleStartStays | client/src/learning/useLearningWorkspace.ts:142-158 | with two starts of one kind the first stays working after the end |
| Workspace.VisibleAppend | client/src/learning/format.ts:24-38 | the escape state carries across any cut inside one message |
| Workspace.CutIff | client/src/learning/usePlaygroundEvents.ts:75-76 | two messages show what their joined text shows exactly when the first does not end inside an escape sequence, or the second is empty or starts, after any returns, with an escape: every message starts outside |
| Workspace.LinesCutIff | client/src/learning/format.ts:24-41 | and then give the same lines exactly when the cut falls between two shown lines |
| Workspace.CutSequenceShown | client/src/learning/usePlaygroundEvents.ts:75-76 | a colour sequence cut in two, whose end is shown |
| Workspace.CleanTerminalOutput | client/src/learning/format.ts:24-41 | the loop gives the non-empty lines of the text outside escape sequences |
| Workspace.ReloadSameIff | client/src/learning/workspace-state.ts:88-180 | a record comes back from storage as it was exactly when it is within its bounds, has no working event and no action |
| Workspace.ReloadExact | client/src/learning/workspace-state.ts:88-166 | of any record a reload keeps the newest 50 messages and 300 lines, of the newest eight events those not in flight, and everything else but the action |
| Workspace.CompactExact | client/src/learning/workspace-state.ts:162-180 | the compact form has the newest 20 messages, no lines and nothing to undo, and all else |
| Workspace.WrongFields | client/src/learning/workspace-state.ts:98-140 | a stored field of another type is read as nothing, and without messages there is no record |
| Workspace.ReloadStable | client/src/learning/workspace-state.ts:88-180 | whatever was stored, in whatever shape, what is read of it is within its bounds and is read again unchanged once saved, in full or compact |
| Workspace.ReloadSettles | client/src/learning/workspace-state.ts:88-180 | saving and reading any record settles after one time |
| Router.ParamsOfPath | client/src/utils/router.ts:190-236 | matching the path made from a template gives back exactly the values put in, exactly when no value holds the character that follows it and the last neither starts nor ends with a slash |
| Router.MatchPathIff | client/src/utils/router.ts:190-236 | the same in the middle of a match, with values found before |
| Router.OneVariableIff | client/src/utils/router.ts:190-236 | the paths that a template ending in its only variable accepts, a proper part of its literal text among them, and the value: all that follows, but for one slash at its end |
| Router.LiteralIff | client/src/utils/router.ts:190-194 | a template without variables accepts its own text, with or without a slash at the end, and nothing else |
| Router.ShortOfSecond | client/src/utils/router.ts:190-236 | a path that ends before the text between two variables leaves the second one empty |
| Router.UnclosedBrace | client/src/utils/router.ts:206-210 | an open brace that is not closed is an error |
| Router.MatchHead | client/src/utils/router.ts:192-230 | each step uses up some of the template, so the recursion ends |
| CommandParser.CreateArgs | client/src/commands/create.ts:57-75 | accepts exactly the definitions with required arguments first and several values only at the end |
| CommandParser.CreateOptions | client/src/commands/create.ts:86-117 | accepts exactly the options whose short forms are single letters and differ between names, and writes the letters out |
| CommandParser.ShortsAcceptedIff | client/src/commands/create.ts:86-117 | accepted are options whose short forms are one letter, different for different names |
| CommandParser.Forms | client/src/utils/command.ts:495-498 | an option is spelled by its long form and by its letter, and one without a letter by `-undefined` |
| CommandParser.SpelledByTwo | client/src/commands/create.ts:86-117 | two accepted options are spelled by one token only when neither has a short form |
| CommandParser.CollectTokens | client/src/utils/command.ts:485-513 | the loop with its switch for the next value is the recursive sorting |
| CommandParser.CollectShuffles | client/src/utils/command.ts:485-513 | the tokens are a shuffle of arguments and option tokens: none is lost, repeated or reordered |
| CommandParser.CollectSorts | client/src/utils/command.ts:499-512 | with options declared no argument is dashed, and every flag is |
| CommandParser.AcceptedFits | client/src/utils/command.ts:514-536 | what is accepted is no more than the definitions take, and no subcommand was meant |
| CommandParser.ParseArguments | client/src/utils/command.ts:538-577 | the loop over the definitions refines the recursive parse, with every error |
| CommandParser.ParseAcceptsIff | client/src/utils/command.ts:544-568 | the arguments are accepted exactly when each definition is given something or optional, and the first token outside its values, if there is one, is empty |
| CommandParser.AcceptsIff | client/src/utils/command.ts:550-568 | with the error for a missing argument and for a value that is not allowed |
| CommandParser.RecordExact | client/src/utils/command.ts:538-577 | the record has, under each name, the input of the last definition of that name that is given one, as a list when that takes several |
| CommandParser.RecordFaithfulIff | client/src/utils/command.ts:538-577 | the record has for every definition what it was given exactly when definitions of one name are given the same |
| CommandParser.ArgumentsConserved | client/src/utils/command.ts:538-577 | joining the parsed values in definition order then gives exactly the collected tokens, exactly when no token taken singly is empty; and the definitions with a value are a prefix |
| CommandParser.ParseOptions | client/src/utils/command.ts:579-612 | the loop over the options refines the recursive parse, with every error |
| CommandParser.OptionsAcceptedIff | client/src/utils/command.ts:595-606 | the options are accepted exactly when each that takes a value is followed by one that it allows |
| CommandParser.ReadSaidIff | client/src/utils/command.ts:585-601 | an option is read as the command line says it, with the token after its first flag, exactly when the first token that spells it is that flag or has the same after it |
| CommandParser.OptionsAsSaid | client/src/utils/command.ts:579-612 | then the record holds under every name what the line says of the last option of that name, and the line is refused exactly when it says something impossible |
| CommandParser.RecordAsSaidIff | client/src/utils/command.ts:579-612 | with distinct option names the record of an accepted line is what the line says of every option exactly when each is read so |
| CommandParser.SwitchReadIff | client/src/utils/command.ts:585-594 | a switch is read as said exactly when it is among the flags or no value spells it |
| CommandParser.ValueReadAsFlag | client/src/utils/command.ts:585-594 | a line on which the value of one option turns another on |
| Executor.Lossless | client/src/utils/common.ts:169-192 | in every interleaving without rejection, done, running and queued are the pushed arguments in order, at most one runs, and when nothing executes all is done |
| Executor.RunKeeps | client/src/utils/common.ts:169-192 | with rejections too, nothing is lost, repeated or reordered |
| Executor.Drains | client/src/utils/common.ts:175-186 | what is left gets done in as many fulfilments as there are callbacks left |
| Executor.StuckForever | client/src/utils/common.ts:175-186 | after a rejection every push only grows the queue |
| Executor.FinishesIff | client/src/utils/common.ts:169-192 | what was pushed can still all get done exactly when no callback was rejected |
| Executor.Queue.Push | client/src/utils/common.ts:188-191 | queues, and starts the loop when it is not executing |
| Executor.Queue.Fulfilled | client/src/utils/common.ts:180-185 | the loop goes on with the next argument or stops |
| Executor.Queue.Rejected | client/src/utils/common.ts:175-186 | the exception leaves the flag set |
| RandomBigInt.GenerateRandomBigInt | client/src/utils/common.ts:780-794 | the reduction is the sum of the draws at their byte places, and the minimum |
| RandomBigInt.RandomIntRange | client/src/utils/common.ts:769-771 | a draw for a byte stays within it, with the rounding of doubles to nearest |
| RandomBigInt.RandomIntReaches | client/src/utils/common.ts:769-771 | and reaches every integer up to it, with the same rounding |
| RandomBigInt.ReachableIff | client/src/utils/common.ts:780-794 | a value comes out for some draws exactly when its distance from the minimum has no byte over that of the width |
| RandomBigInt.InRange | client/src/utils/common.ts:780-794 | every value is in the range |
| RandomBigInt.EndsReachable | client/src/utils/common.ts:780-794 | the minimum always comes out; the maximum exactly when the width fits in 64 bits |
| RandomBigInt.AllReachableIff | client/src/utils/common.ts:780-794 | every value of the range comes out exactly when their number is at most 256 times a power of 256 |
| SeahorseTree.OnePairALeaf | wasm/seahorse-compile/src/lib.rs:34-48 | the output is one pair of path and content for each leaf, in the order of the walk, for every tree |
| SeahorseTree.InvertibleIff | wasm/seahorse-compile/src/lib.rs:34-48 | the paths differ exactly when no two leaves of a node have one stem, and then looking up the path of a leaf gives its content |
| SeahorseTree.DotlessDistinct | wasm/seahorse-compile/src/lib.rs:34-48 | names without dots meet that condition |
| SeahorseTree.ExtensionOfPlain | wasm/seahorse-compile/src/lib.rs:37-38 | the extension replaces what follows the last dot of the last name |
| SeahorseTree.ExtensionPast | wasm/seahorse-compile/src/lib.rs:37-38 | separators at the end of a path, and a dot after one, are passed over |
| SeahorseTree.JoinAbsolute | wasm/seahorse-compile/src/lib.rs:42-45 | an absolute name replaces the path it is joined to |
| SeahorseTree.DotsCollide | wasm/seahorse-compile/src/lib.rs:37-38 | two leaves that differ after the dot get one path, and the second is not found |
| ProgramLibrary.FreshIndex | client/src/learning/useWorkspaceNavigation.ts:402-405 | the loop ends within one try more than there are names, with the smallest unused index |
| ProgramLibrary.NumberedInjective | client/src/learning/useWorkspaceNavigation.ts:404-405 | different indices give different names |
| ProgramLibrary.ReadCustomPrograms | client/src/learning/library-state.ts:57-90 | the reduction with its set of seen names is the recursive load |
| ProgramLibrary.Identifiers | client/src/learning/library-state.ts:75-78 | a program name is kept when it is letters, digits and underscores and starts with no digit |
| ProgramLibrary.LoadsFirst | client/src/learning/library-state.ts:65-85 | an entry is loaded exactly when it is the first acceptable one of its name |
| ProgramLibrary.ReloadSameIff | client/src/learning/library-state.ts:57-98 | what was written loads as it was exactly when names are distinct and fields well formed |
| ProgramLibrary.RenameExact | client/src/learning/library-state.ts:100-111 | a rename leaves the list as it was but for the entry of the new name, which goes, and the entry of the old one, which has the new name in its place |
| ProgramLibrary.StartExact | client/src/learning/useWorkspaceNavigation.ts:410-419 | a new program comes last, after all entries of other names in their order |
| ProgramLibrary.InitializeExact | client/src/learning/useWorkspaceNavigation.ts:95-110 | at first the entries with a workspace stay, in their order, and a custom program that was open and is not listed comes after them |
| ProgramLibrary.OthersStay | client/src/learning/useLearningLibrary.ts:90-168 | dropping takes the named entries alone, and a program name goes to the entry of its workspace alone |
| ProgramLibrary.RunReloads | client/src/learning/useWorkspaceNavigation.ts:95-110 | from whatever was saved and after any changes no name is twice in the list, and saving and loading gives the same list |
| ProgramLibrary.Library.constructor | client/src/learning/useLearningLibrary.ts:62-63 | the list starts as it was saved |
| ProgramLibrary.Library.StartNewProgram | client/src/learning/useWorkspaceNavigation.ts:393-419 | the new program has the smallest unused number in its name and is last in the list, after all entries of other names in their order: the whole old list when the name was not in it |
| ProgramLibrary.Library.SyncWorkspace | client/src/learning/useWorkspaceNavigation.ts:158-173 | a custom program whose workspace is gone is renamed to the one switched to |

## Left out

- React components, styles, panels, dialogs and icons: they hold no invariant beyond the state modelled here.
- Storage, network, file system and subprocesses: their results are parameters (`Outcome`, `BuildResult`, the saved items), and every result is allowed.
- `malloc` and `realloc` of the wasm side: assumed to give blocks apart from those in use, and to keep the prefix of a grown one.
- The 2^32 limit of array lengths and handles: a precondition of the two methods on arrays of handles, and otherwise not modelled.
- `TextDecoder` in stream mode and JSON: the stream model starts from decoded text, and what an event does is a function that may throw.
- EventStream.ReadsAsStandardIff: compares values, their joining and the ending of blocks; which lines are data lines (none without a colon) and blank ones (those of spaces too), and that a return inside a line ends none, is the code's on both sides.
- rust-analyzer itself, crate metadata, editions and procedural macros: the crate graph is its edges and its refusal of cycles, and a manifest is its list of dependencies.
- A manifest that names its own crate, and a stub loaded again after the full crate, which forgets what was needed: `CrateLoader.WorldState.LoadDependency` says what they do, the runs of `CrateWorld` exclude them.
- `load_local_files`: it asks for the next file id several times without recording the first, so its ids are not claimed to differ; states with a second local file, in which file and crate numbers part, are outside `Valid` of `CrateLoader.WorldState`.
- CrateLoader.WorldState.LoadDependency: says nothing of the state that a refused load leaves, since the code panics there; so does CrateLoader.WorldState.LoadEach.
- The order in which `needed_deps` is walked: a sorted map in the code; every order gives the same edges here.
- A poisoned id mutex: no code that holds it can panic.
- Fairness of the build semaphore: which waiter goes first plays no part in what is proved.
- PatchApply.Explorer.DeleteItem: keeps files only, so the guard of the `src` folder, which is no file of a patch, and the entry put back for the parent folder are not in it; nor are tabs and name checks.
- Restores that fail during a rollback: the original error is reported and the workspace is then left as the failures leave it.
- PatchApply.FailureRestoresIff: its condition is over where the saves stopped; PatchApply.AlwaysRestoresIff gives the one a caller can check before.
- PatchApply.PrefixFreeRestoresIff: is stated for created paths that begin no other path and names the one failure that leaves something behind.
- Deploying and interacting with a program, teaching stages and tutor messages: they use the action slot as any action does.
- Navigation is allowed at any time, though the interface holds it back during deployments: what is proved covers more runs than can happen.
- Links, times and ids of events: they are carried and never compared; a diagnostic is the text of its event.
- Stored events and messages of the wrong shape inside a list: one that makes the reader throw loses all records, which is its catch.
- The `parse` callbacks of arguments and options, and values given by functions: a value set, or none, stands for them.
- CommandParser.CollectShuffles: is stated for commands that declare arguments; without them plain tokens are dropped by design.
- CommandParser.ArgumentsConserved: requires that definitions of one name are given the same, the exact condition of CommandParser.RecordFaithfulIff; distinct names meet it.
- CommandParser.OptionsAsSaid: is one way; of options of one name only the last is recorded, so one read wrong need not show. CommandParser.RecordAsSaidIff is exact for distinct names, CommandParser.ReadSaidIff for each option.
- Dispatch of subcommands and help texts: they print, or call what is modelled.
- Draws outside a byte in `generateRandomInt`: only byte draws reach the big integer.
- ProgramLibrary.RunReloads: workspace names given to a rename are taken not to be blank; a blank one would not be loaded again.
- Creation times in the program list: integers stand for numbers.
- The tutor's program catalog, bank, runtime and command line tables: enumerations or code not in this repository.
