# A verified model of the theorem knowledge base

The repository keeps a knowledge base of mathematical statements as an event log. A librarian
process projects the log into a graph of nodes joined by `DependsOn` edges; every node carries a
Merkle `statement_hash`, a `verification_hash` over it and its proof, a `pass_count`, a
`repair_count` and a `repair_hint`. A coordinator forwards new event files to the librarian over a
pipe and dispatches generator and verifier jobs from the projected state. This project models that
core in Dafny and proves what it promises over every input, every run and every reachable state.

Run `dafny verify dfyconfig.toml` in this directory.

## Modules

- `Graphs`, `Search`, `Labels`, `Texts`, `TextLaws`: reachability, breadth-first search, label order, the string
  operations and what they mean.
- `Hashing`, `Store`, `Hints`: kinds, hashes, rows, the two text formats kept inside a row.
- `MerkleCascade`, `CascadeReset`, `CascadeWalk`: one run of the cascade: what it changes, in which order,
  when it is enough, and its turns computed from the graph alone.
- `Projection` (the step of each event as a function), `Backend` and `ProjectorImpl` (the mutable classes
  proved against it), `Kahn`, `BatchGraphs`, `Rebuild`.
- `Decisions`: when the projector accepts each event and why it refuses one, from the event's own fields
  and the rows and edges there are.
- `Invariants`, `EdgeHashes`, `History`, `RowHistory`, `Provenance`, `HintSections`, `HintRuns`: what holds in every reachable state.
- `Coherence`, `CurrentEdges`, `LogCoherence`: which events, and which logs, keep every stored hash current.
- `Protocol`, `Progress`, `TornWipe`: forwarding and rebuilding as a state machine over two queues, a durable store,
  the owner of the supervise lock and crashes, down to the single deletes of a wipe.
- `Dispatcher`, `Scheduler`, `Convergence`: pools, selection, pre-dispatch checks, progress.
- `SafeOrder`, `Decoder`, `CycleFinder`, `Audit`, `Footprint`, `Rendering`, `Daemon`: the parts that must agree with the projector.
- `SectionVerification`, `VerdictScan`, `Jsonl`: the independent cores.
- `FailingLogs`: concrete inputs for the points below.

## Conventions

- SHA-256 over canonical JSON is a free constructor of its fields, so equal hashes mean equal fields.
  The sorted dependency list inside a statement hash is a map: it has one entry per label.
- `Event.admissible` stands for everything checked before projection: the file is readable, the
  envelope is valid, the producer is registered. The `detail` texts and `applied_at` are dropped.
- Queries come back in label order. A transaction keeps the committed state in `saved`.
- A string is a sequence of Unicode scalar values. Slugs match `^[a-z0-9_]+$`, whose `$` also
  accepts one final newline, as the regular expression of the source does.
- The log of `Replay` continues after a corrupt event, which changes nothing; `Rebuild` stops there,
  as the source does by raising.
- `wipe` commits each of its deletes alone, so a crash leaves a partial store, as the documents say.
  `TornWipeExact` tells when that store is no replay of any log: after the first delete if there was
  an edge, after the second if an event had been applied (`TornWipeLog`). Only the rebuild flag makes
  this harmless: `RunSafe` says that the store is a replayed prefix whenever the flag is down.

## Where the code is weaker than its documentation

- The cascade visits each dependent once. A node visited before one of its changed dependencies
  keeps a stale hash, although the documents describe full propagation. `StaleHashLog` is a log of
  three definitions and one revision that ends so, `DiamondStaysStale` the triangle behind it;
  `RevisedCoherence` and `BatchCoherence` give the exact condition, read off the graph before the
  call, and `LogCoherent` the one for a whole log. Reset completeness (`CascadeResets`) does not
  need it: it holds for every dependent that reaches the changed node through nodes whose edges are
  current, and so for all of them as long as every edge is current (`LogCurrent`).
- Node assembly hashes a missing dependency as the empty string while the cascade reads existing
  edges only, so a dangling reference breaks coherence (`AddedCoherence`, exactly; `DanglingLog`).
- The linter takes an event for a change of a node even when it was refused, does not see cascades,
  and skips verdicts in the same millisecond. `PassAuditExact`, `BlankAuditExact` and `RepairAuditExact`
  say exactly when that shows; `PassAlarmLog`, `BlankAlarmLog` and `RepairAlarmLog` are logs where it does.
- A user hint with a divider line inside need not survive the next refusal as a whole
  (`RefusalKeepsHint` says exactly when it does; `CutHint` is one that does not).
- A refusal with a blank hint drops the previous verifier section (`BlankRefusal`). `NonBlankKept`
  says exactly when the latest section that said something is still there.
- The docstring of the reconcile pass says that files without a known prefix are deleted. The code leaves
  them alone, except temporary files; `NodesDir.Reconcile` follows the code.

## Model

| member | source | states |
|---|---|---|
| `Search.BfsPath` | common/kb/kuzu_backend.py:569-598 | terminates; a reported path is a walk from start to target, and none is reported exactly when the target cannot be reached |
| `Graphs.RewireAcyclic` | common/kb/kuzu_backend.py:509-548 | replacing a node's edges keeps an acyclic graph acyclic exactly when the node is not among its new dependencies and none of them reaches it |
| `Backend.KuzuBackend.WouldIntroduceCycle` | common/kb/kuzu_backend.py:509-548 | reports no cycle exactly when the rewritten graph stays acyclic; a reported path is a closed walk through the new edges that starts at the node |
| `Backend.KuzuBackend.SetDependencies` | common/kb/kuzu_backend.py:472-485 | the node's edges become exactly its references that name a node; all other edges stay |
| `Backend.KuzuBackend.CreateNode` | common/kb/kuzu_backend.py:399-419 | adds the row and its resolvable edges, nothing else |
| `Backend.KuzuBackend.UpdateNode` | common/kb/kuzu_backend.py:421-441 | replaces the row and its edges, nothing else |
| `Backend.KuzuBackend.Rollback` | common/kb/kuzu_backend.py:557-558 | restores rows, edges and applied events of the last commit |
| `Backend.KuzuBackend.Wipe` | common/kb/kuzu_backend.py:561-566 | leaves the empty store, through exactly the five durable states that its four single commits pass |
| `ProjectorImpl.Projector.Apply` | librarian/projector.py:94-184 | one call takes the store exactly to the specified next state, with the specified outcome, commits it, and keeps the store valid; a refused event only leaves its record |
| `ProjectorImpl.Projector.ApplyNodeAdded` | librarian/projector.py:206-260 | realises the specified decision, whose cycle refusal means precisely that the resulting graph would have a cycle |
| `ProjectorImpl.Projector.ApplyNodeRevised` | librarian/projector.py:263-348 | the same for a revision, including the kept verdict traces and the cascade |
| `ProjectorImpl.Projector.ApplyHintAttached` | librarian/projector.py:351-395 | the same for a user hint |
| `ProjectorImpl.Projector.ApplyGeneratorBatch` | librarian/projector.py:398-559 | the same for a batch: label conflicts, the cycle tests before and after staging, the written rows and edges, the target's cascade |
| `ProjectorImpl.Projector.ApplyVerifierRun` | librarian/projector.py:562-609 | the same for a verdict |
| `Decisions.RecordExact` | librarian/projector.py:94-184 | an event is decided once; its record holds its file hash, its subject and its refusal; a refused event leaves rows and edges alone; corruption leaves everything alone |
| `Decisions.LabelExact` | librarian/projector.py:771-783 | a label is accepted for a kind exactly when it spells that kind's prefix, a colon and a slug and is no placeholder |
| `Decisions.AddedExact` | librarian/projector.py:206-260 | the exact cause of each refusal and of acceptance; the only cycle an added node can close is through itself |
| `Decisions.RevisedExact` | librarian/projector.py:263-348 | the exact cause of each refusal and of acceptance of a revision; a cycle means a reference to the node itself or to one that depends on it |
| `Decisions.HintExact` | librarian/projector.py:351-395 | a user hint is refused exactly when it is blank, its node is missing or its node has a pass |
| `Decisions.BatchExact` | librarian/projector.py:398-559 | the exact cause of each refusal and of acceptance of a batch, from its entries, the rows and the edges |
| `Decisions.VerdictExact` | librarian/projector.py:562-587 | a verdict is refused exactly when it is malformed, its node is missing or its text is no longer the current one |
| `Decisions.VerdictLeaves` | librarian/projector.py:588-609 | what an applied verdict leaves in each field of its row, and that it touches no other row and no edge |
| `ProjectorImpl.Projector.CascadeStatementChange` | librarian/projector.py:721-765 | the loop over frontier and seen computes the specified cascade |
| `ProjectorImpl.Projector.AssembleNode` | librarian/projector.py:631-675 | the new row carries the hash over the current hashes of its references, a missing or self reference as the empty string |
| `ProjectorImpl.Projector.StageBatch` | librarian/projector.py:442-473 | from any dependencies-first order, every member gets the hash over the staged or stored hashes of what it cites |
| `ProjectorImpl.Projector.BatchClosesCycle` | librarian/projector.py:498-521 | the node-by-node check says yes exactly when the graph after the batch has a cycle |
| `ProjectorImpl.Projector.WriteBatch` | librarian/projector.py:523-552 | row by row writing ends in the batch's rows and edges, whatever the dependencies-first order |
| `TextLaws.RefsExact` | librarian/projector.py:816-828 | the labels read out of a statement and a proof are exactly the names cited in either, without the white space around them |
| `Kahn.LayeredOrder` | librarian/projector.py:835-874 | gives a duplicate-free dependencies-first order of all members exactly when the batch's own references are acyclic |
| `Kahn.TopologicalMeansAcyclic` | librarian/projector.py:835-874 | a graph whose vertices all stand behind their dependencies has no cycle |
| `Projection.StagingUnique` | librarian/projector.py:442-473 | an acyclic batch has one staging only: hashes do not depend on the order of hashing |
| `BatchGraphs.WrittenCycles` | librarian/projector.py:498-521 | the graph that is checked, with dangling references, has cycles exactly when the graph that is written has |
| `Invariants.ApplyKeepsValid` | librarian/projector.py:94-184 | every event keeps the store valid: acyclic edges between existing nodes, cited by their source, labels fitting kinds, each verification hash over the row's own hash and proof, bounded counters |
| `Invariants.ReplayValid` | librarian/rebuild.py:64-71 | after any log the store is valid, hence acyclic |
| `MerkleCascade.CascadeShape` | librarian/projector.py:721-765 | each label gets at most one turn, a changed row is reset, every dependent of a changed node gets its turn, nothing else moves |
| `MerkleCascade.CascadeSettles` | librarian/projector.py:721-765 | a visited node ends with the hash over its dependencies' hashes at its turn |
| `MerkleCascade.CascadeCoherence` | librarian/projector.py:721-765 | from any store, all hashes are current after the cascade exactly when the nodes without a turn were current and no label had its turn before a dependency that changed |
| `CascadeReset.CascadeResets` | librarian/projector.py:721-765 | in any store: a pre-existing node that depends on the changed one through nodes with current edges gets a new hash, its initial count, no repairs, no hint, no report; one that does not depend on it stays; no row changes in any other way. With all edges current, dangling references or not, every transitive dependent is reset |
| `MerkleCascade.CascadeCurrent` | librarian/projector.py:721-765 | the same for the weaker property that the hash behind every edge is current |
| `CascadeWalk.CascadeTurns` | librarian/projector.py:721-765 | which labels get a turn, in which order, and which of them change is a walk of the graph from the start node, in which a label passes the change on if its stored hash cannot become current or it cites a label that has moved |
| `CascadeReset.PopsDepsFirstFromGraph` | librarian/projector.py:723-729 | after a statement change, whether turns come dependencies-first can be read off the graph alone |
| `CascadeReset.LevelledTurnsDepsFirst` | librarian/projector.py:723-729 | when all dependency paths from the revised node to a node have equal length, turns come dependencies-first |
| `Coherence.AddedCoherence` | librarian/projector.py:206-260 | adding a node keeps coherence exactly when every label it cites has a node |
| `Coherence.RevisedCoherence` | librarian/projector.py:263-348 | the exact condition under which a revision keeps coherence |
| `Coherence.DiamondStaysStale` | librarian/projector.py:721-765 | whatever the texts, on a triangle of three nodes a revision leaves a stale hash behind |
| `Coherence.RevisedResets` | librarian/projector.py:263-348 | in any valid store, an accepted revision that moves the statement hash resets every node that depends on the target through nodes with current edges, leaves the nodes outside the cone alone, and resets or leaves the rest; with all edges current it resets every transitive dependent |
| `Coherence.BatchCoherence` | librarian/projector.py:398-559 | the exact condition under which a batch keeps coherence, from the graph and the references before the call: which members must cite existing labels, and that no label moves in a turn before a dependency |
| `Coherence.BatchResets` | librarian/projector.py:523-559 | the same for an accepted batch that moves its target's statement hash, for the nodes and dependencies from before |
| `Coherence.BatchTurnsTaken` | librarian/projector.py:523-559 | the cascade of a batch takes exactly the turns computed from the store before, the batch's references and its unresolved members |
| `CurrentEdges.AddedCurrent` | librarian/projector.py:206-260 | adding a node keeps every edge current, dangling references included |
| `CurrentEdges.RevisedCurrent` | librarian/projector.py:263-348 | a revision keeps every edge current exactly when its turns fit |
| `CurrentEdges.BatchCurrent` | librarian/projector.py:398-559 | the same for a batch |
| `LogCoherence.LogCurrent` | librarian/rebuild.py:64-71 | every state along a log has current edges exactly when the turns of each applied event fit |
| `LogCoherence.LogCoherent` | librarian/rebuild.py:64-71 | every state along a log is coherent exactly when the turns and the references of each applied event fit |
| `FailingLogs.StaleHashLog` | librarian/projector.py:721-765 | a literal log of three definitions and one revision, all applied, whose replay holds a stale hash |
| `FailingLogs.DanglingLog` | librarian/projector.py:229-239 | a literal log of one add whose replay is not coherent |
| `Rebuild.RebuildFromEvents` | librarian/rebuild.py:49-75 | whatever the store held, it ends as the replay of the events in key order; the trail holds each event's outcome and stops at corruption |
| `Rebuild.RebuildOrderFree` | librarian/rebuild.py:64-71 | the result does not depend on the order in which the event files are found |
| `Rebuild.KeyOrderExact` | librarian/rebuild.py:43-46 | keys compare at the first of iso_ms, sequence and uid in which they differ |
| `Rebuild.KeyOrderIsSorted` | librarian/rebuild.py:43-46 | a log in key order is what sorting its files gives, in whatever order they are found |
| `Protocol.StepKeeps` | coordinator/main.py:348-377 | every step of coordinator, unreadable event files included, of pipe, librarian and `rethlas rebuild`, with crashes between any two commits, keeps the protocol invariant |
| `Protocol.PhaseBuilds` | librarian/daemon.py:334-373 | each durable step of a rebuild or replay, the single deletes of the wipe among them, keeps its phase: what is deleted stays deleted, what is played is a prefix of the log |
| `Protocol.RunSafe` | librarian/daemon.py:283-373 | over all runs with timeouts, stale and duplicate replies, crashes, torn wipes and external rebuilds: while the rebuild flag is down the durable store is the replay of a prefix of the key-ordered log, and every acked event lies in it or corruption is flagged; while it is up no librarian serves and nothing is acked |
| `Progress.NeverStuck` | coordinator/main.py:348-377 | from every state of every run, with crashes, torn wipes and lost replies behind it, the system can go on to a state where every file is in the store and acked, as long as none is corrupt |
| `Protocol.AllAckedMeansRebuilt` | librarian/rebuild.py:64-71 | once everything is acked without corruption and no rebuild is under way, the store is what a rebuild makes of the event files, in whatever order it finds them |
| `EdgeHashes.ReplayReadable` | librarian/projector.py:631-675 | after any log a node has an edge to a label exactly when its statement hash carries a hash for it that is not the empty string |
| `TornWipe.TornWipeExact` | common/kb/kuzu_backend.py:561-566 | what a crash after n deletes of a wipe leaves behind is the replay of some log exactly unless n is 1 and there was an edge, or n is 2 and an event had been applied |
| `FailingLogs.TornWipeLog` | common/kb/kuzu_backend.py:561-566 | a literal log of two adds after which a crash behind the first delete, and one behind the second, leave no replay |
| `Protocol.ReapplyIsIdle` | librarian/projector.py:128-150 | applying an event of the prefix again changes nothing and repeats its recorded outcome |
| `Protocol.ApplyWithinPrefix` | librarian/daemon.py:438-482 | an APPLY that is at most one ahead of the store moves it along the log by that one event or not at all |
| `History.EventEffect` | librarian/projector.py:206-559 | an add, revision or batch keeps each node's counters and hint with the hashes they belong to, or starts them anew |
| `History.PassHistory` | librarian/projector.py:580-608 | in every reachable state `pass_count` is the fold, from the initial count, of the verdicts applied since its last restart, and all of them carried the current verification hash |
| `History.RepairHistory` | librarian/projector.py:600-608 | in every reachable state `repair_count` is the number of refusals applied since the statement hash last moved |
| `History.ReportHistory` | librarian/projector.py:588-609 | in every reachable state the report is that of the last verdict applied since the verification hash last moved, whatever it said, and empty if there is none |
| `RowHistory.TextHistory` | librarian/projector.py:206-559 | in every reachable state a node shows the kind, statement, proof, remark and source note of the last applied event that wrote it |
| `RowHistory.EdgeHistory` | common/kb/kuzu_backend.py:472-485 | in every reachable state a node has an edge to a label exactly when the last applied event that wrote it cites the label and the label had a node once that event was applied |
| `RowHistory.ReplayCommitted` | librarian/projector.py:631-675 | in every reachable state a statement hash is one of the node's own label, kind and statement, and carries under each label only a hash of that label |
| `Provenance.PassProvenance` | librarian/projector.py:580-608 | in every reachable state `pass_count` is at most the number of applied accepted verdicts on that label that carried exactly its current verification hash |
| `HintSections.HintAsWritten` | librarian/projector.py:377-394 | a user hint is appended behind a divider line, under its own header line, without its trailing white space |
| `HintSections.SplitJoin` | librarian/projector.py:794-813 | splitting at divider lines undoes joining with them exactly when no block holds a divider line, also not together with the line break after it |
| `HintSections.SectionsSurvive` | librarian/projector.py:377-394 | after any run of tame messages the field splits into what the latest refusal said and every user hint in order, and the prompt extracts exactly those user hints |
| `HintSections.StoredSections` | generator/prompt.py:158-169 | the same for the stored hint of any node in any reachable state, for the messages since its verification hash last moved |
| `HintSections.HintHistory` | librarian/projector.py:377-394 | the stored hint is what the messages since the last clear have built, across revisions, batches and cascades |
| `HintSections.RuleLineCutsHint` | librarian/projector.py:794-813 | a user hint with a divider line inside loses everything after it at the next refusal |
| `HintSections.HintsSplitExactly` | librarian/projector.py:377-394 | user hints alone come back out of the field, one piece each, exactly when none of them has a divider line |
| `HintSections.RefusalKeepsHint` | librarian/projector.py:794-813 | a refusal keeps a user hint whole exactly when every piece its divider lines cut off is taken for a user section and has no white space before the divider |
| `HintRuns.RunIntact` | librarian/projector.py:377-394 | for any run of hints and verdicts, every field along it splits into its sections and shows the prompt exactly the user hints, exactly when every message is written as one section of its author |
| `HintRuns.NonBlankKept` | librarian/projector.py:794-813 | after a tame run the latest verifier section that said something is still in the field exactly when there was none or no refusal with a blank hint has come since |
| `HintRuns.StoredNonBlank` | librarian/projector.py:600-608 | the same for the stored hint of any node in any reachable state |
| `FailingLogs.BlankRefusal` | librarian/projector.py:794-813 | a refusal with a blank hint empties a field that held a verifier section |
| `FailingLogs.CutHint` | librarian/projector.py:794-813 | a literal hint whose second half is gone after any refusal |
| `Dispatcher.SelectGeneratorTargets` | coordinator/dispatcher.py:39-58 | the first free labels in label order, up to capacity |
| `Dispatcher.SelectVerifierTargets` | coordinator/dispatcher.py:61-86 | the first free labels by count, then label, up to capacity |
| `Scheduler.NoDeadlock` | coordinator/main.py:802-816 | in every valid store with an unfinished node a generator or verifier candidate exists, or a definition or external theorem sits at -1 |
| `Scheduler.PoolsExact` | coordinator/main.py:802-816 | the pools hold exactly the provable nodes at -1 whose dependencies all have a pass, and the nodes below the goal whose dependencies all have a pass and more passes than they |
| `Scheduler.PrecheckGeneratorExact` | coordinator/precheck.py:83-135 | the exact cause of each refusal of a generator job; in a valid store the checks on the rejected hash never fire |
| `Scheduler.PrecheckVerifierExact` | coordinator/precheck.py:138-181 | the same for a verifier job |
| `Scheduler.DispatchGenerators` | coordinator/main.py:856-867 | the pre-dispatch check never refuses a selected label |
| `Scheduler.DispatchVerifiers` | coordinator/main.py:869-879 | the same for verifiers |
| `Scheduler.Tick` | coordinator/main.py:755-879 | each pool sends out its first free labels in queue order up to capacity, none twice or while in flight, and only nodes whose dependencies are verified; whoever is passed over comes later in label order, or has more passes; a pool with a free worker sends nothing exactly when all of it is in flight; nothing in flight and nothing sent means that all is finished or an axiom waits for its user |
| `Scheduler.NeedsUserIsTrue` | coordinator/main.py:543-577 | with both pools empty, "remaining work needs user action" is reported exactly when every unfinished node is a rejected axiom |
| `Scheduler.IdleExact` | coordinator/main.py:543-577 | what each idle reason says about the store |
| `Convergence.RunKeeps` | coordinator/main.py:809-832 | along every interleaving of dispatch and acceptance no node overtakes a dependency, and each verdict reduces the missing verdicts by one |
| `Convergence.AcceptOnlyConverges` | coordinator/precheck.py:78-80 | a run that can go no further has finished every node, after exactly the sum of the verdicts missing at its start |
| `SafeOrder.SafeTopologicalOrder` | generator/decoder.py:483-527 | a permutation of the batch: a dependencies-first, least-label-first part that holds exactly what is not on or above a cycle, then the rest in insertion order |
| `SafeOrder.StuckMeansCycle` | generator/decoder.py:483-527 | what never becomes ready is exactly what is on or above a cycle |
| `Decoder.DedupeIdenticalBlocks` | generator/decoder.py:422-452 | keeps the first of identical blocks, in order; labels come out distinct exactly when no label had two different bodies |
| `Decoder.CheckBlocks` | generator/decoder.py:200-212 | each structural error is reported for the first block that goes wrong, and for its own cause |
| `Decoder.DecodeAndStage` | generator/decoder.py:186-304 | what a staged batch holds, its order and its hashes; each error means its own cause; in repair mode the target's hash has moved |
| `Decoder.BlockIsStaged` | generator/decoder.py:243-286 | each block is hashed over its own label, kind and statement and, for each label it cites, the member's new hash, what the decoder sees of an outside label, or empty |
| `Decoder.DecoderAgrees` | generator/decoder.py:243-298 | decoder and projector sort an acyclic batch differently and still give every member the same hash, exactly when they read the same hashes for what the batch cites outside itself |
| `Decoder.RepairMovesTarget` | generator/decoder.py:289-298 | an applied repair batch moves its target away from the rejected verification hash |
| `CycleFinder.FindCycle` | linter/checks.py:279-320 | reports no cycle exactly when the graph of known nodes is acyclic; a reported path is a closed dependency walk |
| `CycleFinder.Step` | linter/checks.py:284-313 | each step keeps gray nodes equal to the stack, parents linking it, and finished nodes behind their dependencies |
| `Audit.AuditPassCount` | linter/checks.py:431-459 | the backward scan is the fold of the projector's verdict step from 0, except for blank proofs and unknown last verdicts |
| `Audit.CheckPassCount` | linter/checks.py:384-428 | reports exactly the labels whose audit differs from the stored count |
| `Audit.CheckRepairCount` | linter/checks.py:462-497 | the same for repair counts |
| `Audit.FactsAreRuns` | linter/checks.py:346-381 | in key order, what the linter collects for a label are the applied verdicts from a later millisecond than every event that names a change of it |
| `Audit.PassAuditExact` | linter/checks.py:384-428 | for every key-ordered log and node without a blank proof, check C is silent exactly when no disputed verdict matters |
| `Audit.BlankAuditExact` | linter/checks.py:431-435 | the exact condition for a node with a blank proof |
| `Audit.NoFalseAlarm` | linter/checks.py:384-428 | check C is silent when every event naming a change of the node was applied and wrote it, nothing restarted its count later, and no verdict followed within the same millisecond |
| `Audit.RepairAuditExact` | linter/checks.py:462-497 | check D is silent exactly when no refusal lies between the start of the linter's count and the last move of the statement hash |
| `Audit.WritesBehindBoundary` | linter/checks.py:341-381 | no verdict from before an event that really wrote the node is ever counted |
| `Audit.PassAuditSilent` | linter/checks.py:384-428 | check C is silent on a proof that is not blank when the last event with a text for the node is also the last that restarted its count and no verdict followed in its millisecond |
| `Audit.RepairAuditSilent` | linter/checks.py:462-497 | check D is silent when the last event with a text for the node is also the last that moved its statement hash and no refusal followed in its millisecond |
| `FailingLogs.PassAlarmLog` | linter/checks.py:384-428 | a literal log, ending with a refused add, on which check C raises a false alarm |
| `FailingLogs.BlankAlarmLog` | linter/checks.py:431-435 | a literal log with a blank proof on which check C raises a false alarm |
| `FailingLogs.RepairAlarmLog` | linter/checks.py:462-497 | a literal log on which check D raises a false alarm |
| `Audit.CheckCycle` | linter/checks.py:262-276 | category B's cycle check finds nothing in any reachable state |
| `Footprint.FootprintOf` | librarian/daemon.py:484-532 | outside the cone of the labels an applied event names, no node's row or edges change |
| `Rendering.FilenameInjective` | librarian/renderer.py:108-131 | different labels have different node files |
| `Rendering.NodesDir.Cone` | librarian/daemon.py:503-511 | the walk collects exactly the named labels and everything that depends on them |
| `Rendering.NodesDir.RenderForEvent` | librarian/daemon.py:484-532 | if `nodes/` mirrored the store before an applied event, it mirrors it afterwards; foreign files keep their content |
| `Rendering.NodesDir.Reconcile` | librarian/daemon.py:375-418 | whatever `nodes/` held, it mirrors the store afterwards; temporary files are gone, other foreign files keep their content |
| `Rendering.NodeFilesCertify` | librarian/renderer.py:44-105 | in a directory that mirrors a reachable store, every file with a known prefix belongs to a node with a pass, and its own hashes certify its label, kind, statement, proof and dependencies; every node with a pass has one |
| `Daemon.Librarian.ApplyPath` | librarian/daemon.py:438-482 | one event takes the store its projected step and `nodes/` mirrors it again, whatever the outcome |
| `SectionVerification.SchedulerView` | agents/generation/scripts/verification_aggregation.py:202-224 | for blocks in any order, the provisional set is the least set closed under its rule and the wrong set is exactly the wrong blocks |
| `SectionVerification.ViewExact` | agents/generation/scripts/verification_aggregation.py:202-224 | read off the blocks: which are wrong, and that the provisional ones are exactly those verified as correct, not accepted and not wrong, that rest on accepted or provisional blocks |
| `SectionVerification.StatusExact` | agents/generation/scripts/verification_aggregation.py:226-247 | what each scheduler status says about the block and its dependencies |
| `SectionVerification.LeastClosedUnique` | agents/generation/scripts/verification_aggregation.py:202-224 | that set is unique, so the order does not matter |
| `SectionVerification.SomethingToDo` | agents/generation/scripts/verification_aggregation.py:226-247 | with acyclic citations, while something is unfinished some block with finished dependencies is wrong or ready |
| `SectionVerification.DependencyClosure` | agents/generation/scripts/verify_sections.py:314-325 | exactly what the block depends on, directly or not |
| `SectionVerification.ComputeInvalidated` | agents/generation/scripts/verify_sections.py:797-807 | exactly the failed blocks and everything that rests on one |
| `SectionVerification.SessionSets` | agents/generation/scripts/verify_sections.py:809-832 | the session's provisional set is least closed over the correct blocks that are not invalidated |
| `SectionVerification.Library.MaybePromote` | agents/generation/scripts/verify_sections.py:626-652 | promotes exactly when the streak suffices and the dependencies are in the library; records the dependencies' keys |
| `SectionVerification.Library.ReconcilePromotions` | agents/generation/scripts/verify_sections.py:654-667 | terminates in the least key set closed under promotion; old entries stay, new entries cite keys that are in the library |
| `SectionVerification.LibraryRests` | agents/generation/scripts/verify_sections.py:654-667 | when blocks state different things, everything a library statement rests on is in the library too |
| `VerdictScan.MatchingBrace` | verifier/decoder.py:127-158 | computes the scanner's closing position |
| `VerdictScan.ObjectCloses` | verifier/decoder.py:127-158 | for every object text of RFC 8259, wherever it stands, the position found is its closing brace |
| `VerdictScan.FindLastVerdictBlob` | verifier/decoder.py:91-124 | returns the last verdict the sweep comes to, None exactly when it comes to none |
| `VerdictScan.EmbeddedFound` | verifier/decoder.py:91-124 | an embedded verdict object is returned whenever no earlier blob that parses reaches its start and no verdict follows it |
| `Jsonl.DecodeClipped` | common/runtime/jsonl.py:26-34 | decoding a byte prefix keeps exactly the characters that fit whole |
| `Jsonl.CutKeepsLongest` | common/runtime/jsonl.py:26-34 | a cut text is the longest whole-character prefix for which the suffix still fits |
| `Jsonl.TruncationFits` | common/runtime/jsonl.py:26-34 | the result fits the cap and a text that fits is left alone |
| `Jsonl.CostGrows` | common/runtime/jsonl.py:56-72 | a larger cap never gives a shorter serialised detail, whatever has to be escaped |
| `Jsonl.LineReads` | common/runtime/jsonl.py:37-41 | a written line decodes to its text with a JSON string that reads back as the detail, whatever had to be escaped |
| `Jsonl.JsonlFile.LongestThatFits` | common/runtime/jsonl.py:56-72 | the binary search ends with the longest truncation whose line fits, if one fits |
| `Jsonl.JsonlFile.Append` | common/runtime/jsonl.py:44-84 | writes one line of at most 2048 bytes with the longest detail that fits, or refuses; a record with a string detail is refused exactly when it is too long with an empty one |

## Left out

- Kuzu and Cypher, the file system, fsync, locks, sockets, threads, subprocesses, signals: only map and edge-set semantics, atomic commit, the holder of the supervise lock and FIFO channels with timeouts and crashes are modelled.
- Canonical JSON bytes, Unicode normalisation, YAML: hashes and rendered documents are records of their fields.
- Section texts of a rendered file: a document records the four stripped sections; their Markdown layout is not modelled.
- Rejection details, `applied_at`, heartbeats and counters of the daemon: no decision depends on them.
- Librarian and coordinator processes: the forwarding protocol is a state machine over values; the watcher's seen set and the pipe buffer are fields of its state and not objects of their own.
- Librarian readiness: the coordinator may forward at any time, even during a rebuild, because the ready heartbeat it waits for may be stale.
- The librarian's REBUILD command: the coordinator never sends it.
- A supervise run or a `rethlas rebuild` that starts while the librarian of an ended run is still alive: a second librarian stops at `librarian.lock`; deleting the files under an open database is not modelled.
- The startup replay's rendering: the directory is reconciled afterwards from any contents, so only the projection part of the replay is modelled.
- The `--skip-theorem-library-writes` mode: there the promotion loop makes no progress on a promotable block; writes are taken as enabled.
- Verification cache bookkeeping besides the streak and the statement key of an entry.
- Checks A, E and F of the linter, and the clauses of check B other than the cycle: they restate invariants proved here or inspect files.
- Block extraction from worker output, kind and field parsing of blocks, `_validate_verdict`: checks of single fields.
- Lone surrogates: `str.encode` raises on them, and a Dafny character cannot be one.
- Dashboard, liveness labels, outcome windows, BM25 search, PDF and summary scripts, Codex runner, prompts other than the user sections.
- Decoder.DecodeAndStage: self-references and cyclic batches are staged as the source does; agreement with the projector is stated for acyclic batches, the only ones it applies.
- Texts.RefsOf: the reference pattern is scanned as a given function of the text; backtracking of a regular expression engine is not modelled.
- VerdictScan.FindLastVerdictBlob: the JSON parser is a parameter that says whether a blob parses and has the two verdict keys.
