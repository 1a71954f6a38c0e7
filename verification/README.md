# RIB-to-FIB updates, consumer retransmission and two small cores

This project models, in Dafny, the parts of the simulator whose correctness is hard to see
from reading one function, and proves what they promise.

**RIB and FIB.** A RIB is a tree of name prefixes; each entry holds routes (face, origin, cost,
child-inherit, capture). The FIB is specified as a pure function of the RIB (`FibSpec.NextHop`): an
entry's cheapest own route on a face, or else, without capture, the cheapest child-inherit route of the
nearest ancestor that has one, the walk up ending after the first ancestor with capture. The daemon never
recomputes this. `FibUpdater.dfy` models how it derives updates from one RIB change, with the two lists
and the record list as mutable fields; every method is proved against a closed form per (name, face) pair
(`FibDeltas.dfy`). `FibAgreement.dfy` (new names, new routes, erased routes) and `FibReplaced.dfy` (routes
registered again) then prove, for all trees, exactly when applying the delta equals recomputing the FIB, and
`FibRecords.dfy` exactly when the inherited-route lists are right again. `FibCommit.dfy` models the
asynchronous two-phase commit as a transition system over all response orders, `FibTimeouts.dfy` what timeouts do
to it and which responses let it succeed; `RibStore.dfy` models the
table with its parent and child links, and the log of records that is applied to it. `RibSystem.dfy` proves
what a whole update does to RIB, records and FIB and exactly when everything is consistent again;
`RibDaemon.dfy` carries updates out, through the callbacks of the commit: registrations of new and known
routes, unregistrations, destroyed faces, and sequences of them from an empty RIB. `RibHistory.dfy` reads what
such a sequence leaves in RIB and FIB off the updates alone. `FibExamples.dfy` has a
RIB for every fault that the agreement theorems name, and for the records; all of them are in order before the
update, but for the one that shows what a stale record does.

**Consumer.** `Rtt.dfy` models the estimator, `RttCorrelation.dfy` says what its timeout by correlativity is in
terms of the history records, `Consumer.dfy` the retransmission machine as a transition
system with its trace, `ConsumerRuns.dfy` what holds over whole runs of it, `ConsumerEvents.dfy` what every event
of a run does in terms of the trace so far, `ConsumerClass.dfy` the event
handlers over the mutable containers.

**Small cores.** `Segments.dfy`: segmentation and reassembly. `Network.dfy`: address ranges.

## What the proofs brought to light

Where code and documentation disagree the model follows the code. Each point has its exact condition as a
lemma and a concrete input.

- `getAncestorRoutes` keeps the first child-inherit route listed on a face, while adding a route spreads the
  cheapest: `FibAgreement.NewEntryAgreement`, `FibExamples.FirstIsNotCheapest`.
- An entry that gets its own route on a face it inherits keeps the record of the inherited one, although the
  record list is described as what the entry has inherited in the FIB. When the ancestor's route goes, the
  entry's own next hop is removed: `FibRecords.NewRouteRecords`, `FibExamples.OwnRouteLeavesRecord`,
  `FibExamples.StaleRecordRemovesOwnNextHop`.
- A face that an entry inherits already is recorded a second time when a nearer name hands it down too, but a
  removal takes one record away. When the face is later withdrawn, a record stays behind:
  `FibRecords.NewEntryRecords`, `FibRecords.NewRouteRecords`, `FibRecords.UnregisterRecords`,
  `FibExamples.RecordedTwice`, `FibExamples.SecondRecordStays`, `FibExamples.ErasedRecordStays`.
- Turning capture on can withdraw a face that the entry itself hands down: `FibAgreement.NewRouteAgreement`,
  `FibExamples.OwnFaceWithdrawn`.
- Unregistering can leave ancestors' faces on an erased name, or override a face the entry still hands down.
  With several routes on the face, erasing any but the cheapest can take the entry's next hop along, hand the
  erased route down once more, drop a face that is still handed down, or record an ancestor's route beside an
  own one: `FibAgreement.UnregisterAgreement`, `FibRecords.UnregisterRecords`,
  `FibExamples.AncestorFaceLeftBehind`, `FibExamples.OwnFaceOverridden`,
  `FibExamples.DearerTakesCheaperAlong`, `FibExamples.HandedDownFaceDropped`, `FibExamples.RecordBesideOwnRoute`,
  `FibExamples.ReopenedAtWrongCost`.
- Registering a route again can go wrong by its flags: setting capture withdraws the route that the entry hands
  down from the entry's own subtree, and clearing child-inherit or capture lets the ancestors' routes through
  although the entry captures: `FibReplaced.ReplacedAgreement`, `FibReplaced.ReplacedRecords`,
  `FibExamples.CaptureWithdrawsOwnRoute`, `FibExamples.LetThroughCapture`, `FibExamples.ReopenedUnderCapture`.
- Registering a route again with a higher cost can install the cheapest route that is handed down in place of
  the cheapest, follow a null pointer when none is handed down, or leave the subtree at the old cost:
  `FibReplaced.ReplacedAgreement`, `FibUpdaters.FibUpdater.CreateFibUpdatesForUpdatedRoute`,
  `FibExamples.RaisedCost`, `FibExamples.SubtreeNotTold`.
- Replacing a route's flags in place does not maintain the capture counter, which can wrap:
  `RibEntries.CounterKeptByReplace`, `RibEntries.CounterWraps`.
- A timed-out REMOVE is retried as an ADD, although an update is documented to be retried:
  `FibCommit.CommitContent`, `FibCommit.RemoveTimeoutInstalls`.
- `onFailure` is called once for every update of the batch face that is answered with a missing face, so more
  than once for a batch with two of them: `FibCommit.FailureCount`, `FibCommit.FailureOnce`,
  `FibCommit.FailureMayRepeat`.
- A consumer's record that is purged by age while its Interest is outstanding is never created again. If the
  number then times out before its last attempt it is stranded, neither sent again nor given up, until Data
  for it arrives: `ConsumerRuns.NoRecordForever`, `ConsumerRuns.TimeoutStrands`,
  `ConsumerRuns.StrandedForever`, `ConsumerRuns.StrandingRun`.

## Assumptions

- A batch holds exactly one update, as the daemon asserts (`ndnSIM/NFD/rib/rib.cpp:390-391`).
- The FIB manager executes a command no later than it answers it; a timed-out command may or may not have
  been executed by then.
- Counters and costs are unbounded, except that the capture counter wraps below zero at 64 bits. Sequence
  numbers do not wrap. Times are reals, in seconds.
- 0 < minRto <= maxRto, MaxMultiplier >= 1, gains strictly between 0 and 1. Name correlations are
  non-negative and the temporal weight is positive; they are parameters.
- The estimator's erasing loop over old records is modelled by its intent, a filter on age
  (`ndnSIM/utils/ndn-rtt-estimator.cpp:306-313`).
- The pointer to the second-cheapest route, which the source takes into a local copy, is read as intended
  (`ndnSIM/NFD/rib/rib-entry.cpp:204-218`); which of equally cheap routes it is, is arbitrary.
- The order in which a set of routes or the descendants of a name are visited is arbitrary.

## Model

| member | source | states |
|---|---|---|
| RibEntries.Cheapest | ndnSIM/NFD/rib/rib-entry.cpp:179-198 | finds a matching route exactly when there is one, and no matching route is cheaper |
| RibEntries.LowestCostRoute | ndnSIM/NFD/rib/rib-entry.cpp:222-243 | the scan loop returns a cheapest matching route, or nothing exactly when no route matches |
| RibEntries.SecondLowestCostRoute | ndnSIM/NFD/rib/rib-entry.cpp:201-219 | nothing exactly when fewer than two routes use the face; otherwise a route that exactly one other precedes in some order by cost |
| RibEntries.HasChildInheritOnFaceId | ndnSIM/NFD/rib/rib-entry.cpp:167-176 | true exactly when a child-inherit route on the face exists |
| RibEntries.CounterKept | ndnSIM/NFD/rib/rib-entry.cpp:50-66 | inserting and erasing keep the capture counter equal to the number of capturing routes |
| RibEntries.EraseUndoesInsert | ndnSIM/NFD/rib/rib-entry.cpp:114-129 | erasing a route that was just inserted gives back the entry, counter included |
| RibEntries.CounterKeptByReplace | ndnSIM/NFD/rib/rib.cpp:102-118 | replacing a route in place keeps the counter exact if and only if the capture flag does not change |
| RibEntries.CounterWraps | ndnSIM/NFD/rib/rib.cpp:102-118 | a concrete history after which an entry without routes reports capture, its counter having wrapped |
| RibTrees.Parent | ndnSIM/NFD/rib/rib.cpp:200-211 | the longest proper prefix present, or nothing when no proper prefix is present |
| RibTrees.FindParent | ndnSIM/NFD/rib/rib.cpp:200-211 | the loop from the longest prefix down computes that parent |
| RibTrees.GetAncestorRoutes | ndnSIM/NFD/rib/rib.cpp:290-311 | the walk along stored parent links reports, per face, the first-listed child-inherit route of the nearest ancestor that has one with no capture in between, and nothing else |
| RibTrees.InsertInheritable | ndnSIM/NFD/rib/rib.cpp:296-302 | faces already collected are kept; a new face gets the first child-inherit route in list order |
| RibTrees.FindDescendantsForNonInsertedName | ndnSIM/NFD/rib/rib.cpp:236-247 | exactly the entries that have the name as a prefix, each once |
| RibTrees.FindFutureChildren | ndnSIM/NFD/rib/fib-updater.cpp:128-143 | comparing stored parents selects exactly the entries that will be directly below the new name |
| RibTrees.SameParentMeansDirectlyBelow | ndnSIM/NFD/rib/fib-updater.cpp:135-142 | why that comparison is right: same parent if and only if nothing lies in between |
| RibStore.Rib.Insert | ndnSIM/NFD/rib/rib.cpp:84-156 | a new, added or replaced route leaves the parent and child links exact for the longest-prefix tree and every other entry's content unchanged |
| RibStore.Rib.AdoptDescendants | ndnSIM/NFD/rib/rib.cpp:137-148 | exactly the descendants that shared the new entry's parent move below it |
| RibStore.Rib.Erase | ndnSIM/NFD/rib/rib.cpp:159-184 | the found route is gone; an entry left without routes is gone too; links stay exact |
| RibStore.Rib.EraseEntry | ndnSIM/NFD/rib/rib.cpp:250-287 | the children move up to the parent of the erased entry and the links are exact again |
| RibStore.ParentWithName | ndnSIM/NFD/rib/rib.cpp:137-148 | how the parent of every name changes when one name is added to the table |
| RibStore.Rib.ModifyInheritedRoutes | ndnSIM/NFD/rib/rib.cpp:452-471 | the table is the old one with the log applied record by record, in order; keys, links, own routes and captures are untouched |
| RibStore.ApplyLogCounts | ndnSIM/NFD/rib/rib.cpp:452-471 | the number of records per entry and face grows by a covered log's registrations minus its removals |
| RibStore.FitsMeansCovered | ndnSIM/NFD/rib/rib.cpp:452-471 | a log can be applied record by record, each record finding its entry and each removal a record at its turn, if and only if no pair needs more records than the table holds at the start |
| RibStore.EraseFirstAt | ndnSIM/NFD/rib/rib-entry.cpp:137-143 | removing an inherited route takes away the first record on its face and leaves the others in their order |
| FibSpec.LocalChange | ndnSIM/NFD/rib/rib.hpp:179-193 | a change of one entry reaches exactly the entries below it with no capture or child-inherit on the face in between; all others inherit as before |
| FibUpdaters.FibUpdater.AddFibUpdate | ndnSIM/NFD/rib/fib-updater.cpp:313-334 | at most one update per name and face, the latest one; the two lists stay split exactly by batch face |
| FibUpdaters.FibUpdater.TraverseSubTree | ndnSIM/NFD/rib/fib-updater.cpp:647-695 | closed form of the subtree walk: per entry and face an add, a remove or nothing, decided by the path down to the entry, its own routes and its recorded inheritance |
| FibUpdaters.FibUpdater.ModifyChildren | ndnSIM/NFD/rib/fib-updater.cpp:637-645 | the same closed form for everything below a name, whether or not the name is an entry |
| FibUpdaters.FibUpdater.CreateFibUpdatesForNewRibEntry | ndnSIM/NFD/rib/fib-updater.cpp:376-421 | what all four flag combinations leave pending, per name and face |
| FibUpdaters.FibUpdater.CreateFibUpdatesForNewRoute | ndnSIM/NFD/rib/fib-updater.cpp:423-460 | what a new route on an entry leaves pending, including the cheapest-route choice and capture being turned on |
| FibUpdaters.FibUpdater.CreateFibUpdatesForUpdatedRoute | ndnSIM/NFD/rib/fib-updater.cpp:462-559 | what a changed cost, child-inherit flag or capture flag leaves pending per name and face; breaks off exactly when the cost passes a cheaper route of the face and none is handed down |
| FibUpdaters.FibUpdater.CreateFibUpdatesForErasedRoute | ndnSIM/NFD/rib/fib-updater.cpp:561-627 | what an erased route leaves pending in each flag case |
| FibUpdaters.FibUpdater.CreateFibUpdatesForErasedRibEntry | ndnSIM/NFD/rib/fib-updater.cpp:629-635 | a removal for every recorded inherited face of the entry |
| FibUpdaters.FibUpdater.ComputeUpdatesForRegistration | ndnSIM/NFD/rib/fib-updater.cpp:94-146 | dispatch on new name, new route or known route, and choice of the new name's children; together the pending state of every pair, or the exact inputs on which the source follows a null pointer |
| FibUpdaters.FibUpdater.ComputeUpdatesForUnregistration | ndnSIM/NFD/rib/fib-updater.cpp:148-188 | nothing pending for an unknown route; otherwise erased route, then the second-cheapest route of the face, then erased entry |
| FibUpdaters.FibUpdater.ComputeUpdates | ndnSIM/NFD/rib/fib-updater.cpp:68-92 | registration, unregistration, and for a destroyed face the unregistration without the batch-face updates |
| FibUpdaters.SomeChildAbove | ndnSIM/NFD/rib/fib-updater.cpp:637-645 | below every entry some child of the traversed name leads to it, so the walk misses none |
| FibAgreement.NewEntryAgreement | ndnSIM/NFD/rib/fib-updater.cpp:376-421 | registering a route under a new name gives the FIB recomputed from scratch on every name and face if and only if the route captures or every other inherited face is reported at its lowest cost |
| FibAgreement.NewRouteAgreement | ndnSIM/NFD/rib/fib-updater.cpp:423-460 | adding a route to an entry gives the recomputed FIB if and only if no descendant has a face withdrawn that it inherits from the entry; always, when capture is not turned on |
| FibAgreement.UnregisterAgreement | ndnSIM/NFD/rib/fib-updater.cpp:148-188 | unregistering a route, alone or not on its face, gives the FIB recomputed from scratch if and only if no pair is left behind, outbid, mispriced, overridden, handed back or dropped |
| FibAgreement.NewEntryKeyCorrect | ndnSIM/NFD/rib/fib-updater.cpp:376-421 | the same for one name and face, for every tree |
| FibAgreement.NewRouteKeyCorrect | ndnSIM/NFD/rib/fib-updater.cpp:423-460 | the same for one name and face, as an equivalence |
| FibAgreement.UnregisterKeyCorrect | ndnSIM/NFD/rib/fib-updater.cpp:561-635 | the same for one name and face, as an equivalence |
| FibAgreement.SecondMeaning | ndnSIM/NFD/rib/rib-entry.cpp:200-219 | what the second-cheapest query says about the routes that remain: one exists exactly if the face keeps a route, and the new lowest cost |
| FibReplaced.ReplacedAgreement | ndnSIM/NFD/rib/fib-updater.cpp:462-559 | registering a route again with another cost or other flags gives the FIB recomputed from scratch if and only if no pair is given a dearer route, reopened, shut, let through or not told |
| FibReplaced.ReplacedKeyCorrect | ndnSIM/NFD/rib/fib-updater.cpp:462-559 | the same for one name and face, as an equivalence |
| FibReplaced.ReplacedRecords | ndnSIM/NFD/rib/fib-updater.cpp:462-559 | after that the inherited-route lists are right if and only if nothing is recorded through a capture and a face is lost wrongly exactly where it was recorded twice; every pending removal finds a record at its turn |
| FibRecords.NewEntryRecords | ndnSIM/NFD/rib/fib-updater.cpp:647-695 | after a new name the inherited-route lists again record exactly the inherited faces if and only if no face is withdrawn from an entry that recorded it more than once |
| FibRecords.NewRouteRecords | ndnSIM/NFD/rib/fib-updater.cpp:423-460 | after a new route they do if and only if the entry did not inherit the route's face, and a face is withdrawn wrongly exactly where it was recorded more than once |
| FibRecords.UnregisterRecords | ndnSIM/NFD/rib/fib-updater.cpp:561-635 | after an unregistration they do if and only if nothing is left behind, recorded beside an own route or recorded without a source, and a face is dropped wrongly exactly where it was recorded more than once |
| FibExamples.FirstIsNotCheapest | ndnSIM/NFD/rib/rib.cpp:296-302 | concrete RIB: the dearer of two child-inherit routes is installed because it is listed first |
| FibExamples.AncestorFaceLeftBehind | ndnSIM/NFD/rib/fib-updater.cpp:598-611 | concrete RIB: unregistering a last capturing route installs an ancestor's face on the erased name |
| FibExamples.OwnFaceOverridden | ndnSIM/NFD/rib/fib-updater.cpp:585-597 | concrete RIB: a face the entry keeps handing down is overridden by the root's route |
| FibExamples.OwnFaceWithdrawn | ndnSIM/NFD/rib/fib-updater.cpp:441-450 | concrete RIB: turning capture on withdraws a face the entry itself hands down |
| FibExamples.StaleRecordRemovesOwnNextHop | ndnSIM/NFD/rib/fib-updater.cpp:667-672 | concrete RIB: a record left behind by an own route makes a later removal delete the entry's own next hop |
| FibExamples.OwnRouteLeavesRecord | ndnSIM/NFD/rib/fib-updater.cpp:423-460 | concrete RIB in order: the own route that leaves this record behind |
| FibExamples.RecordedTwice | ndnSIM/NFD/rib/fib-updater.cpp:685-689 | concrete RIB: a new name makes an entry record the face it inherits a second time |
| FibExamples.SecondRecordStays | ndnSIM/NFD/rib/fib-updater.cpp:666-671 | concrete RIB in order: capture takes away one of two records |
| FibExamples.ErasedRecordStays | ndnSIM/NFD/rib/fib-updater.cpp:666-671 | concrete RIB in order: an unregistration takes away one of two records |
| FibExamples.DearerTakesCheaperAlong | ndnSIM/NFD/rib/fib-updater.cpp:167-180 | concrete RIB in order: erasing the dearer of two routes removes the face of the cheaper one and hands the erased one down |
| FibExamples.HandedDownFaceDropped | ndnSIM/NFD/rib/fib-updater.cpp:585-597 | concrete RIB in order: a face still handed down is dropped from the subtree |
| FibExamples.RecordBesideOwnRoute | ndnSIM/NFD/rib/fib-updater.cpp:613-626 | concrete RIB in order: the root's cost replaces the entry's own, and its route is recorded as inherited |
| FibExamples.ReopenedAtWrongCost | ndnSIM/NFD/rib/fib-updater.cpp:598-611 | concrete RIB in order: an entry that stops capturing is given an ancestor's face, but not at the lowest cost |
| FibExamples.SubtreeNotTold | ndnSIM/NFD/rib/fib-updater.cpp:490-503 | concrete RIB in order: the subtree keeps the old cost of a route that is no longer the cheapest |
| FibExamples.RaisedCost | ndnSIM/NFD/rib/fib-updater.cpp:483-488 | concrete RIB in order: a raised cost installs the dearer route, or follows a null pointer |
| FibExamples.CaptureWithdrawsOwnRoute | ndnSIM/NFD/rib/fib-updater.cpp:540-549 | concrete RIB in order: capture set on a route withdraws it from its own subtree |
| FibExamples.LetThroughCapture | ndnSIM/NFD/rib/fib-updater.cpp:515-538 | concrete RIB in order: child-inherit cleared on a capturing route gives the subtree the ancestor's route |
| FibExamples.ReopenedUnderCapture | ndnSIM/NFD/rib/fib-updater.cpp:549-558 | concrete RIB in order: capture cleared on one of two capturing routes gives entry and subtree the ancestor's route |
| FibCommit.CommitSafety | ndnSIM/NFD/rib/fib-updater.cpp:210-282 | in every interleaving: onSuccess at most once and only with both lists empty, never together with onFailure; nothing is sent for another face before the batch face is acknowledged; no update is sent more than 11 times |
| FibCommit.CommitTermination | ndnSIM/NFD/rib/fib-updater.cpp:284-311 | every run answers at most 11 commands per update, and with nothing left in flight it has succeeded, failed or thrown |
| FibTimeouts.TimeoutBudget | ndnSIM/NFD/rib/fib-updater.cpp:284-311 | in every run no update times out more than eleven times, and the sender throws if and only if one timed out eleven times or a command was refused; until then every command in flight carries the number of its timeouts |
| FibTimeouts.TimeoutOutcome | ndnSIM/NFD/rib/fib-updater.cpp:292-293 | after any run, a timeout puts the command in flight again as an ADD as long as its update timed out at most ten times; the eleventh timeout throws |
| FibTimeouts.CommitSucceeds | ndnSIM/NFD/rib/fib-updater.cpp:210-311 | every run in which all commands are answered, no face is missing, none is refused and no update times out more than ten times calls onSuccess once and onFailure never |
| FibTimeouts.AllDoneSucceeds | ndnSIM/NFD/rib/fib-updater.cpp:210-282 | with one acknowledgement per update, or more, the commit succeeds and retries nothing |
| FibCommit.ShapeDecreases | ndnSIM/NFD/rib/fib-updater.cpp:284-311 | the explicit measure: every response uses up an attempt |
| FibCommit.CommitContent | ndnSIM/NFD/rib/fib-updater.cpp:263-311 | at onSuccess, for every pair whose face was not reported missing, the FIB holds what the sequential application of the lists gives if and only if no REMOVE of the pair ever timed out |
| FibCommit.RespondStructure | ndnSIM/NFD/rib/fib-updater.cpp:263-311 | the invariant kept by every response: which updates are in flight in which phase |
| FibCommit.RemoveTimeoutInstalls | ndnSIM/NFD/rib/fib-updater.cpp:292-293 | a REMOVE that times out once is installed by its retry |
| FibCommit.FailureCount | ndnSIM/NFD/rib/fib-updater.cpp:295-298 | in every interleaving onFailure is called exactly once per batch-face update answered with a missing face, so at most once per update |
| FibCommit.FailureContent | ndnSIM/NFD/rib/fib-updater.cpp:284-311 | once onFailure has been called the FIB holds for all other faces, and for pairs without an update, what it held before |
| FibCommit.FailureOnce | ndnSIM/NFD/rib/fib-updater.cpp:295-298 | onFailure is called at most once whatever the responses if and only if the batch face has at most one update |
| FibCommit.FailureMayRepeat | ndnSIM/NFD/rib/fib-updater.cpp:295-298 | with two or more updates of the batch face there are responses on which onFailure is called twice |
| FibCommit.FibSender.Receive | ndnSIM/NFD/rib/fib-updater.cpp:263-311 | the callbacks change lists, outbox and outcome exactly as the transition system does |
| FibCommit.FibSender.SendAll | ndnSIM/NFD/rib/fib-updater.cpp:190-208 | every update of the list is sent once, in order, with no timeouts so far |
| FibCommit.FibSender.OnError | ndnSIM/NFD/rib/fib-updater.cpp:284-311 | each of the first ten timeouts is sent again, counted; a missing face fails for the batch face and counts as done for others; anything else throws |
| RibDaemon.RegisterRoute | ndnSIM/NFD/rib/rib.cpp:394-435 | new name, new route or known route: what is sent is exactly what the registration leaves pending, committed under any responses; a failure leaves the RIB and the FIB of other faces alone; with success exactly the route is added or replaced and the records follow; after a commit that went well RIB links, counters, records and FIB are consistent if and only if the registration was safe |
| RibDaemon.UnregisterRoute | ndnSIM/NFD/rib/rib.cpp:394-435 | the same for unregistering a route or losing it with its face, its entry going with its last route; an unknown route changes nothing; stops exactly when a record names the erased entry |
| RibSystem.RegisterExact | ndnSIM/NFD/rib/fib-updater.cpp:94-146 | the delta of a registration, of a new name, a new route or a known one, is right for FIB and records everywhere if and only if the registration is good |
| RibSystem.UnregisterExact | ndnSIM/NFD/rib/fib-updater.cpp:148-188 | the same for an unregistration, also with destroyed faces, whose FIB updates are dropped |
| RibDaemon.Deliver | ndnSIM/NFD/rib/fib-updater.cpp:263-311 | the callbacks, fed with any responses, carry out the run of the transition system |
| RibDaemon.Update | ndnSIM/NFD/rib/rib.cpp:374-435 | one safe update: what is committed is a run of lists holding exactly what the update leaves pending; the table changes if and only if the commit succeeds, and everything is consistent again if it went well |
| RibDaemon.Serve | ndnSIM/NFD/rib/rib.cpp:374-435 | updates of any kind served one after the other from an empty RIB, each safe in whatever RIB came before it: every one served was committed with exactly what it leaves pending, changed the table as it must, and left RIB, records and FIB consistent; the first not served was committed in the table before it, but its commands were not answered well |
| RibDaemon.AnsweredCommitGoesWell | ndnSIM/NFD/rib/rib.cpp:374-435 | good responses: a commit goes well if every command is answered, no face is missing, none is refused, no ADD times out more than ten times and no REMOVE does |
| RibHistory.TableOfCourse | ndnSIM/NFD/rib/rib.cpp:394-435 | after a sequence of served updates the table holds, for every name, face and origin, exactly the route that the latest update about it left |
| RibHistory.FibOfCourse | ndnSIM/NFD/rib/rib.cpp:394-435 | and the FIB reaches every name with routes on a remaining face at the lowest cost of the routes last registered there |
| RibDaemon.PlainRunSafe | ndnSIM/NFD/rib/rib.cpp:374-435 | such runs exist: any registrations of distinct routes without flags |
| RibSystem.CommittedFib | ndnSIM/NFD/rib/fib-updater.cpp:49-66 | after a commit that went well the FIB is the one of the changed RIB if and only if the computed delta is right for every pair |
| Rtt.FollowsRfc6298 | ndnSIM/utils/ndn-rtt-mean-deviation.cpp:82-105 | the two gains smooth RTT and deviation as section 2 of RFC 6298 does, deviation from the old estimate |
| Rtt.SamplesBound | ndnSIM/utils/ndn-rtt-mean-deviation.cpp:82-105 | over any samples the estimate stays between the smallest and the largest, the deviation between zero and the largest |
| Rtt.MultiplierClosedForm | ndnSIM/utils/ndn-rtt-estimator.cpp:265-278 | min(MaxMultiplier, 2^k) after k timeouts since the last valid sample |
| Rtt.RetransmitTimeoutInRange | ndnSIM/utils/ndn-rtt-mean-deviation.cpp:107-120 | the plain timeout lies in [minRto, maxRto] |
| Rtt.PlainTimeout | ndnSIM/utils/ndn-rtt-mean-deviation.cpp:107-120 | between its limits the plain timeout exceeds multiplier times estimate by exactly four times multiplier times deviation (section 2 of RFC 6298); at a limit, the limit is what decides |
| Rtt.FirstSampleTimeout | ndnSIM/utils/ndn-rtt-mean-deviation.cpp:82-120 | after one sample R and k timeouts it is min(maxRto, max(m minRto, 3 m R)) with m = min(MaxMultiplier, 2^k) |
| Rtt.ConvexCombination | ndnSIM/utils/ndn-rtt-mean-deviation.cpp:256-280 | the weights are non-negative and sum to one in every reachable branch, the value lies between the smallest and largest contributing time, and the sums are never all zero |
| Rtt.RtoByCorrelativityBounds | ndnSIM/utils/ndn-rtt-mean-deviation.cpp:204-291 | the timeout by correlativity is in range, and between the clamped extremes of the contributing times |
| RttCorrelation.TimeoutIsWeightedTimes | ndnSIM/utils/ndn-rtt-mean-deviation.cpp:204-291 | over the history records: the clamped sum of receive time minus send time of the records received after sending, at most 180 seconds ago, with a related name, each weighted with the mean of its shares in the correlations that do not add up to zero; the clamped estimate without such records |
| RttCorrelation.TimeoutBetweenTimes | ndnSIM/utils/ndn-rtt-mean-deviation.cpp:204-291 | if the round-trip times of all those records lie between two bounds, the timeout lies between the clamped bounds |
| RttCorrelation.TimeoutOfOne | ndnSIM/utils/ndn-rtt-mean-deviation.cpp:243-280 | with one such record it is its clamped round-trip time |
| RttCorrelation.MoreRecentWeighsMore | ndnSIM/utils/ndn-rtt-mean-deviation.cpp:232-269 | of two records with equally related names the one with the larger temporal correlation weighs more, and only that one |
| Rtt.PurgeKeeps | ndnSIM/utils/ndn-rtt-estimator.cpp:301-314 | purging keeps or drops a record whole and keeps sequence numbers distinct |
| Rtt.PurgeMembers | ndnSIM/utils/ndn-rtt-estimator.cpp:301-314 | a record is kept if and only if it was received, or sent and not received, at most the given time ago |
| Rtt.PurgeSplits | ndnSIM/utils/ndn-rtt-estimator.cpp:301-314 | what is kept stays in its order |
| Rtt.RttMeanDeviation.CalRtoByCorrelativity | ndnSIM/utils/ndn-rtt-mean-deviation.cpp:204-291 | computes that timeout and keeps exactly the records of the last 180 seconds |
| Rtt.RttMeanDeviation.Collect | ndnSIM/utils/ndn-rtt-mean-deviation.cpp:224-250 | the first loop collects the contributions in order and adds up the three correlations |
| Rtt.RttMeanDeviation.Average | ndnSIM/utils/ndn-rtt-mean-deviation.cpp:252-284 | the second loop computes the weighted time, or falls back on the estimate |
| Rtt.RttMeanDeviation.Measurement | ndnSIM/utils/ndn-rtt-mean-deviation.cpp:82-105 | one sample taken in place |
| Rtt.RttMeanDeviation.AckSeq | ndnSIM/utils/ndn-rtt-mean-deviation.cpp:294-343 | a sample for a record never retransmitted, otherwise the record is dropped |
| Rtt.RttMeanDeviation.StoreInterest | ndnSIM/utils/ndn-rtt-mean-deviation.cpp:168-188 | a known sequence number is marked retransmitted with the new timeout, an unknown one gets a record |
| Rtt.RttMeanDeviation.DiscardInterest | ndnSIM/utils/ndn-rtt-mean-deviation.cpp:190-202 | the record of the sequence number is removed |
| Rtt.RttMeanDeviation.RetransRtoBySeq | ndnSIM/utils/ndn-rtt-estimator.cpp:332-347 | twice the stored timeout capped at maxRto, zero without a record |
| Rtt.RttMeanDeviation.DropOld | ndnSIM/utils/ndn-rtt-estimator.cpp:301-314 | the filter on age that the erasing loop intends |
| Consumers.RunKeeps | ndnSIM/apps/ndn-consumer.cpp:176-459 | the invariant of containers, history and trace holds in every reachable state |
| Consumers.KarnsRule | ndnSIM/utils/ndn-rtt-mean-deviation.cpp:294-343 | every sample belongs to a sequence number transmitted exactly once in the whole run (section 3 of RFC 6298) |
| Consumers.TransmissionBounds | ndnSIM/apps/ndn-consumer.cpp:340-393 | at most max(1, retxNum) transmissions per sequence number, and none after its Data was processed |
| Consumers.BackoffClosedForm | ndnSIM/apps/ndn-consumer.cpp:415-459 | the i-th retransmission is armed with min(maxRto, 2^i times the first timeout); a deadline is last send time plus timeout |
| Consumers.ContainersAgree | ndnSIM/apps/ndn-consumer.cpp:303-320 | same keys in the three per-sequence containers, which include those of the deadlines; first send <= last send <= now; reported delays ordered and non-negative; history distinct |
| Consumers.TimeoutRearmsLater | ndnSIM/apps/ndn-consumer.cpp:340-382 | a timed-out number is armed again only for a later time, other deadlines are left alone |
| ConsumerRuns.NoRecordForever | ndnSIM/utils/ndn-rtt-estimator.cpp:301-314 | a purged record is never created again and its number never sent again, in any continuation of a run |
| ConsumerRuns.TimeoutStrands | ndnSIM/apps/ndn-consumer.cpp:355-392 | a timeout strands its number if and only if another attempt is allowed and its record has been purged |
| ConsumerRuns.StrandedForever | ndnSIM/apps/ndn-consumer.cpp:340-393 | a stranded number is neither sent again nor given up until Data for it arrives |
| ConsumerRuns.StrandingRun | ndnSIM/utils/ndn-rtt-mean-deviation.cpp:222-223 | a concrete run, every timer on time, that strands a number |
| ConsumerRuns.EstimatorOfRun | ndnSIM/utils/ndn-rtt-mean-deviation.cpp:82-105 | in every run the estimate is the smoothing of the samples of the trace, and the multiplier min(MaxMultiplier, 2^k) after k fired timeouts since the last sample |
| ConsumerRuns.EstimateBetweenSamples | ndnSIM/utils/ndn-rtt-mean-deviation.cpp:82-105 | in every run with a sample the estimate lies between the smallest and largest sample of the trace, the deviation between zero and the largest |
| ConsumerEvents.SendOutcome | ndnSIM/apps/ndn-consumer.cpp:176-268 | in every run an active consumer below its limit sends the next number, under the prefix with that number, armed with the plain timeout for a name like the last and the one by correlativity otherwise; containers and record are set accordingly; nothing changes when it is inactive or at the limit |
| ConsumerEvents.PlainFirstTimeout | ndnSIM/apps/ndn-consumer.cpp:439-455 | in every run the plain timeout is that of an estimator that took the samples of the trace, with multiplier min(MaxMultiplier, 2^k) after k timeouts since the last sample |
| ConsumerEvents.TimeoutOutcome | ndnSIM/apps/ndn-consumer.cpp:340-393 | in every run a due number is sent again with twice its last timeout up to maxRto if it was sent fewer than retxNum times and has a record, left unsent without a record, and otherwise forgotten by all containers and the history; the multiplier doubles up to its maximum |
| ConsumerEvents.DataOutcome | ndnSIM/apps/ndn-consumer.cpp:303-337 | in every run Data is reported with now minus the last and the first send time of the trace and the number of transmissions, all containers forget the number, and an unmarked record gives the sample now minus first send time |
| ConsumerEvents.StepSends | ndnSIM/apps/ndn-consumer.cpp:176-393 | every event sends at most one Interest, of the next number below the limit or of a number sent before |
| ConsumerEvents.NumbersOfRun | ndnSIM/apps/ndn-consumer.cpp:84-206 | in every run the numbers transmitted are exactly those from zero up to the next one, which never passes the limit |
| ConsumerEvents.SentWithinLimit | ndnSIM/apps/ndn-consumer.cpp:199-206 | every transmission of a trace has a number below the limit, so a limit of zero sends nothing |
| ConsumerClass.Consumer.CheckRetxTimeout | ndnSIM/apps/ndn-consumer.cpp:114-150 | the draining loop ends after one timeout event per due entry, and then every deadline is later than now |
| ConsumerClass.Consumer.WaitBeforeSendOutInterest | ndnSIM/apps/ndn-consumer.cpp:415-459 | the containers, the chosen timeout and the history after a transmission |
| ConsumerClass.Consumer.Send | ndnSIM/apps/ndn-consumer.cpp:176-268 | sends the next number unless inactive or at the configured end, as the transition whose outcome `ConsumerEvents.SendOutcome` states |
| ConsumerClass.Consumer.Receive | ndnSIM/apps/ndn-consumer.cpp:274-338 | reports the delays, clears the containers and feeds the estimator |
| ConsumerClass.Consumer.HandleTimeout | ndnSIM/apps/ndn-consumer.cpp:340-393 | backs off, then retransmits, gives up, or does nothing when the record was purged |
| ConsumerClass.Consumer.HandleAll | ndnSIM/apps/ndn-consumer.cpp:114-459 | the handlers, fed with any events, carry out the run of the transition system and keep its invariant |
| Segments.Publish | ndnSIM/NFD/core/segment-publisher.hpp:72-107 | the do-while loop produces the segmentation |
| Segments.SplitShape | ndnSIM/NFD/core/segment-publisher.hpp:72-107 | max(1, ceil(n/size)) contiguous segments, only the last marked final, all others full |
| Segments.Fetch | ndnSIM/NFD/rib/rib-manager.cpp:663-681 | following FinalBlockId segment by segment |
| Segments.RoundTrip | ndnSIM/NFD/rib/rib-manager.cpp:663-681 | fetching what was published rebuilds the octets and stops at the last segment |
| Segments.RoundTripMarked | ndnSIM/NFD/rib/rib-manager.cpp:663-681 | the same for every store in which earlier segments already carry the number of the last one |
| Segments.FetchOutcome | ndnSIM/NFD/rib/rib-manager.cpp:663-681 | in any store fetching passes segments without a FinalBlockId or with a later one, ends at the first other one with all contents in order, and fails at the first gap |
| Networks.MaskBytes | ndnSIM/NFD/core/network.cpp:85-91 | the bit-setting loop sets exactly the first `mask` bits |
| Networks.Parse | ndnSIM/NFD/core/network.cpp:80-128 | minimum and maximum address of the range, byte by byte |
| Networks.CidrCorrect | ndnSIM/NFD/core/network.hpp:52-56 | contained if and only if of the same family and equal on the first `mask` bits (section 3.1 of RFC 4632) |
| Networks.SingleAddress | ndnSIM/NFD/core/network.cpp:73-77 | without a mask only the address itself is contained |

## Left out

- RibDaemon.Serve: ends at the first update whose commit does not go well; what the daemon does after an unsafe update or a failed commit is not followed further.
- FibCommit.CommitContent: says nothing about next hops of faces that were reported missing, because those faces do not exist.
- RibEntry as a class: entries are values inside the table field of `Rib`, so aliasing of shared entry pointers is not modelled; the links are names.
- Update queue, expiration events, face lookup table and item counter of `Rib`: scheduling around single batches.
- Commands of a failed batch that are answered after the next batch has begun.
- `RibManager` apart from `fetchSegments`, remote registration, configuration, keys and validators: input and output.
- `RttEstimator::SentSeq` and `AckSeq` of the base class and `CalRTObyHistory`: not called by the consumer.
- The content of Interest and Data packets, nonces, hop counts, positions and console output.
- `SetRetxNumber` in the middle of a run: the cap is fixed for a run.
- Parsing of address text: `Networks.Parse` starts from the address bytes and the mask length; a mask longer than the address is out of bounds in the source and not modelled.
