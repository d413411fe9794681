# hyprfast: a verified model of its browser runtime and small algorithms

This project models the concurrent core of hyprfast in Dafny and proves what it keeps, over every run. Each file is
one module.

- **Transport, Requests, Dispatcher** — the ordered CDP transport. A reader numbers frames; the dispatcher decodes
  them inline or hands them to workers that may finish in any order; a reorder buffer restores wire order; a table of
  pending requests pairs replies with callers; a fail-closed shutdown answers everybody left. `Transport` and
  `Requests` are state machines in which reader, dispatcher, workers, any number of callers and the shutdown
  interleave freely, one atomic access to shared state per step; callers can be dropped while they wait, and the
  dispatcher aborted. `Dispatcher` has the same code with mutable fields and loops, proved against the functions of
  the other two.
- **Events, PageVersions, ElementIndex, IndexRaces, DomDiff, EventEffects, Selectors** — what a page event does.
  Version counters decide when a handed-out element reference has expired; three maps describe one store of elements;
  every change is reported by a diff. The classes `DomState`, `FrameManager`, `Index` and `Engine` are the stateful
  owners. `IndexRaces` takes the store's operations apart into the writes two tasks can interleave; `EventEffects`
  says what each event does to the store in the event's own terms.
- **Resolution, Answers, Recovery, Outcomes** — finding an element again: the tiers of `resolve`, and the ten-tier
  recovery ladder. `Answers` and `Outcomes` say what each hands out, in terms of the request, the expired reference
  and the elements alone.
- **Actions, Dispatching, Executor, Bounded** — one action and a plan of actions: the calls each kind of step makes
  and which of their errors count, a state machine under cancellation, three inner deadlines and an overall deadline
  that can fire at any await, and a bounded journal. A `Script` says how everything outside the executor turns out;
  results hold for every script.
- **WaylandWire, AccessibilityWalk, ImageSizes, Percentiles, HintLabels, Text** — small algorithms: the Wayland wire
  format (section "Wire Format" of chapter 4 of the Wayland protocol specification), the accessibility walk with an
  explicit stack, the PNG header and the JPEG marker scan (sections B.1.1 and B.2.2 of ITU-T T.81), nearest-rank
  percentiles, hint labels for any charset, and the string operations the runtime uses. `Division` holds the facts
  about quotients the last few need.

Integers that only count (versions, generations, sequence numbers, ids) are unbounded. Widths matter, and are
modelled, in the Wayland, PNG and JPEG formats. Panics are outcomes of their own: a text cut at a byte inside a
character, an index out of range. Sockets, timers, the browser, D-Bus and the scheduler are inputs: frames as a parse
would classify them, results of calls, deadlines that do or do not fire, bytes as the reads deliver them.

## Where the code and its comments part

The model follows the code. Where a promise in a comment or test name is not what the code does, the project states
exactly when it is.

- `resolve` is described as never guessing, but a hit in the selector map picks one of several carriers
  (`SelectorLookupIsTheScanExactlyWhen`, `SharedSelectorIsGuessed`).
- The recovery ladder is described as never guessing. It recovers an element exactly when that is the only live one
  that fits at the first tier that decides (`OutcomeInPlainTerms`), but its fresh search takes an element with an
  empty field for a match, because every text contains the empty one (`FreshSearchMatchesExactlyWhen`). So it recovers
  exactly the only live element that is related or has an empty field (`FreshSearchRecoversExactlyWhen`), which can be
  an unrelated one (`UnrelatedElementCanBeRecovered`).
- Error and detail texts are cut at a byte, and a cut inside a character panics. So a resolution that finds nothing
  ends in a panic instead of its error (`EmptyHandedExactlyWhen`, `ResolvingCanPanic`), a recovery completes exactly
  when the texts cut on its way cut cleanly (`RecoveryCompletesExactlyWhen`, `RecoveryCanPanic`), and a step that
  panics leaves no journal record and takes its plan along (`ExecuteStep`, `ExecutePlan`).
- The scan for an id cuts a frame's text at byte 1024 the same way. An oversized frame can end the reader and an
  undecodable one the dispatcher, and a shutdown aborts it; everything read is dispatched exactly when none of these
  happens (`EverythingReadIsDispatchedExactlyWhen`, `AFrameCanBeFatal`, `EndedStays`).
- Derived selectors are described as never containing `:contains`, but escaping does not prevent it
  (`DerivedSelectorIsAcceptedExactlyWhen`).
- References created for inserted nodes are stale at birth once any frame event has been seen
  (`InsertedIsBornStaleExactlyWhen`).
- An insert can break the agreement of the maps when the caller reuses an id or a backend node
  (`InsertAgreesExactlyWhen`).
- A rebuild reported for an inserted node that cannot be identified leaves the index as it is (`RebuildsExactlyWhen`,
  `RebuildsEmptyExactlyWhen`).
- A reference that is stale stays so through any page events in the middle of a reconnect
  (`StaleThroughInterleavings`), but one issued in the middle, for a frame before its first event, can go stale and
  come back to life at the reset (`RevivedExactlyWhen`, `IssuedMidReconnectCanRevive`).
- A cancellation seen right after resolving uses an edge the transition table does not have
  (`TableMissesOneCancellation`, and `CancelsAtResolved` in the contract of `ExecuteStep`).
- A dead connection is described as never yielding a timeout. It can (`ADeadConnectionCanTimeOut`): a caller that has
  queued its frame can give up exactly while its sender is in the table or in the hand of whoever took it, which after
  the drain means until its death marker is delivered (`CanGiveUpExactlyWhen`). A caller whose reply is delivered
  receives it unless it is dropped first (`DeliveredRepliesAreReceived`), and one that comes to queue its frame after
  the writer is gone never times out (`LateCallersNeverTimeOut`).
- A caller that is dropped while it waits, as the executor drops one whenever its own deadline is the shorter, leaves
  its entry in the table (`ADroppedCallerIsLeftBehind`). A caller that has left is still in the table exactly when it
  was dropped with its sender there and nothing took the sender since (`LeftBehindExactlyWhen`,
  `TableEmptiesExactlyWhen`).
- A changing step whose effect is uncertain is described as ending Unknown. It does exactly when the loss is not
  hidden from the executor (`EndsTellTheTruth`). A loss is hidden in two ways (`LossesAreHiddenOnlyWhen`): the reply
  came and could not be decoded, and the step ends Failed (`UndecodableReplyReadsAsFailure`); or the code discards the
  error of a call that acts, as it does for a key press and for the submit after typing, and the step ends as if the
  call had been answered (`DiscardedErrorsChangeNothing`, `UnansweredPressReadsAsDone`,
  `APressOnADeadConnectionCompletes`).
- The index describes its updates as atomic, but each of its operations takes the locks of three maps in turn. An
  element stored while the index is cleared leaves the maps in agreement exactly when it has no backend node, is wiped
  itself, or has its backend entry written after the last wipe (`RacesAgreeExactlyWhen`, `AClearInsideAnInsertLoses`).
- A journal with bound zero still holds one record (`KeepsTheMostRecent`).
- Hint labels repeat beyond n + n² + n³ + n⁴ for n letters, 475254 for those in use (`DistinctExactlyUpToCapacity`).
- The two readers of image sizes are described as mirroring each other, but `image_size` panics on a PNG signature
  with less than a header behind it, where `detect_dimensions` finds nothing (`ImageSize`, `DetectDimensions`).

## Model

| member | source | states |
|---|---|---|
| Transport.DrainReleasesTheReadyRun | src/browser_runtime/connection.rs:966-981 | draining releases exactly the maximal run of consecutive slots from the expected one, in order, and keeps the rest |
| Transport.StepKeepsInv | src/browser_runtime/connection.rs:772-962 | every step of reader, dispatcher or worker keeps the partition of frames into queued, in flight, buffered and dispatched |
| Transport.RunKeepsInv | src/browser_runtime/connection.rs:772-962 | so does every interleaving of any length |
| Transport.DispatchFollowsTheWire | src/browser_runtime/connection.rs:772-981 | at every moment the log is exactly the first forwarded frames in order, undecodable ones included, every other frame forwarded is in exactly one place, and no disorder is recorded unless something was offloaded |
| Transport.EveryFrameIsDispatchedAsItParses | src/browser_runtime/connection.rs:772-962 | after any run, what was dispatched under a number is that frame read: decoded when it is not oversized, is text and parses, inline or by a worker; otherwise undecodable, with its scanned id when oversized or decoded inline, with none when not text or offloaded |
| Transport.OffloadsAreCounted | src/browser_runtime/connection.rs:903-916 | the count of offloaded frames is the number of frames taken that are text, not oversized and large |
| Transport.DrainNotesTheLargestDepth | src/browser_runtime/connection.rs:966-981 | the largest depth a drain notes is what its first release leaves |
| Transport.LoopFollowsTheMachine | src/browser_runtime/connection.rs:890-962 | the loop, fed what arrives in any run of the whole machine, ends where the dispatcher of the machine is |
| Transport.NothingIsLost | src/browser_runtime/connection.rs:890-962 | when the dispatcher has left its loop every frame forwarded was dispatched once, in order, and nothing is buffered |
| Transport.NeverStalls | src/browser_runtime/connection.rs:890-962 | after the reader stops some step other than an abort is possible until the dispatcher has ended, and every step uses up work |
| Transport.EverythingReadIsDispatchedExactlyWhen | src/browser_runtime/connection.rs:702-962 | once reader and dispatcher have ended, by leaving, by a panic or by an abort, everything read was dispatched in order and the dispatcher left its loop exactly when it was not aborted and no frame read makes the id scan cut a character |
| Transport.AFrameCanBeFatal | src/browser_runtime/connection.rs:285-299 | a text of 1023 letters and a two-byte character crashes the dispatcher |
| Transport.EndedStays | src/browser_runtime/connection.rs:890-962 | however the dispatcher ended, nothing is dispatched again |
| Dispatcher.Connection.NoteReorderDepth | src/browser_runtime/connection.rs:229-236 | current depth is recorded and the maximum only raised |
| Dispatcher.Connection.DispatchItem | src/browser_runtime/connection.rs:985-1052 | a response, or an undecodable frame, answers the pending caller with its id and takes it out of the table; an event is broadcast under its number; anything else changes nothing |
| Dispatcher.Connection.DrainReady | src/browser_runtime/connection.rs:966-981 | the drain loop computes the specified release and dispatches exactly the released items, in order, each under its sequence number |
| Dispatcher.Connection.OnInbound | src/browser_runtime/connection.rs:897-934 | one received frame, or the end of the queue, has exactly the specified effect, a job is started exactly for offloaded frames, and it panics exactly when the id scan cuts a character, then changing nothing |
| Dispatcher.Connection.OnWorkerResult | src/browser_runtime/connection.rs:936-957 | a worker's result has exactly the specified effect whichever worker it comes from |
| Dispatcher.Connection.DispatcherLoop | src/browser_runtime/connection.rs:890-962 | over any arrivals the loop computes the specified state and ending, and everything released was dispatched in release order |
| Dispatcher.Connection.MarkDead | src/browser_runtime/connection.rs:204-227 | the first call closes the writer and answers every pending request with the death marker; later calls change nothing |
| Dispatcher.DispatchesJoin | src/browser_runtime/connection.rs:966-1052 | dispatching in two stretches equals dispatching in one |
| Requests.OpKeepsTableInv | src/browser_runtime/connection.rs:204-227 | every atomic step of callers, dispatcher and shutdown, callers dropped at their await included, keeps: one owner per sender, senders belong to callers, waiters and dropped waiters have theirs somewhere, nobody who has waited is in the table after the drain |
| Requests.ReachableIsSound | src/browser_runtime/connection.rs:586-646 | the invariants hold in every reachable state of the whole system |
| Requests.ShutdownLosesNobody | src/browser_runtime/connection.rs:204-227 | after the drain no caller that queued its frame is still in the table; each can leave by receiving |
| Requests.CanGiveUpExactlyWhen | src/browser_runtime/connection.rs:583-646 | in every reachable state a waiting caller can time out exactly while its sender is in the table or in hand, exactly when it cannot receive; after the drain exactly while it is in hand |
| Requests.DeliveredRepliesAreReceived | src/browser_runtime/connection.rs:583-646 | from the moment a reply is delivered its caller can only leave with it or be dropped, and which of the two is decided by whether it is dropped |
| Requests.LateCallersNeverTimeOut | src/browser_runtime/connection.rs:583-646 | a caller that is not waiting when the writer task ends or the shutdown takes the writer never waits and never times out |
| Requests.NobodyIsAdmittedAfterDeath | src/browser_runtime/connection.rs:594-599 | once the liveness flag is cleared no id is given out beyond those taken or promised by then |
| Requests.ADeadConnectionCanTimeOut | src/browser_runtime/connection.rs:583-646 | a run after whose drain a caller leaves with a timeout |
| Requests.TableEmptiesExactlyWhen | src/browser_runtime/connection.rs:586-646 | once all callers have left, the table is empty exactly when none was left behind; in particular when nobody was dropped, and after the drain |
| Requests.LeftBehindExactlyWhen | src/browser_runtime/connection.rs:586-646 | a caller that has left is in the table exactly when it was dropped at its await with its sender there, and since then no frame with its id was dispatched and there was no drain |
| Requests.ADroppedCallerIsLeftBehind | src/browser_runtime/connection.rs:631-640 | a run in which every caller has left and the table is not empty |
| Requests.SlotsAreWrittenOnce | src/browser_runtime/connection.rs:985-1018 | a filled reply slot keeps its reply for ever and has no sender left |
| Requests.RepliesAndEventsFollowTheWire | src/browser_runtime/connection.rs:985-1052 | each reply comes from a frame at the named position carrying the caller's id, the death marker only after the drain; events are broadcast in wire order, none skipped |
| Requests.DispatchNextInPlainTerms | src/browser_runtime/connection.rs:985-1052 | the next dispatch takes exactly the sender of the request its frame carries, with the answer or the failure of that frame, or broadcasts the event, and changes nothing else |
| Requests.ResponsesReachTheirCallers | src/browser_runtime/connection.rs:985-1052 | when the turn comes of a frame read as a response to a request still in the table, that request leaves the table for good, with this response in hand or in its slot ever after |
| Requests.EventsAreExactlyThoseRead | src/browser_runtime/connection.rs:985-1052 | what has been broadcast is exactly what the frames dispatched so far read as events, each once, in the order read |
| Text.FirstWordReadsBack | src/browser_runtime/recovery.rs:1026-1068 | the first word of an id followed by a note is the id |
| Text.IdsAreDistinct | src/browser_runtime/element_index.rs:217-256 | assigned ids of different numbers differ, whatever the padding |
| Text.IdsAreWords | src/browser_runtime/element_index.rs:217-256 | assigned ids are single words |
| Text.IdsAreNumbered | src/browser_runtime/element_index.rs:217-222 | the id assigned to a number reads back to it: a fixed prefix, then its digits behind zeros up to three |
| Text.WordsReadBack | src/browser_runtime/dom_diff.rs:544-548 | words put together with white space between them are taken apart again |
| Text.LowerFolds | src/browser_runtime/recovery.rs:820-860 | folding changes the letters A to Z into a to z and nothing else |
| Text.TruncateSucceedsExactlyWhen | src/browser_runtime/recovery.rs:1089-1091 | cutting succeeds exactly when the text is short enough or a character starts at the byte; it keeps exactly the bytes before it |
| Text.ThreeByteTextCutsExactlyWhen | src/browser_runtime/recovery.rs:1089-1091 | a text of three-byte characters cuts cleanly exactly at multiples of three |
| PageVersions.ReachableFramesAreBounded | src/browser_runtime/frames.rs:108-115 | per-frame versions are always positive, bounded by the global one and pairwise distinct |
| PageVersions.StaleStaysStale | src/browser_runtime/element_index.rs:76-86 | staleness is a one-way latch through every later run of DOM, frame and reconnect moves |
| PageVersions.StaleExactlyWhenTouched | src/browser_runtime/frames.rs:298-315 | a fresh reference expires exactly when a later move touches it; other frames' activity never does |
| PageVersions.ExpiresExactlyWhen | src/browser_runtime/frames.rs:96-315 | event by event, which make a fresh reference expire: those that change the document, and attaching, navigating or detaching its own frame |
| PageVersions.CountersCount | src/browser_runtime/dom_state.rs:142-251 | over any run each counter is a count of the events and reconnects it stands for |
| PageVersions.StaleThroughInterleavings | src/browser_runtime/crash_recovery.rs:164-180 | the latch holds through every interleaving of page events with the single steps of reconnects, so long as each frame reset comes after its new generation |
| PageVersions.MovesAreSmallMoves | src/browser_runtime/crash_recovery.rs:164-180 | every event and reconnect is a sequence of those single steps |
| PageVersions.RevivedExactlyWhen | src/browser_runtime/frames.rs:322-337 | a stale reference is revived by no single step but a frame reset, and by that exactly when only its frame version had expired and that is forgotten |
| PageVersions.IssuedMidReconnectCanRevive | src/browser_runtime/crash_recovery.rs:164-180 | from any state before the reconnect, a reference issued after the bumps for a frame that has had no event goes stale at its first event and is revived by the reset |
| PageVersions.ResetAloneWouldRevive | src/browser_runtime/frames.rs:322-337 | without the bumps before it, the frame reset would revive a stale reference |
| PageVersions.DomState.Affect | src/browser_runtime/dom_state.rs:253-268 | the record of touched parents never exceeds 512 and is cut to 256 when it would |
| PageVersions.DomState.OnEvent | src/browser_runtime/dom_state.rs:158-251 | each event moves exactly the specified counters, and records exactly the parent or node it names, if any; a new document empties the record |
| PageVersions.DomState.OnReconnected | src/browser_runtime/dom_state.rs:142-155 | both generations, the DOM version and the index version move by one |
| PageVersions.FrameManager.BumpFrame | src/browser_runtime/frames.rs:108-115 | the frame gets the new global version |
| PageVersions.FrameManager.OnEvent | src/browser_runtime/frames.rs:96-231 | frame events bump exactly the frame they name |
| PageVersions.FrameManager.HandleReconnect | src/browser_runtime/frames.rs:322-337 | per-frame versions are forgotten and nothing else moves |
| ElementIndex.InsertAgreesExactlyWhen | src/browser_runtime/element_index.rs:217-256 | an insert keeps the three maps in agreement exactly when the backend node is free and a reused id keeps its backend and its selector entry |
| ElementIndex.ReusedIdCanBreakAgreement | src/browser_runtime/element_index.rs:217-256 | a reused id can break the agreement |
| ElementIndex.RemoveKeepsAgreement | src/browser_runtime/element_index.rs:287-308 | removing keeps the maps in agreement |
| ElementIndex.UpdateAgreesExactlyWhen | src/browser_runtime/element_index.rs:310-336 | exactly when an update in place keeps the maps in agreement |
| ElementIndex.NextIdIsFresh | src/browser_runtime/element_index.rs:217-256 | the next assigned id is not in the store |
| ElementIndex.AutoInsertKeeps | src/browser_runtime/element_index.rs:217-256 | inserting with an assigned id and a free backend keeps the agreement and the numbering |
| ElementIndex.StoredAsGiven | src/browser_runtime/element_index.rs:217-256 | an element is stored as given, under its own id or the next, with a derived selector if it has none, where both lookups find it; nothing else changes |
| ElementIndex.FreshWhenStoredExactlyWhen | src/browser_runtime/element_index.rs:217-256 | exactly when an element is fresh as it is stored |
| ElementIndex.Index.Insert | src/browser_runtime/element_index.rs:217-256 | the method stores what the specification stores and returns its id |
| ElementIndex.Index.RemoveById | src/browser_runtime/element_index.rs:287-308 | the method removes from all three maps as specified and returns what was stored |
| ElementIndex.Index.UpdateInPlace | src/browser_runtime/element_index.rs:310-336 | the method updates all three maps as specified |
| ElementIndex.Index.Clear | src/browser_runtime/element_index.rs:275-280 | all maps are emptied, numbering goes on |
| ElementIndex.Index.FindByNode | src/browser_runtime/dom_diff.rs:443-453 | the scan finds a carrier of the node exactly when there is one |
| IndexRaces.UndisturbedWritesAreTheOperations | src/browser_runtime/element_index.rs:217-280 | run undisturbed, the writes of an insert and of a clear are the operations |
| IndexRaces.RacesAgreeExactlyWhen | src/browser_runtime/element_index.rs:217-336 | an insert or update interleaved write by write with any number of clears leaves the maps in agreement exactly when the element has no backend node, is wiped last itself, or has its backend entry written after the last wipe |
| IndexRaces.ALostRaceLosesTheBackend | src/browser_runtime/element_index.rs:262-280 | otherwise the element is stored and its backend node does not find it |
| IndexRaces.AClearInsideAnInsertLoses | src/browser_runtime/element_index.rs:217-280 | a clear between the first two writes of an insert does this to any element with a backend node |
| DomDiff.MapsAgreeAfterAnyRun | src/browser_runtime/dom_diff.rs:237-288 | after any run of events and reconnects the maps agree with the store, ids are the store's own, nothing is stamped ahead of the counters |
| DomDiff.DiffsAreTruthful | src/browser_runtime/dom_diff.rs:237-265 | after any run each incremental diff accounts for the change id by id and in number, with exact version bounds; a rebuild is reported exactly for a new document, a main-frame navigation, which leave the index empty, and an unidentifiable insert, which leaves it as it is |
| EventEffects.RemovalsRemove | src/browser_runtime/dom_diff.rs:432-510 | after any run a removed node takes its carrier out of the store and both maps; failing that, the carrier of the backend node hinted at; failing that, nothing changes and the diff says why |
| EventEffects.AttributesChange | src/browser_runtime/dom_diff.rs:512-624 | after any run an attribute change alters exactly the carrier of the node, in the field the attribute stands for, moves its selector entry and keeps it fresh; with no carrier nothing changes and the diff says why |
| EventEffects.InsertsStore | src/browser_runtime/dom_diff.rs:292-430 | after any run an identified node gets one new element, made of what the node says, that both lookups find; whatever carried its backend node goes; all else stays |
| EventEffects.EmptyInsertsChangeNothing | src/browser_runtime/dom_diff.rs:292-345 | an insert without data changes nothing and is explained |
| EventEffects.RebuildsListNothing | src/browser_runtime/dom_diff.rs:626-700 | a rebuild lists no element and no parent and says why; every reconnect reports one |
| DomDiff.RebuildsExactlyWhen | src/browser_runtime/dom_diff.rs:189-288 | which events are reported as a rebuild, from any state, and what each leaves |
| DomDiff.GuessingIsExact | src/browser_runtime/dom_diff.rs:189-235 | called right after the version owners, the entry point that guesses earlier versions reports and does what the one given them does |
| DomDiff.InsertedIsBornStaleExactlyWhen | src/browser_runtime/dom_diff.rs:355-370 | an inserted node's reference is stale at birth exactly when some frame event has been seen |
| DomDiff.Engine.Insert | src/browser_runtime/dom_diff.rs:292-430 | the insert handler displaces, stores and reports as specified, with a reason exactly when the node has children or cannot be identified |
| DomDiff.Engine.Remove | src/browser_runtime/dom_diff.rs:432-510 | the remove handler scans, falls back on the backend hint and reports as specified |
| DomDiff.Engine.Attribute | src/browser_runtime/dom_diff.rs:512-624 | the attribute handler updates the element found and reports as specified |
| DomDiff.Engine.OnEvent | src/browser_runtime/dom_diff.rs:237-265 | one event has exactly the specified effect on store and diff, and the diff is published |
| DomDiff.Engine.OnRecoveryInvalidation | src/browser_runtime/dom_diff.rs:270-288 | the index is dropped and the drop published |
| DomDiff.Engine.HandleDisconnect | src/browser_runtime/crash_recovery.rs:164-180 | bumps, index dropped, drop published, frames reset: together one crash step of the runtime |
| DomDiff.Engine.SimulateReconnect | src/browser_runtime/server.rs:487-497 | the same for a simulated reconnect, in its own order |
| DomDiff.Engine.DispatchEvent | src/browser_runtime/events.rs:258-271 | versions captured first, then DomState, frames and the index last: exactly one step of the runtime |
| DomDiff.Engine.DispatchLoop | src/browser_runtime/events.rs:248-341 | the receive loop takes the runtime through exactly the events heard, in order |
| Selectors.EscapeKeepsBanned | src/browser_runtime/element_index.rs:947-958 | escaping neither adds nor removes an occurrence of the banned text |
| Selectors.DerivedSelectorIsAcceptedExactlyWhen | src/browser_runtime/element_index.rs:921-943 | a derived selector passes validation exactly when the attributes it comes from are free of the banned text |
| Selectors.DerivedSelectorCanBeRefused | src/browser_runtime/element_index.rs:921-943 | the index can derive a selector it refuses |
| Selectors.DerivedSelectorsReadBack | src/browser_runtime/element_index.rs:921-958 | a derived selector tells what it was derived from: the id, or the tag and the classes |
| Resolution.ResolutionIsUsable | src/browser_runtime/element_index.rs:440-620 | a found element is stored, not stale, visible and enabled; an ambiguity lists at least two distinct stored ids |
| Answers.AnswerInPlainTerms | src/browser_runtime/element_index.rs:440-620 | the first place of the request that decides gives the answer: the only element that answers to it, as its versions and state allow, the one the selector map knows, or all that answer; not found, or a panic, when none decides |
| Resolution.EmptyHandedExactlyWhen | src/browser_runtime/element_index.rs:440-620 | nothing is found exactly when nothing stored answers to the request; instead of the error it panics exactly when the selector or the text does not cut cleanly |
| Resolution.ResolvingCanPanic | src/browser_runtime/element_index.rs:961-975 | 27 three-byte characters on an empty index panic |
| Resolution.TheNamedElementIsPicked | src/browser_runtime/element_index.rs:440-500 | an element named by stored id, else by a backend node other than 0, else by a valid selector only it has, is the one picked, whatever else the request says |
| Resolution.ResolutionIgnoresIterationOrder | src/browser_runtime/element_index.rs:440-620 | the iteration order of the store changes nothing but the order of ambiguous candidates |
| Resolution.BackendLookupIsTheScanExactlyWhen | src/browser_runtime/element_index.rs:452-465 | the backend lookup agrees with a linear scan exactly when the node is not 0 or nothing carries 0 |
| Resolution.SelectorLookupIsTheScanExactlyWhen | src/browser_runtime/element_index.rs:466-500 | the selector lookup agrees with a linear scan exactly when the selector has no map entry or at most one carrier |
| Resolution.SharedSelectorIsGuessed | src/browser_runtime/element_index.rs:466-500 | with two carriers it can pick one |
| Recovery.Recover | src/browser_runtime/recovery.rs:244-404 | the loop over the ladder computes the specified trace and outcome, or panics at the specified tier |
| Recovery.RecoveryCompletesExactlyWhen | src/browser_runtime/recovery.rs:244-404 | a recovery completes exactly when every text it has to cut on its way cuts cleanly |
| Recovery.AsciiRequestsComplete | src/browser_runtime/recovery.rs:1089-1091 | it always does for ASCII |
| Recovery.RecoveryCanPanic | src/browser_runtime/recovery.rs:780-808 | it does not for 27 three-byte characters on an empty index |
| Recovery.SuccessReadsBackExactlyWhen | src/browser_runtime/recovery.rs:1026-1068 | a success hands on the chosen id through its detail text exactly when the id is a single word |
| Recovery.EveryTierIsRecorded | src/browser_runtime/recovery.rs:244-404 | a recovery that completes has recorded ten attempts in ladder order, at most one decides, only skips after it |
| Recovery.OutcomesAreHonest | src/browser_runtime/recovery.rs:244-404 | what a completed recovery hands out is stored, fresh and interactable; ambiguities list at least two distinct live ids; vision exactly when nothing decided and both options are set |
| Outcomes.OutcomeInPlainTerms | src/browser_runtime/recovery.rs:244-404 | a completed recovery hands out, of the first tier that decides, the one usable element that fits what the request, or else the expired reference, says, or exactly all that fit; vision or failure, by the options, when no tier decides |
| Outcomes.TheFirstToDecideConcludes | src/browser_runtime/recovery.rs:244-404 | and every tier that decides first does give the outcome |
| Outcomes.TraceInPlainTerms | src/browser_runtime/recovery.rs:244-404 | each tier that can decide is recorded for what it found, until one decides; later ones are skipped |
| Outcomes.TheRequestOutranksTheReference | src/browser_runtime/recovery.rs:430-808 | a tier the request gives everything to says the same whatever reference has expired |
| Outcomes.TheSelectorAskedForWins | src/browser_runtime/recovery.rs:540-592 | with the first two tiers undecided, the one usable element with the selector asked for is recovered, whatever reference has expired |
| Recovery.FreshSearchRecoversExactlyWhen | src/browser_runtime/recovery.rs:810-882 | the fresh search, once reached, recovers exactly the only live element that is related or has an empty field; only related ones when no live element has an empty field |
| Recovery.TheFirstDecidingTierWins | src/browser_runtime/recovery.rs:244-404 | the first tier that decides, decides the outcome, whatever later tiers would have said |
| Recovery.FrameShadowNeverDecides | src/browser_runtime/recovery.rs:884-993 | whenever the ladder reaches frame/shadow traversal undecided, it finds nothing |
| Recovery.FrameShadowIsRedundant | src/browser_runtime/recovery.rs:884-993 | dropping that tier changes no panic, outcome, element or candidate |
| Recovery.FreshSearchMatchesExactlyWhen | src/browser_runtime/recovery.rs:810-882 | the fresh search matches exactly the related elements and those with an empty field |
| Recovery.InsertedNodesMatchEveryFreshSearch | src/browser_runtime/recovery.rs:810-882 | every element created for an inserted node matches every fresh search |
| Recovery.UnrelatedElementCanBeRecovered | src/browser_runtime/recovery.rs:810-882 | so an element that shares nothing with the request can be recovered |
| Recovery.RecoveryIsReadyAfterAnyRun | src/browser_runtime/recovery.rs:244-404 | the premises of these results hold after any run of the runtime |
| Actions.TerminalExactlyWhenNoWayOut | src/browser_runtime/action.rs:112-156 | terminal states are exactly those the table has no way out of |
| Actions.ActionJournal.Append | src/browser_runtime/action_journal.rs:42-49 | at the bound the oldest record makes room for the new one |
| Actions.ActionJournal.LastN | src/browser_runtime/action_journal.rs:72-78 | the most recent records, oldest first |
| Bounded.KeepsTheMostRecent | src/browser_runtime/action_journal.rs:42-49 | the queue holds exactly the most recent entries in order |
| Executor.EndsTellTheTruth | src/browser_runtime/executor.rs:233-548 | Cancelled only before dispatch; a changing step whose effect is uncertain ends Unknown exactly when the loss is not hidden from the executor, and Unknown is said besides only when a call that does not act was lost, or of one dropped past dispatch outside the call; a late deadline never reads as a clean failure |
| Executor.LossesAreHiddenOnlyWhen | src/browser_runtime/executor.rs:791-945 | a loss is hidden only when the reply of an acting call could not be decoded or the step is a key press or typing with a submit |
| Executor.QuestionsAreLostOnlyWhen | src/browser_runtime/executor.rs:791-945 | Unknown without an uncertain effect comes only from a lost node lookup or a lost extraction |
| Executor.DiscardedErrorsChangeNothing | src/browser_runtime/executor.rs:887-895 | a step ends the same whatever became of the calls whose errors are discarded |
| Executor.UnansweredPressReadsAsDone | src/browser_runtime/executor.rs:887-895 | a key press ends Completed whatever became of its calls; its effect is uncertain exactly when one of them went unanswered |
| Executor.APressOnADeadConnectionCompletes | src/browser_runtime/executor.rs:887-895 | a press on a connection that is dead throughout ends Completed |
| Dispatching.DiscardsExactlyWhen | src/browser_runtime/executor.rs:791-945 | the kinds of step that discard the error of an acting call are the key press and typing with a submit |
| Dispatching.ChangesExactlyWhen | src/browser_runtime/plan.rs:137-143 | the kinds with a capability class are those that make a call that acts on the page, extracting, and clicking with nothing to go by |
| Dispatching.FailureComesFrom | src/browser_runtime/executor.rs:791-945 | a dispatch fails with an error exactly when a call made and checked did |
| Executor.UndecodableReplyReadsAsFailure | src/browser_runtime/executor.rs:450-480 | after an undecodable reply the page may have acted and the step still ends Failed |
| Executor.TrailsOnlyGoForward | src/browser_runtime/action.rs:130-156 | no trail visits a state twice or is longer than eight states |
| Executor.BeforeDispatchInPlainTerms | src/browser_runtime/executor.rs:281-421 | in terms of the script alone: which steps get as far as dispatching, and which are cancelled before |
| Executor.FailsBeforeDispatchOnlyWhen | src/browser_runtime/executor.rs:281-421 | a step that fails before dispatch was cut, found nothing to resolve to, or found an unfit element |
| Executor.UnfitElementsAreNeverActedOn | src/browser_runtime/executor.rs:352-421 | an element that is not interactable, not fresh, or not fresh after a hook is never acted on, and whether the step then fails or is cancelled |
| Executor.PanicsInPlainTerms | src/browser_runtime/executor.rs:281-445 | exactly when a step panics |
| Executor.EndsAsVerifiedExactlyWhen | src/browser_runtime/executor.rs:423-548 | Completed, Contradicted and Inconclusive each exactly when the step gets verified and its verification says so |
| Executor.PlansInPlainTerms | src/browser_runtime/executor.rs:1121-1195 | what a plan records of each step, by what the records before it say |
| Executor.OneStepAtMostStopsThePlan | src/browser_runtime/executor.rs:1121-1195 | at most one record starts the skipping, never an inconclusive one, and exactly the records after it are skipped |
| Executor.ActionExecutor.ResolveTarget | src/browser_runtime/executor.rs:281-350 | up to Resolved: ends, goes on or is cut exactly as the course of events demands |
| Executor.ActionExecutor.CheckPreconditions | src/browser_runtime/executor.rs:352-421 | from Resolved to the decision to dispatch |
| Executor.ActionExecutor.DispatchAndVerify | src/browser_runtime/executor.rs:423-548 | from Dispatching on, cancellation ignored |
| Executor.ActionExecutor.ExecuteStep | src/browser_runtime/executor.rs:157-267 | for every course of events: panics exactly when resolving or dispatching does, journaling nothing; else terminal, the state it calls for, one journal record; only edges of the table plus Resolved to Cancelled; Cancelled means dispatch never began; an unfit element is never dispatched on |
| Executor.ActionExecutor.ExecutePlan | src/browser_runtime/executor.rs:1121-1195 | one record and one journal entry per step with its index; after the first failure, contradiction, unknown effect or cancellation nothing is attempted and all later records are skipped; it ends early exactly when an attempted step panics |
| WaylandWire.ParseEvents | src/input.rs:57-70 | the loop computes the specified messages and remainder |
| WaylandWire.ParsingIsTheOnlySplit | src/input.rs:49-70 | the result is the one way to write the buffer as encoded messages that fit followed by a tail that starts with no whole message |
| WaylandWire.CutAnywhere | src/input.rs:57-70 | cutting a stream and keeping the remainder changes neither messages nor remainder |
| WaylandWire.MessageReadsBackExactlyWhenItFits | src/input.rs:49-70 | a message is parsed as itself exactly when size and opcode fit 16 bits |
| WaylandWire.MessageLayout | src/input.rs:49-56 | a message that fits, byte by byte |
| WaylandWire.AnnouncementReadsBackExactlyWhen | src/input.rs:71-81 | an announced global is read back exactly when the length of its name fits 32 bits |
| WaylandWire.AnnouncementsAreReadExactlyWhen | src/input.rs:71-81 | a body is read as an announcement exactly when its bytes are one, whatever closes the name and follows the version |
| WaylandWire.AnnouncementsPanicExactlyWhen | src/input.rs:71-81 | reading panics exactly when the name has no room for its closing byte or the body none for the padding |
| WaylandWire.TheFirstToSettleDecides | src/input.rs:129-159 | the first error, malformed announcement or callback decides the outcome, with every global announced up to it |
| WaylandWire.NothingSettled | src/input.rs:129-159 | until then every global announced is kept |
| WaylandWire.VirtualPointer.HandleBatch | src/input.rs:142-152 | events are handled in order up to the one that settles the matter |
| WaylandWire.VirtualPointer.RoundtripCollect | src/input.rs:129-159 | the outcome is a function of the bytes received, however the reads cut them |
| AccessibilityWalk.GetState | src/a11y/zbus_impl.rs:94-111 | the set holds exactly the numbers of the set bits |
| AccessibilityWalk.StatesDetermineTheWords | src/a11y/zbus_impl.rs:94-111 | no state is lost or invented: equal states mean equal words |
| AccessibilityWalk.FindElements | src/a11y/zbus_impl.rs:227-263 | visits a beginning of the pre-order, lists exactly its matching nodes in order, honours both caps, stops early only at one, reports truncation exactly when a node was not visited |
| AccessibilityWalk.PreOrderHasEveryNode | src/a11y/zbus_impl.rs:227-263 | the order of the walk is as long as the tree |
| AccessibilityWalk.ChildrenFollowInOrder | src/a11y/zbus_impl.rs:227-263 | a node comes first, and the walk of each child starts where the trees of the earlier ones end |
| AccessibilityWalk.ItemInPlainTerms | src/a11y/zbus_impl.rs:227-263 | whether a node is listed, and as what |
| AccessibilityWalk.ItemsJoin | src/a11y/zbus_impl.rs:227-263 | the list of a walk is the lists of its parts in order |
| ImageSizes.ImageSize | src/screenshot.rs:122-144 | panics exactly on a PNG signature in fewer than 24 bytes; otherwise in bounds, and the size told, or 0 x 0 |
| ImageSizes.DetectDimensions | src/decider/image.rs:67-104 | the size told, if one is; otherwise nothing, and never a panic |
| ImageSizes.MarkersInPlainTerms | src/screenshot.rs:133-137 | which markers start a frame and which have no length |
| ImageSizes.SizeOfThePngHeader | src/screenshot.rs:122-127 | the size written in a PNG header is the one told |
| ImageSizes.SizeOfTheFirstFrame | src/screenshot.rs:122-144 | after any well-formed pieces that are not a frame header, the size in the first frame header is found |
| Percentiles.PercentileSorted | src/browser_runtime/metrics.rs:56-72 | the result is a sample with at least rank samples up to it and fewer below it |
| Percentiles.PercentileOf | src/browser_runtime/metrics.rs:74-81 | the same for samples in any order |
| Percentiles.TheShareIsReached | src/browser_runtime/metrics.rs:56-81 | at least the share of samples asked for is at most the result, and less than that share is below it, unless nothing is |
| Percentiles.PercentileIgnoresOrder | src/browser_runtime/metrics.rs:74-81 | permuting the samples changes nothing |
| Percentiles.PercentileGrows | src/browser_runtime/metrics.rs:56-81 | a higher percentile is never lower |
| Percentiles.RuntimeMetrics.RecordAction | src/browser_runtime/metrics.rs:236-245 | the window drops its oldest sample at the bound; both totals move |
| Percentiles.RuntimeMetrics.Snapshot | src/browser_runtime/metrics.rs:360-370 | p50, p90 and p99 of the window, in ascending order, zero when it is empty |
| HintLabels.GenLabels | assets/hint.js:8-42 | for any charset the i-th label is the i-th word in order of length, then of value in the base of its size |
| HintLabels.LabelReadsBack | assets/hint.js:8-42 | for any distinct charset every label up to the capacity can be read back |
| HintLabels.LabelsRepeat | assets/hint.js:8-42 | past the three-letter labels they repeat with the fourth power of the charset as period |
| HintLabels.DistinctExactlyUpToCapacity | assets/hint.js:8-42 | for any n distinct letters the labels are pairwise distinct exactly up to n + n² + n³ + n⁴ of them |
| HintLabels.HomeRowLabelsAreDistinctExactlyUpTo475254 | assets/hint.js:3-42 | which is 475254 for the letters in use |
| HintLabels.TheLettersAreDistinct | assets/hint.js:3-3 | the letters used are distinct |

Supporting facts, each read off one definition: `Actions.TableMissesOneCancellation`
(src/browser_runtime/action.rs:124-156), `DomDiff.RebuildsEmptyExactlyWhen` and `DomDiff.RecoveryIsReportedExactly`
(src/browser_runtime/dom_diff.rs:189-288), `WaylandWire.StringsAreAligned` (src/input.rs:39-47).

## Left out

- Sockets, the WebSocket codec, HTTP discovery, process spawning, D-Bus, `grim`, `wtype`: input and output.
- JSON parsing and the text scan for an id: a frame arrives classified.
- Attached-session bookkeeping of the dispatcher, call and error counters: no effect on ordering or on who is answered. `interpret_response` only names the kinds of `CallError`; the text of an error is left out.
- Several inserts racing with a clear, and the diffs, runs and resolutions of the other modules under such races: there the operations of the index are atomic.
- When the shutdown begins: in the model at any time, or never. In the code a reader that panics marks nothing dead, and after a panic of the dispatcher the reader does so at the next frame.
- Dropping the last runtime handle while the dispatcher runs: the model's dispatcher runs to its exit.
- Wrap-around of 64-bit counters.
- `resolve_with_runtime`, `recover_with_runtime` and the CDP-backed helpers: they depend on browser answers.
- Frame records, execution contexts, lifecycle and ready state, the target manager: no version depends on them.
- Bounding boxes and the target id of an element: nothing modelled reads them.
- The parsing of inserted node payloads (`parse_dom_node`, `extract_attrs`): payloads arrive parsed.
- Case folding beyond ASCII: `Lower` folds A to Z only.
- Detail and error texts, other than whether cutting them panics and the marker a recovery success is read back from; latencies and timestamps.
- The JavaScript behind dispatching and verifying a step, and `resolve_for_step`: only the calls a dispatch makes and the class of each outcome matter to the state machine. That a deadline interrupts a dispatch after some calls were answered: it counts as uncertain throughout. The branch of `execute_step` for a step that returns without a terminal state cannot be reached and is not modelled.
- The text and value fields of accessible items, and accessible objects that form a cycle: the tree is finite.
- What a JPEG scan tells after fill bytes or segments whose length is below two, beyond staying in bounds.
- Floating-point rounding in percentiles: p and p times N are exact reals.
- Seat, button, axis and timing requests of the virtual pointer; text of an interface name that is not valid UTF-8 stays bytes.
- `trace.rs` ring buffers, the lifecycle permission table, error tags, CLI and tool tables: easy members.
