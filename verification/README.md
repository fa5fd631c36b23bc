# FirstDue console and route search: a Dafny model

FirstDue is an incident-support system for a fire department: a Python backend keeps an append-only
incident log and plans entry routes, and a TypeScript console replicates that log, paces it onto the
screen and asks an officer to sign. This project models the parts of it whose correctness does not
show in any one function, and proves what they keep.

`dafny verify dfyconfig.toml` checks everything. One module a component:

- `PackageHistory`: the backend's log of entry packages and the requests that append to it, each a
  read, a wait and an append, so requests may overlap.
- `PackageReplica`, `PackageProtocol`, `PackageOrder`: the console's copy of that log. `EntryPackages` is one hook
  instance with the refs and states its effects assign; the protocol is a step system over it, with
  stream frames, poll rounds and list reads in flight as snapshots of past logs.
- `PackageApproval`, `ApprovalCard`: the officer's taps, and the card raised once the route is drawn.
- `ActivityStream`, `PacedRelease`: the canonical message list and the timed queue that deals it.
- `Instants`, `SessionFloor`, `FleetLog`: timestamps compared as strings, the once-only floor under
  the counters, and the merged memory of the audit log.
- `RouteDraw`, `WallGeometry`: the timetable of the route drawing, and the walls of the massing model.
- `Pathfinding`, `HonestLegs`: the A* search over a navigation graph, from the priority queue to the
  answer, and exactly when its heuristic can be trusted.
- `SearchOrder`: the order in which the search settles nodes, and which of several least routes it
  therefore comes back by.
- `FaceWalls`, `EntryGraph`, `GraphMeasures`: the walls of a footprint, the graph of a building on
  them, the only one the search is given, and where its places stand and what its legs measure.
- `Perimeter`, `LeastWays`: distances round the outside, and the least cost from a storey to any
  place, worked out from the building alone.
- `SecondWayOut`, `EgressNote`, `PlansThatMislead`: the plan of an entry and an egress, when there is
  an egress and when the note in its place is true, and two footprints whose plans mislead.
- `TokenCache`, `GatewayPaths`, `RoleBindings`: the console's credential, its allowlist of backend
  paths as anchored patterns, and the parser of role bindings.
- `DistrictAddresses`, `BriefLines`: the reference address file, and the dating of brief lines.
- `Options`, `Strings`, `Decimals`, `Sorting`: shared helpers.

Code that changes things step by step is imperative here too (classes for the hook, the modal, the
console, the panel and the credential module; loops in methods), each proved against a function, and
the lemmas are about that function.

Every step system takes its inputs as events: answers, clock readings, mint results and frames are
parameters, and a run is any sequence of them.

## Where the code and its documentation differ

The model follows the code. The lemmas that show each difference are named.

- The console's comments call package progress one-way: "nothing un-signs a half and nothing
  un-sends". The backend does not enforce it (`session.py:3124-3172`): it signs a signed half again,
  and a request that read before another appended can drop a signature or take back a send.
  `OneWayRuns` says exactly when a run is one-way. The poll's promise to bring every package level
  needs less, since it stops once a package is sent: `ConvergesExactlyWhenForward` gives its exact
  condition.
- The card is said to be raised once per package. It is raised at most once in each incident
  (`RaisedAtMostOnce`); a package during whose draw another becomes the awaiting one, and later stops
  being it, is never raised (`RaisedExactlyWhenUninterrupted`). Two late frames of the stream are
  enough (`FlapIsReachable`, `FlapLosesACard`).
- The heuristic is called admissible because no leg costs less than its own length; that needs the
  length not to undercut the straight line as well (`ConsistentForEveryGoalExactly`,
  `TrustedExactly`). The search does not check it; every graph the builder makes has it
  (`LegsAreHonest`).
- The comment on frontier ties says the entry that covered more ground is preferred; the tuple order
  prefers the one that covered less (`LessGroundIsPopped`).
- A plan with no egress notes that every face but the entry's is absent or barred. A face that is
  neither is left out too when a way out by another door and round to its approach is cheaper than
  by its own (`NoteIsTrueExactly`, `OfferedExactly`; an input, `HotFaceIsLeftOut`).
- A second way out is said not to be printed for a building with a single usable opening. Two faces
  can be bound to one edge of the footprint (`OneOpeningExactly`), and then it is
  (`OneWallCountsTwice`; an input, `SecondDoorIsTheFirst`). Their approaches coincide, which the
  builder's comment says is not built (`TwinsAreNotLinked`).
- The package list is documented as being in composed order. It is in the order the console first
  saw each id (`FirstSeenOrderIsKept`), which is that order exactly when each slot was opened in it
  (`ComposedOrderExactly`; an input, `OutOfOrder`).
- The address script is said only ever to add. It drops an unpinned entry the feed no longer gives
  (`IdSurvivesExactly`, `EmptyFeedDropsTheUnpinned`).
- The gateway's longest route is documented as seven segments with one to spare; the approvals route
  has eight, and eight is the limit (`ApprovalsRouteIsTheLimit`; `ForwardedExactly` shows that the
  limit still refuses no route).
- A brief line's key is meant to identify it; two lines can share one (`KeysTellExactly`).
- `CommandCenter.tsx:712-716` relies on the panel scoping counts to the pass in flight; the function
  that would, `currentPass`, has no caller, so nothing is proved about it.

## Model

| member | source | states |
|---|---|---|
| PackageHistory.ListPackages | backend/src/firstdue/incident/packages.py:225-244 | the loop over the log returns each package's last entry, in the order the log first named the ids |
| PackageHistory.OrderMembers | backend/src/firstdue/incident/packages.py:234-244 | the order list holds exactly the ids the log names, each once |
| PackageHistory.SerialIsAfter | backend/src/firstdue/incident/session.py:3133-3160 | a request nothing overlapped is the case of one that read the whole log |
| PackageHistory.ComposingSignsNothing | backend/src/firstdue/incident/session.py:2896-3020 | a composition appends the documents it was given under its id, nothing signed and nothing sent |
| PackageHistory.ApprovingSetsOneHalf | backend/src/firstdue/incident/session.py:3124-3172 | an approval appends the document it read with its own half signed and every other field as it was; none is appended for an id it did not find |
| PackageHistory.SendingSetsOnlySent | backend/src/firstdue/incident/session.py:3174-3228 | a dispatch appends the document it read with only the send set, exactly when both halves are signed, it is unsent and the send permitted; its refusals and their halves are exact too |
| PackageHistory.EveryFieldWasAsked | backend/src/firstdue/incident/session.py:3124-3228 | over every run each log entry carries the documents of a composition of its id, and each signature and send on it is the mark of a request that asked for just that |
| PackageHistory.NothingSentUnsigned | backend/src/firstdue/incident/session.py:3174-3228 | however requests overlap, no log entry is sent without both halves signed |
| PackageHistory.EqualProgressEqualState | frontend/lib/api/entry-packages.ts:195-221 | along a one-way log two entries of one package have equal progress exactly when they are the same document |
| PackageHistory.LatestIsFurthest | backend/src/firstdue/incident/packages.py:247-254 | along a one-way log the last entry of a package is ahead of, or equal to, every other |
| PackageHistory.AppendKeepsOneWay | backend/src/firstdue/incident/session.py:3124-3172 | an accepted request keeps the log one-way exactly when it read the latest document and moved it forward, or wrote the same document again |
| PackageHistory.OneWayRuns | backend/src/firstdue/incident/session.py:3124-3228 | a whole run stays one-way exactly when every request that appended was guarded in that sense |
| PackageHistory.AppendKeepsUnsentOneWay | backend/src/firstdue/incident/session.py:3124-3228 | with sent packages left aside, an accepted request keeps the log one-way exactly when it sends, repeats, signs a sent document, or moves the last unsent document of its package forward |
| PackageHistory.UnsentOneWayRuns | backend/src/firstdue/incident/session.py:3124-3228 | a whole run stays so exactly when every request that appended did |
| PackageHistory.OverlappingSendsStayForward | backend/src/firstdue/incident/session.py:3133-3160 | the two guards differ: two sends that overlap break the first and keep the second |
| PackageHistory.SigningCounts | backend/src/firstdue/incident/packages.py:155-159 | a tap adds one to progress on an unsigned half and nothing on a signed one |
| PackageHistory.SecondSignatureReadsAsNoProgress | backend/src/firstdue/incident/session.py:3133-3160 | signing a half twice is accepted and yields a different document with equal progress |
| PackageHistory.OverlapDropsASignature | backend/src/firstdue/incident/session.py:3133-3160 | two approvals that read the same log: the later append drops the earlier signature |
| PackageHistory.OverlapTakesBackASend | backend/src/firstdue/incident/session.py:3133-3160 | an approval that read before a send and appends after it leaves the package unsent |
| PackageReplica.FoldShape | frontend/lib/api/entry-packages.ts:382-391 | a fold replaces the one slot holding the id, or opens one at the end; every other package and the order stay |
| PackageReplica.PolledShape | frontend/lib/api/entry-packages.ts:235-244 | a poll answer is folded exactly when its package is not held or it is strictly ahead; nothing held is lowered, dropped or reordered |
| PackageReplica.PollRoundNeverLowers | frontend/lib/api/entry-packages.ts:591-597 | the same for a whole round of answers, failures among them |
| PackageReplica.ListRoundShape | frontend/lib/api/entry-packages.ts:511-516 | the list fallback keeps first-seen order and distinct ids, and holds only what it held or was answered |
| PackageReplica.FoldingTheLogIsTheListing | frontend/lib/api/entry-packages.ts:382-391 | folding every log entry in turn gives the backend's own listing, in the same order |
| PackageReplica.SummaryReadsTheSameScale | frontend/lib/api/entry-packages.ts:209-226 | a list row and the document it summarises have the same progress, at most six |
| PackageReplica.EntryPackages.OnIncident | frontend/lib/api/entry-packages.ts:453-462 | a new incident empties every ref and state |
| PackageReplica.EntryPackages.OnEntries | frontend/lib/api/entry-packages.ts:464-490 | the effect's loop leaves exactly the scan of the new frames: folds, triggers, seen sequences and the list request |
| PackageReplica.EntryPackages.Apply | frontend/lib/api/entry-packages.ts:492-494 | a write's answer is folded in unguarded, and nothing else changes |
| PackageReplica.EntryPackages.OnPollAnswers | frontend/lib/api/entry-packages.ts:591-597 | a round's answers are folded in order under the guard, failures skipped |
| PackageReplica.EntryPackages.OnListAnswers | frontend/lib/api/entry-packages.ts:501-518 | the fallback's answers are folded unguarded and the recovery flag is set |
| PackageReplica.ListIsAskedForExactly | frontend/lib/api/entry-packages.ts:464-518 | the list is asked for once more exactly when a new package frame could not be read, and an answered list is marked |
| PackageReplica.BatchesDoNotMatter | frontend/lib/api/entry-packages.ts:464-490 | any batching of frames, replays included, leaves what one pass over the distinct frames leaves |
| PackageReplica.GrowingListIsOnePass | frontend/lib/api/entry-packages.ts:464-490 | feeding prefixes of one growing list, repeats included, equals one pass over the longest |
| PackageReplica.StreamDeliversTheFrames | frontend/lib/api/entry-packages.ts:464-490 | after any batches the packages are the listing of the decoded documents and each trigger is the last non-empty one reported |
| PackageReplica.EmptyTriggerKeepsRecorded | frontend/lib/api/entry-packages.ts:478-488 | frames whose trigger is empty leave a recorded trigger alone |
| PackageProtocol.StepKeepsInv | frontend/lib/api/entry-packages.ts:428-619 | every step of stream, poll, fallback, write and backend keeps held ids distinct, held packages real, and first-seen order |
| PackageProtocol.HeldPackagesAreReal | frontend/lib/api/entry-packages.ts:428-619 | in every reachable state each held package is a log entry of that package, signed before sent |
| PackageProtocol.FirstSeenOrderIsKept | frontend/lib/api/entry-packages.ts:381-391 | over any run the list of held ids only grows at its end |
| PackageProtocol.PollStepsNeverLower | frontend/lib/api/entry-packages.ts:554-615 | no step of the poll lowers a held package's progress, whatever snapshot it carries |
| PackageProtocol.OldAnswerStepsBack | frontend/lib/api/entry-packages.ts:484-494 | the unguarded sources can step back: a reachable state over guarded requests, and a step of it after which a held package is behind where it was |
| PackageProtocol.WantedExactly | frontend/lib/api/entry-packages.ts:580-584 | the poll asks to read exactly the packages not held or on which the listing is ahead |
| PackageProtocol.FullRoundExists | frontend/lib/api/entry-packages.ts:554-602 | from any quiet state such an undisturbed, fully answered round can run |
| PackageProtocol.FullRoundIsPollRound | frontend/lib/api/entry-packages.ts:559-602 | an undisturbed round with every read answered leaves the closed-form poll round of the log |
| PackageProtocol.PollRoundMends | frontend/lib/api/entry-packages.ts:559-597 | a round leaves a package at the backend's latest exactly when it was there or the latest was strictly ahead |
| PackageProtocol.QuietRoundConverges | frontend/lib/api/entry-packages.ts:534-602 | from any reachable quiet state whose requests kept unsent documents in order, overlapping sends among them, one full round leaves every package at the backend's latest |
| PackageProtocol.ListRoundMends | frontend/lib/api/entry-packages.ts:498-522 | the unguarded fallback leaves any holding level with a log at rest, guarded requests or not |
| PackageProtocol.FallbackLevels | frontend/lib/api/entry-packages.ts:498-522 | a fallback that starts, is listed and has every read answered leaves every package at the backend's latest, from any state a run keeps, and marks it |
| PackageProtocol.FallbackExists | frontend/lib/api/entry-packages.ts:498-522 | wherever the list has been asked for, such a fallback can run |
| PackageProtocol.ConvergesExactlyWhenLatestLeads | frontend/lib/api/entry-packages.ts:534-602 | one round converges from every reachable quiet state over the requests exactly when each package's latest document leads every unsent one the log holds of it |
| PackageProtocol.ConvergesExactlyWhenForward | frontend/lib/api/entry-packages.ts:534-602 | it does so at every point of a run exactly when no request that appended fell behind an unsent document: each sent, repeated, signed a sent one, or moved the last unsent one forward |
| PackageOrder.FoldKeepsOrderExactly | frontend/lib/api/entry-packages.ts:382-391 | a fold keeps the list in composed order exactly when it fills a slot, or opens one for an id later in that order than every id held |
| PackageOrder.ComposedOrderExactly | frontend/lib/api/entry-packages.ts:382-391 | over every run the list stands in composed order throughout exactly when every slot a step opened was for an id later in that order than every id then held |
| PackageOrder.OutOfOrder | frontend/lib/api/entry-packages.ts:554-602 | a reachable state out of composed order: a poll round whose first read failed, then the stream |
| PackageApproval.Modal.Grant | frontend/components/incident/EntryPackageModal.tsx:157-174 | one half, one request: what the backend's log, the replica, the notice and the answer become for each way the trip ends |
| PackageApproval.Modal.ApproveBoth | frontend/components/incident/EntryPackageModal.tsx:184-189 | the outstanding halves are signed in order, up to the first request that does not answer |
| PackageApproval.Modal.Release | frontend/components/incident/EntryPackageModal.tsx:191-202 | the send: nothing is folded in unless the backend answered with a document |
| PackageApproval.ReleasedWasSigned | frontend/components/incident/EntryPackageModal.tsx:191-202 | a release answers exactly for a package with both halves signed and a send permitted or already made, and what it hands over is the latest document with only the send set on it |
| PackageApproval.PressStopsAtTheFirstLoss | frontend/components/incident/EntryPackageModal.tsx:184-189 | a press appends one document a half in order, each the last with that half signed, up to the first request not answered, and that one too when only its answer was lost |
| PackageApproval.UnknownSignsNothing | frontend/components/incident/EntryPackageModal.tsx:184-189 | of a package the backend does not have a press signs nothing |
| PackageApproval.ApproveBothReadies | frontend/components/incident/EntryPackageModal.tsx:184-189 | with every request answered, approving what is outstanding leaves the package ready to send, one entry a half |
| PackageApproval.ApproveBothKeepsOneWay | frontend/components/incident/EntryPackageModal.tsx:184-189 | a press keeps the log one-way exactly when none of its halves had been signed meanwhile |
| ApprovalCard.Console.OnRender | frontend/components/CommandCenter.tsx:1919-1936 | the effect re-runs only on a changed id or wait, clears the old timer, and marks the package as its draw starts |
| ApprovalCard.CardWaitsForItsDraw | frontend/components/CommandCenter.tsx:1919-1936 | a package newly shown is marked at once and its card raised at once when nothing is drawn, else exactly when the draw and hold are over |
| ApprovalCard.RenderedAgain | frontend/components/CommandCenter.tsx:1919-1936 | a render with the same id and wait changes nothing; with another of either it takes the timer away, even of a marked package |
| ApprovalCard.NewIncidentStartsOver | frontend/components/CommandCenter.tsx:898-905 | a new incident takes the card down and forgets the marks, so an id of the old one is raised in it anew |
| ApprovalCard.AwaitingIsFirst | frontend/lib/api/entry-packages.ts:617 | the card is for the first package that is unsent and lacks a half |
| ApprovalCard.StepKeepsSound | frontend/components/CommandCenter.tsx:1919-1931 | a raised card was marked first, no card was raised twice, and marks and raises only accumulate |
| ApprovalCard.ForcedRenderRestores | frontend/components/CommandCenter.tsx:898-905 | the render a change of incident forces clears the old timer, and the marks are right again |
| ApprovalCard.RaisedAtMostOnce | frontend/components/CommandCenter.tsx:898-905 | in every run from the blank console each incident, past or on screen, raises each package at most once, however the two sources flap |
| ApprovalCard.RaisedExactlyWhenUninterrupted | frontend/components/CommandCenter.tsx:1919-1936 | a package whose draw has begun is raised exactly when nothing interrupts that draw |
| ApprovalCard.MarkedAndClearedIsNeverRaised | frontend/components/CommandCenter.tsx:1919-1931 | a marked package whose timer was cleared is never raised again in that incident |
| ApprovalCard.FlapIsReachable | frontend/components/CommandCenter.tsx:1882-1936 | requests that each read what they replaced, and steps of the replica, that show the first package signed, folded back by a late frame, and signed again |
| ApprovalCard.FlapLosesACard | frontend/components/CommandCenter.tsx:1919-1936 | rendering those five replicas leaves the second package awaiting approval, and its card is never raised, whatever follows in the incident |
| ActivityStream.SplitExactly | frontend/components/incident/AgentActivity.tsx:188-193 | a reference gives an id and a version exactly when it is the two joined at its last at sign, with a non-empty id |
| ActivityStream.ActorIsAWriter | frontend/components/incident/AgentActivity.tsx:418-425 | without a subject the actor is the first writer besides the recorder, or the recorder if it wrote alone |
| ActivityStream.CreditedToItsReference | frontend/components/incident/AgentActivity.tsx:409-412 | an analysis or a handoff with a reference is credited to its id and version, or to the whole reference when no at sign follows its first character, whoever wrote the entry |
| ActivityStream.CreditedToNoWriter | frontend/components/incident/AgentActivity.tsx:413-419 | a notification is the notifier's; an entry with neither a subject nor a writer, a blank reference included, is unattributed |
| ActivityStream.FocusIsReadInOrder | frontend/components/incident/AgentActivity.tsx:286-306 | an agent is handed the first record naming it: exactly its pointers with a reference, by priority and then reference |
| ActivityStream.TiesKeepTheirOrder | frontend/components/incident/AgentActivity.tsx:286-306 | pointers of one priority and one reference are handed over in the order the record lists them |
| ActivityStream.ContentExactly | frontend/components/incident/AgentActivity.tsx:478-482 | an agent has content exactly when the first record naming it has a headline that is not blank or a pointer with a reference |
| ActivityStream.PushEntry | frontend/components/incident/AgentActivity.tsx:450-501 | one entry's loop pushes its action, then a handoff for each target with content, skipping held ids |
| ActivityStream.ActivityStreamFrom | frontend/components/incident/AgentActivity.tsx:436-508 | the nested loops and the sort compute the specified stream |
| ActivityStream.IdsTellSequences | frontend/components/incident/AgentActivity.tsx:455-482 | messages of entries with different sequences never share an id |
| ActivityStream.HandoffIds | frontend/components/incident/AgentActivity.tsx:455-482 | within one entry an action's id and a handoff's coincide exactly when the writer is named like that handoff, and two handoffs' when the targets are equal |
| ActivityStream.CollectMembers | frontend/components/incident/AgentActivity.tsx:442-501 | what the loop collects is exactly what the entries contribute, each id once |
| ActivityStream.StreamIsExact | frontend/components/incident/AgentActivity.tsx:436-508 | the stream is strictly ordered and holds exactly one action an entry and one handoff a target with content, a taken id excepted |
| ActivityStream.StreamIsNewestFirst | frontend/components/incident/AgentActivity.tsx:503-508 | sequences never rise down the list; within one the action comes first and the handoffs follow by id |
| ActivityStream.EveryMessageIsItsEntrys | frontend/components/incident/AgentActivity.tsx:450-501 | each message carries its entry's sequence and time, an action its actor, a handoff its target's headline and pointers, under the id made of them |
| ActivityStream.StreamIsCanonical | frontend/components/incident/AgentActivity.tsx:503-508 | any reordering or duplication of the log gives the same list |
| ActivityStream.HandoffShownExactly | frontend/components/incident/AgentActivity.tsx:478-499 | whoever wrote the entry, a target's handoff is shown exactly when the writer is not named like its id |
| ActivityStream.ComposedFocusIsShown | backend/src/firstdue/incident/focus.py:487-527 | the composer, a composed focus's one writer, is named like no such id, so every agent the focus has something for is shown its handoff |
| PacedRelease.DelayByDepth | frontend/components/incident/AgentActivity.tsx:563-566 | the wait at every depth: 260, 130, 87, 65, 52 ms and then the 45 ms floor, never longer for a deeper queue |
| PacedRelease.AgentActivity.Queue | frontend/components/incident/AgentActivity.tsx:595-602 | the backward walk lists what is not released, from the end of the newest-first list to its start |
| PacedRelease.PendingIsOldestFirst | frontend/components/incident/AgentActivity.tsx:595-602 | the queue is the unreleased messages, each once, and of any two the earlier in it stands later in the newest-first list |
| PacedRelease.HeadIsOldest | frontend/components/incident/AgentActivity.tsx:595-602 | the head of the queue is an unreleased message after which, in the list, all are released |
| PacedRelease.AgentActivity.Effect | frontend/components/incident/AgentActivity.tsx:615-635 | the deadline is kept for the same head unless the deeper queue brings it nearer |
| PacedRelease.AgentActivity.OnTimer | frontend/components/incident/AgentActivity.tsx:626-633 | a tick releases the head alone and arms the next |
| PacedRelease.AdvanceKeepsArmed | frontend/components/incident/AgentActivity.tsx:604-635 | the timer is always set for the head of the queue, not in the past and at most 260 ms ahead |
| PacedRelease.HeadIsDueExactly | frontend/components/incident/AgentActivity.tsx:604-625 | after any arrival a new head is due a paced wait from now, and the head that already was keeps the earlier of that and what it had |
| PacedRelease.NextHeadWaitsItsTurn | frontend/components/incident/AgentActivity.tsx:626-635 | after a tick the next head waits its own whole turn, for a queue one shorter |
| PacedRelease.TickDealsTheOldest | frontend/components/incident/AgentActivity.tsx:626-633 | each tick shows exactly one message, the unreleased one of greatest index in the list, at the time it was due |
| PacedRelease.DeadlineOnlyMovesEarlier | frontend/components/incident/AgentActivity.tsx:604-625 | while a message stays head, arrivals never move its deadline later, so none waits over 260 ms there |
| PacedRelease.DrainArithmetic | frontend/components/incident/AgentActivity.tsx:556-566 | a queue of n at least six left alone takes 45(n-5)+594 ms in all |
| PacedRelease.QueueDrainsExactly | frontend/components/incident/AgentActivity.tsx:615-635 | with no arrivals the whole queue is shown in exactly that time, from the last of the list to the first |
| PacedRelease.BacklogDrains | frontend/components/incident/AgentActivity.tsx:581-635 | a batch of n at least six arriving on an empty panel is wholly shown, from its last message to its first, after exactly 45(n-5)+594 ms |
| Instants.ClockIsCalendar | frontend/components/fleet/derive.ts:76-98 | microseconds on the clock and the calendar fields order two instants the same way, leap years included |
| Instants.DaysFollowOn | frontend/components/fleet/derive.ts:226-241 | the clock runs one day of microseconds from each calendar day to the next, over the ends of months, years and Februaries |
| Instants.TimeOfDay | frontend/components/fleet/derive.ts:76-98 | an instant is its midnight and the hours, minutes, seconds and microseconds past it |
| Instants.AsWritten | frontend/components/fleet/derive.ts:76-98 | an instant is written field by field with the digits in place, the fraction only where there is one |
| Instants.IsoOrderIsTime | frontend/components/fleet/derive.ts:79-88 | code-unit order of isoformat strings with one offset that sorts before a dot is the order in time, elided fractions included |
| Instants.CompareAtIsChronological | frontend/components/fleet/derive.ts:96-98 | the comparison's sign is the sign of the difference in time, and zero exactly for the same instant |
| Instants.OffsetsThatEmbed | frontend/components/fleet/derive.ts:79-88 | an offset embeds time in string order exactly when its first character sorts before a dot |
| SessionFloor.SessionFloor | frontend/components/fleet/derive.ts:226-241 | the floor is the greatest stamp of both lists, or none when both are empty |
| SessionFloor.FleetReader.constructor | frontend/components/CommandCenter.tsx:698-722 | the session opens anchored exactly when it was handed a log, on that log's newest stamp |
| SessionFloor.FleetReader.OnRead | frontend/components/CommandCenter.tsx:1024-1039 | one read's answer anchors, or gives up anchoring, by the once-only rule |
| SessionFloor.FloorNeverMoves | frontend/components/CommandCenter.tsx:698-722 | in every run the floor is set at most once and never moves after |
| SessionFloor.SessionWorkIsNeverFlooredOut | frontend/components/CommandCenter.tsx:699-719 | nothing the backend wrote after the first pass request falls at or below the floor |
| SessionFloor.AfterMembers | frontend/components/fleet/derive.ts:243-256 | a stamp is counted, as often as it stands on the page, exactly when it comes after the floor |
| SessionFloor.AfterAStampIsTheRest | frontend/components/fleet/derive.ts:243-256 | of a rising log what is after one of its stamps is exactly the rest of the log, in order |
| SessionFloor.AnchorsExactly | frontend/components/CommandCenter.tsx:1024-1039 | the floor is settled by the first answered read, on its newest stamp if it had one, and on nothing once the session set the fleet working |
| SessionFloor.AnchoringReadCountsNothing | frontend/components/fleet/derive.ts:243-256 | the read that anchors the floor counts none of its own entries |
| FleetLog.MergeById | frontend/components/CommandCenter.tsx:310-328 | the loop computes the first record of each id, page before memory, cut to the newest 3000 |
| FleetLog.RemergeChangesNothing | frontend/components/CommandCenter.tsx:302-328 | merging again the page just merged changes nothing, whatever is held |
| FleetLog.FirstRecordStands | frontend/components/CommandCenter.tsx:310-328 | after a read the memory is, in order, the first record of each id among the page and then what was held, cut to 3000 |
| FleetLog.OverlappingPagesLeaveNoGap | frontend/components/CommandCenter.tsx:302-328 | a page reaching back to what is held leaves a gap-free run of the newest entries |
| FleetLog.GapExactlyWhenPagesDoNotMeet | frontend/components/CommandCenter.tsx:302-328 | the result is such a run exactly when the page meets what is held or fills the memory by itself |
| FleetLog.SessionIsAGapFreeRun | frontend/components/CommandCenter.tsx:294-328 | a whole session of in-order overlapping pages holds exactly the newest 3000 of the log from its oldest page's start to its last page's end, newest first |
| RouteDraw.ScheduleFitsTheBudget | frontend/components/StructureModel.tsx:186-205 | for all leg counts the draw takes its legs and gap exactly, at most 1600 ms, and nothing only for an empty overlay or reduced motion |
| RouteDraw.PaceExactly | frontend/components/StructureModel.tsx:186-205 | a leg takes 220 ms where all legs at that pace and the gap fit 1600 ms, and otherwise legs and gap take 1600 ms exactly |
| RouteDraw.CardArrivesInsideTheAllowance | frontend/components/CommandCenter.tsx:1882-1898 | poll, draw and hold come to at most 6600 ms, inside the seven-second allowance, and the wait is zero exactly when nothing is drawn |
| RouteDraw.LegsNeverDecrease | frontend/components/StructureModel.tsx:222-249 | drawn legs and completeness never go back as the clock runs |
| RouteDraw.EgressWaits | frontend/components/StructureModel.tsx:238-246 | no egress leg is drawn before the entry is whole and the gap has passed |
| RouteDraw.DrawnExactly | frontend/components/StructureModel.tsx:222-249 | at any time each statement's drawn legs times the pace are the time since its own start, held between nothing and its whole; the egress has begun exactly from that start on |
| RouteDraw.CompleteExactlyWhenWhole | frontend/components/StructureModel.tsx:207-249 | complete holds exactly when both routes are whole |
| WallGeometry.SignedArea | frontend/components/StructureModel.tsx:466-473 | the loop over the ring computes the shoelace sum of the closed path |
| WallGeometry.EdgesOf | frontend/components/StructureModel.tsx:462-493 | the three loops give the mean, and one outward edge about it for each wall long enough |
| WallGeometry.EdgesAreTheLongWalls | frontend/components/StructureModel.tsx:476-491 | the edges are the walls of five centimetres and more, each once, in ring order, moved by the centre, their normals the wall turned right on a ring of non-negative area and left on the others |
| WallGeometry.TotalAdds | frontend/components/StructureModel.tsx:463-464 | the vertices' total is the sum of any two parts' totals, down to one vertex |
| WallGeometry.CentredBalances | frontend/components/StructureModel.tsx:463-482 | about its centre a footprint balances: its vertices sum to the origin |
| WallGeometry.ShoelaceIgnoresTranslation | frontend/components/StructureModel.tsx:466-473 | the sum does not depend on where the parcel lies |
| WallGeometry.ShoelaceIgnoresFirstVertex | frontend/components/StructureModel.tsx:466-473 | nor on the vertex the ring is listed from |
| WallGeometry.ShoelaceTurnsWithTheRing | frontend/components/StructureModel.tsx:458-473 | listing the ring the other way negates it |
| WallGeometry.NormalIgnoresDirection | frontend/components/StructureModel.tsx:458-490 | a wall listed either way faces the same side exactly when the ring has area |
| WallGeometry.NormalIgnoresFirstVertexAndPlace | frontend/components/StructureModel.tsx:466-490 | its normal does not change with the first vertex or the parcel's place |
| WallGeometry.StarRingsWind | frontend/components/StructureModel.tsx:466-473 | the sum never has the sign opposite to the side on which a ring runs round a point that sees all its walls |
| WallGeometry.ConvexRingsWind | frontend/components/StructureModel.tsx:466-473 | nor to the side a convex ring was listed on |
| WallGeometry.NormalsPointAway | frontend/components/StructureModel.tsx:487-489 | on a ring with area whose walls are all seen from one point, that point is in front of none of them |
| WallGeometry.NormalsPointOutward | frontend/components/StructureModel.tsx:487-489 | on a convex ring with area no vertex lies in front of any wall |
| WallGeometry.LShapeIsStarShaped | frontend/components/StructureModel.tsx:466-489 | an L-shaped parcel is no convex ring, and has such a point |
| WallGeometry.NormalsClose | frontend/components/StructureModel.tsx:475-491 | length-weighted normals sum to zero exactly when the dropped short walls lead nowhere, so in particular when none is dropped |
| WallGeometry.OpeningOffsets | frontend/components/StructureModel.tsx:496-506 | the loop gives one offset an opening, none when the wall is too short |
| WallGeometry.CountExactly | frontend/components/StructureModel.tsx:499 | as many openings as the pitch lets into the wall less 1.2 m, but always one |
| WallGeometry.StepIsWideEnough | frontend/components/StructureModel.tsx:497-500 | with pitch at least the item width, the step is too, and the steps fill the usable length |
| WallGeometry.OpeningsFit | frontend/components/StructureModel.tsx:496-506 | openings are evenly spaced, mirrored about the midpoint, not overlapping, and clear of 0.6 m at each end |
| WallGeometry.NeighboursClearExactly | frontend/components/StructureModel.tsx:496-506 | neighbouring openings do not overlap exactly when the step is no narrower than the item |
| WallGeometry.NarrowPitchOverlaps | frontend/components/StructureModel.tsx:497-504 | with a pitch below the item width they can: an instance, which the one caller's pitch and width do not meet |
| Pathfinding.CostAtLeastLength | backend/src/firstdue/incident/pathfinding.py:118-126 | no leg costs less than its length |
| Pathfinding.CostByWeights | backend/src/firstdue/incident/pathfinding.py:117-126 | a bare leg costs its length, and each weight adds that share of its length |
| Pathfinding.TotalsAdd | backend/src/firstdue/incident/pathfinding.py:354-366 | the cost and the ground of a walk are those of its legs, added up |
| Pathfinding.TriangleInequality | backend/src/firstdue/incident/pathfinding.py:74-78 | the three-dimensional distance obeys the triangle inequality |
| Pathfinding.ConsistentForEveryGoalExactly | backend/src/firstdue/incident/pathfinding.py:225-228 | the straight-line heuristic is consistent for every goal exactly when no leg undercuts the straight line across it |
| Pathfinding.PoppedIsFinal | backend/src/firstdue/incident/pathfinding.py:269-276 | with a consistent heuristic a popped new node's score is the least cost of any walk to it |
| Pathfinding.SearchKeeps | backend/src/firstdue/incident/pathfinding.py:260-302 | wherever the search ends its scores are costs of walks read back through the predecessors, and least under a consistent heuristic |
| Pathfinding.SearchIsRight | backend/src/firstdue/incident/pathfinding.py:260-302 | reached means a walk of that cost, exhausted means no walk at all, ceiling means over 20,000 nodes settled |
| Pathfinding.LessGroundIsPopped | backend/src/firstdue/incident/pathfinding.py:263-266 | of two frontier entries with one estimate the one that covered less ground is popped |
| Pathfinding.Reconstruct | backend/src/firstdue/incident/pathfinding.py:321-327 | the backward loop returns the unique leg list the predecessors read back |
| Pathfinding.NodeIdsInOrder | backend/src/firstdue/incident/pathfinding.py:354-366 | the nodes of an answer are those its legs leave and enter, from start to goal |
| Pathfinding.RelaxEdges | backend/src/firstdue/incident/pathfinding.py:283-293 | the relaxation loop over one node's legs, by strict improvement only |
| Pathfinding.Explore | backend/src/firstdue/incident/pathfinding.py:260-302 | the main loop runs the specified search and counts the nodes it settled |
| Pathfinding.AStar | backend/src/firstdue/incident/pathfinding.py:231-302 | every answer is a real walk with its cost and length, or a true reason; cheapest without the heuristic, and with it when no leg undercuts the straight line, which every graph built satisfies (`EntryGraph.LegsAreHonest`) |
| Pathfinding.RefusedExactlyWhenUnreachable | backend/src/firstdue/incident/pathfinding.py:295-302 | within the ceiling a route is found exactly when one exists |
| Pathfinding.HeuristicNeverChangesTheCost | backend/src/firstdue/incident/pathfinding.py:240-242 | where no leg undercuts the straight line, the searches with and without the heuristic find a route together and at one cost |
| Pathfinding.AdjacencyIgnoresBuildOrder | backend/src/firstdue/incident/pathfinding.py:163-178 | a node's legs, repeats aside, come in one order whatever order the graph was built in, and pricing the repeats changes nothing |
| Pathfinding.OneRoutePerGraph | backend/src/firstdue/incident/pathfinding.py:163-178 | one set of legs gives one answer, node for node, whatever the build order and however often a leg is listed |
| SearchOrder.ExpansionKeepsOrdered | backend/src/firstdue/incident/pathfinding.py:266-293 | with a consistent heuristic nodes are settled in the order of estimate, ground covered and id: nothing popped later comes before |
| SearchOrder.EarliestTightLegWins | backend/src/firstdue/incident/pathfinding.py:283-293 | of all least ways into the goal the search comes back by the one whose last leg leaves from the node settled first |
| HonestLegs.TrustedExactly | backend/src/firstdue/incident/pathfinding.py:225-228 | the search with the heuristic finds the cheapest route on a graph and on all its extensions by honest legs exactly when no leg of the graph undercuts the straight line |
| EntryGraph.NamesTell | backend/src/firstdue/incident/entrypath.py:823-1011 | no two places of a building share a node id |
| EntryGraph.BuildGraph | backend/src/firstdue/incident/entrypath.py:787-1029 | the builder's loops make exactly the graph of the building's places and joins, and none without a wall or a storey |
| GraphMeasures.CoresStand | backend/src/firstdue/incident/entrypath.py:836-847 | the stairwell is plumb: each storey's core as far above the last as that storey is high |
| GraphMeasures.ApproachStands | backend/src/firstdue/incident/entrypath.py:863-878 | an approach stands its standoff out along its wall's normal |
| GraphMeasures.DoorStands | backend/src/firstdue/incident/entrypath.py:880-895 | a door stands on its wall's midpoint, at ground level |
| GraphMeasures.RoomStands | backend/src/firstdue/incident/entrypath.py:913-935 | a first room stands in from its wall by half the way to the core, held between 0.5 m and 2 m |
| GraphMeasures.ApparatusStands | backend/src/firstdue/incident/entrypath.py:964-977 | the apparatus stands off the first wall, 8 m beyond its approach |
| GraphMeasures.RunIsCodeRun | backend/src/firstdue/incident/entrypath.py:1000-1003 | the run of a flight is the lesser of half the rise at the code's pitch with half a landing, and the room there is |
| GraphMeasures.LandingStands | backend/src/firstdue/incident/entrypath.py:1000-1013 | a landing stands along the stair's axis by the code's run or the room there is, whichever is less, halfway up its storey |
| GraphMeasures.LegsAreMeasured | backend/src/firstdue/incident/entrypath.py:849-1027 | every leg of the graph joins two places that adjoin, with its length and weights: a flight the longer of the straight line and its rise at the code's pitch, a door's leg the standoff with that wall's crossing, a room's its setback, any other the straight line |
| GraphMeasures.LegsAreThereExactly | backend/src/firstdue/incident/entrypath.py:849-1027 | two places have a leg exactly when they adjoin and it is a flight, a door's, or between different points |
| EntryGraph.LegsAreHonest | backend/src/firstdue/incident/entrypath.py:849-1027 | no leg of any graph built is cheaper than the straight line across it |
| EntryGraph.ParallelLegsAgreeHere | backend/src/firstdue/incident/entrypath.py:945-956 | legs between the same two places are the same leg, as the ring of two approaches lists them twice |
| EntryGraph.WayBack | backend/src/firstdue/incident/entrypath.py:849-854 | every walk can be walked back at the same cost |
| EntryGraph.EntersByAnOpenDoor | backend/src/firstdue/incident/entrypath.py:863-939 | every walk from outside to inside crosses the door of a wall that was not barred |
| EntryGraph.ThereAndBackCostTheSame | backend/src/firstdue/incident/entrypath.py:849-854 | between any two places the cheapest way there and the cheapest way back cost the same |
| FaceWalls.FindAlpha | backend/src/firstdue/domain/geometry.py:283-311 | the loop finds the bearing of the longest edge, the lowest of equals |
| FaceWalls.AlphaExactly | backend/src/firstdue/domain/geometry.py:283-317 | Alpha exists exactly when the ring has three corners and an edge of some length, and is the bearing of an edge that every other is shorter than, or as long as with no lower bearing |
| FaceWalls.BearingsTurn | backend/src/firstdue/domain/geometry.py:319-330 | each face looks a quarter turn clockwise of the one before, and the distance between two bearings is the lesser way round |
| FaceWalls.FindEdge | backend/src/firstdue/incident/entrypath.py:458-472 | the loop finds a face's edge, the first of the longest within the tolerance |
| FaceWalls.Walls | backend/src/firstdue/incident/entrypath.py:438-492 | each face in turn on its edge, if it has one; none at all for what is no ring |
| FaceWalls.BoundExactly | backend/src/firstdue/incident/entrypath.py:447-453 | a face is bound to an edge exactly when that is within its tolerance and none such is longer, or as long and earlier |
| FaceWalls.WallsAreSound | backend/src/firstdue/incident/entrypath.py:475-491 | the walls come in fireground order, with unit normals, each within the tolerance of its face's bearing |
| FaceWalls.BindHasFace | backend/src/firstdue/incident/entrypath.py:452-453 | a face has a wall exactly when some edge is within its tolerance |
| FaceWalls.FaceHasAnEdge | backend/src/firstdue/incident/entrypath.py:447-453 | and some edge is exactly when one of positive length faces within 55 degrees of it |
| FaceWalls.OppositeFacesDiffer | backend/src/firstdue/domain/geometry.py:313-320 | no edge is within the tolerance of two faces opposite each other |
| FaceWalls.OneOpeningExactly | backend/src/firstdue/incident/entrypath.py:438-492 | two faces have one opening exactly when one edge is the best within the tolerance of both |
| Perimeter.ViaThrough | backend/src/firstdue/incident/entrypath.py:945-979 | the distance round the outside obeys the triangle inequality over the legs there are, coinciding places included |
| Perimeter.AroundRuns | backend/src/firstdue/incident/entrypath.py:945-979 | and is walked |
| LeastWays.ReachExactly | backend/src/firstdue/incident/entrypath.py:863-1027 | the least cost from any storey to any place, worked out from the building: there is a walk exactly when it gives a cost, one walk has it, and none is below |
| LeastWays.ReachedExactlyByAUsableWall | backend/src/firstdue/incident/entrypath.py:863-1027 | a storey is reached from the apparatus exactly when a wall that is not barred and has a leg to the core can be come to round the outside |
| LeastWays.ReachedExactlyByAnOpenWall | backend/src/firstdue/incident/entrypath.py:863-1027 | so exactly when some wall was not barred, if no open wall's room is at the core or its approach at the apparatus |
| LeastWays.EntryRoute | backend/src/firstdue/incident/entrypath.py:1173-1184 | the route in is the cheapest there is, at the cost the building says, through a door that was not barred; refused exactly when there is no way |
| SecondWayOut.CheapestWayOut | backend/src/firstdue/incident/entrypath.py:1201-1219 | the loop gives the cheapest, ties to the first face, of the routes that pass their own face's door |
| SecondWayOut.LeavesByItsOwnDoor | backend/src/firstdue/incident/entrypath.py:1195-1200 | a least route to an approach that passes that face's door leaves by it, in its last leg |
| SecondWayOut.Plan | backend/src/firstdue/incident/entrypath.py:1142-1238 | refused for want of geometry exactly without a wall or the storey asked for; else the cheapest entry, and an egress only by the door of another wall, neither barred, that it leaves by in its last leg |
| SecondWayOut.PassingADoorCosts | backend/src/firstdue/incident/entrypath.py:902-910 | a least route that passes a door costs at least the leg between that door and its approach |
| EgressNote.OfferedExactly | backend/src/firstdue/incident/entrypath.py:1211-1215 | a search for an approach comes back by the face's own door exactly when its wall is usable, no way out by another door and round is cheaper, and of those as cheap none has its last spot settled before the door: told from the building, ties included |
| EgressNote.NoSecondWayOutExactly | backend/src/firstdue/incident/entrypath.py:1202-1227 | there is no second way out exactly when no face the entry did not use meets that |
| EgressNote.EgressExactly | backend/src/firstdue/incident/entrypath.py:1215-1219 | the egress is the cheapest of the faces that do, the first of equals, at the cost of the stairs and that way out |
| EgressNote.NoteIsTrueExactly | backend/src/firstdue/incident/entrypath.py:1220-1227 | a plan without an egress says the truth of the other faces exactly when there is no candidate; a plan says nothing false exactly when there is none or one meets the condition |
| EgressNote.TwinsAreNotLinked | backend/src/firstdue/incident/entrypath.py:849-852 | two faces on one stretch of wall have coinciding approaches, and no leg is built between them |
| EgressNote.OneWallCountsTwice | backend/src/firstdue/incident/entrypath.py:1202-1219 | where one stretch of wall is two faces and the only opening, the second way out is the other face's, by the same door |
| PlansThatMislead.SquareIsWalled | backend/src/firstdue/incident/entrypath.py:438-492 | the four walls of a square footprint, north first |
| PlansThatMislead.HotFaceIsLeftOut | backend/src/firstdue/incident/entrypath.py:1220-1227 | on that footprint, with one face hot and two barred, the plan has an entry and no egress, and its note is false of the hot face |
| PlansThatMislead.SecondDoorIsTheFirst | backend/src/firstdue/incident/entrypath.py:1195-1219 | on a footprint with a cut corner, its one opening, every plan that gets in has a second way out, by the door of the first |
| TokenCache.BackendAuth.Begin | frontend/lib/api/backend-auth.ts:152-163 | up to the await: the cached token if its expiry is more than 300,000 ms ahead, or the one outstanding mint, started only if there is none |
| TokenCache.BackendAuth.Finish | frontend/lib/api/backend-auth.ts:163-181 | after the await: the minted token is cached, else the unexpired one, else the static one, else unavailable |
| TokenCache.StepKeepsInv | frontend/lib/api/backend-auth.ts:57-58 | every call, settlement and resumption keeps one mint outstanding at most and every answer justified by its own mint and the cache it saw |
| TokenCache.EveryInterleavingIsSafe | frontend/lib/api/backend-auth.ts:138-182 | under every interleaving: one mint at most, served tokens minted and unexpired on their call's clock, refusals only when the call's own mint failed and no cached token was unexpired |
| TokenCache.EveryAnswerIsInTime | frontend/lib/api/backend-auth.ts:152-181 | over every run a cached token is served with more than 300,000 ms left, or with some left after its call's mint failed; a refusal or the static token means the cache was empty or its token expired by the call's clock |
| TokenCache.AnsweredAtOnceExactly | frontend/lib/api/backend-auth.ts:152-160 | a call is answered before its await exactly when the cached token's expiry is more than 300,000 ms ahead, and else waits from that instant |
| TokenCache.CacheIsWhatCameLast | frontend/lib/api/backend-auth.ts:163-181 | the cache changes on a resumption whose mint succeeded, to that token, and on nothing else |
| TokenCache.RefusedExactly | frontend/lib/api/backend-auth.ts:170-181 | over every run a call is refused exactly when at its resumption its mint had failed, no cached token was unexpired on its clock, and there is no static token |
| TokenCache.BurstCostsOneMint | frontend/lib/api/backend-auth.ts:156-163 | a burst of any number of calls starts at most one mint, and none when one is out |
| GatewayPaths.MatchIsPositional | frontend/lib/api/gateway-allowlist.ts:91-192 | an anchored pattern accepts a joined path exactly when the segments fit its template position by position |
| GatewayPaths.PathIsUnique | frontend/lib/api/gateway-allowlist.ts:226 | slash-free segment lists that join to one path are equal |
| GatewayPaths.ForwardedIsWhatWasAsked | frontend/lib/api/gateway-allowlist.ts:194-239 | whatever the tables, a returned path splits back into the asked-for segments and holds no query, escape, colon, backslash or run of dots |
| GatewayPaths.InternalOnlyForReads | frontend/lib/api/gateway-allowlist.ts:228-238 | whatever the tables, an internal path is returned exactly for a listed GET of one of the three audit views |
| GatewayPaths.ForwardedExactly | frontend/lib/api/gateway-allowlist.ts:220-239 | the console's gateway returns a path exactly for safe segments that fit one of its routes; neither the length bound nor the internal gate refuses a present route |
| GatewayPaths.TilesAreForwarded | frontend/lib/api/gateway-allowlist.ts:118-124 | a terrain tile is read by one or two digits of zoom and one to seven of each coordinate |
| GatewayPaths.ApprovalsRouteIsTheLimit | frontend/lib/api/gateway-allowlist.ts:29-34 | a route of as many segments as the limit allows, forwarded |
| GatewayPaths.SharedByBothMethods | frontend/lib/api/gateway-allowlist.ts:17-18 | the only path listed for both methods is an incident's entry-package collection |
| RoleBindings.Parse | backend/src/firstdue/settings.py:86-127 | the loop with its early raises computes the fold over the entries, first fault first |
| RoleBindings.EntryReadsExactly | backend/src/firstdue/settings.py:97-119 | an entry is blank, grants a role, has an unknown one or is malformed exactly by what stands before and after its first colon, trimmed and in small letters |
| RoleBindings.AcceptedExactly | backend/src/firstdue/settings.py:97-127 | parsing succeeds exactly when every non-blank entry is well formed and no principal gets two roles, and then binds exactly the grants made |
| RoleBindings.OrderAndRepeatsDoNotMatter | backend/src/firstdue/settings.py:86-127 | order, repeats and blank entries change neither success nor the bindings |
| RoleBindings.FaultIsTheFirst | backend/src/firstdue/settings.py:100-126 | a refusal names the first entry at which the setting stops being acceptable, and the reason true of it |
| RoleBindings.CaseDoesNotMatter | backend/src/firstdue/settings.py:96-108 | letter case changes neither success nor the bindings |
| RoleBindings.RoundTrip | backend/src/firstdue/settings.py:86-127 | printing any printable bindings, in any order and with repeats, and parsing gives them back |
| RoleBindings.ExpressibleExactly | backend/src/firstdue/settings.py:86-127 | the bindings some setting can express are exactly those of known roles to trimmed, lower-case principals with an at sign and no comma or colon |
| DistrictAddresses.Build | scripts/build_district_addresses.py:160-193 | the two loops and the sort produce the specified document |
| DistrictAddresses.SameIdExactly | scripts/build_district_addresses.py:75-81 | two rows share an id exactly when their trimmed numbers have the same value and their trimmed streets agree character by character, up to case and a space for a hyphen |
| DistrictAddresses.IdSpellsTheRow | scripts/build_district_addresses.py:75-81 | a row has an id exactly when it has a number in digits and a street: the number on four places or more, no zero before a fifth, then the street with small letters for capitals and hyphens for spaces |
| DistrictAddresses.PinnedIsLast | scripts/build_district_addresses.py:163-166 | of the pinned entries under one id the last stands |
| DistrictAddresses.EntriesExactly | scripts/build_district_addresses.py:162-185 | an entry is in the file exactly if it is a pinned one unchanged, or the first usable row of an id no pinned entry holds |
| DistrictAddresses.FirstUsableIsFirst | scripts/build_district_addresses.py:168-172 | the row taken for an id is usable and no earlier one is |
| DistrictAddresses.IdsAreSortedAndUnique | scripts/build_district_addresses.py:187-193 | ids come in code-point order, none twice |
| DistrictAddresses.BuildIsIdempotent | scripts/build_district_addresses.py:160-193 | building again from the same rows over the result gives the same document |
| DistrictAddresses.IdSurvivesExactly | scripts/build_district_addresses.py:47-68 | an id already in the file survives exactly when it is pinned or the feed still has a usable row for it |
| DistrictAddresses.EmptyFeedDropsTheUnpinned | scripts/build_district_addresses.py:47-68 | a feed that comes back empty drops every unpinned entry |
| BriefLines.TrackItems | frontend/components/incident/BriefPanel.tsx:87-99 | the three nested loops compute the specified map |
| BriefLines.FirstSeenIsLeast | frontend/components/incident/BriefPanel.tsx:79-99 | a line is tracked exactly when some emission carries it, as the emission of least version carries it, whatever order they arrived in |
| BriefLines.ArrivalOrderDoesNotMatter | frontend/components/incident/BriefPanel.tsx:87-99 | the dates are the same for every order and repetition of the emissions |
| BriefLines.TrackedAlikeInAnyOrder | frontend/components/incident/BriefPanel.tsx:87-99 | with one emission a version the whole map, items and stages too, is the same for every order and repetition |
| BriefLines.RedatedExactly | frontend/components/incident/BriefPanel.tsx:82-84 | one more emission re-dates a line exactly when it carries it under a smaller version |
| BriefLines.JustArrivedExactly | frontend/components/incident/BriefPanel.tsx:166-175 | a shown line is marked exactly when this is not the first version and no earlier one carried it |
| BriefLines.KeysTellExactly | frontend/components/incident/BriefPanel.tsx:75-77 | lines under two headings never share a key, whatever their values, exactly when neither heading's key part is a prefix of the other's |
| BriefLines.ColonFreeKeysTell | frontend/components/incident/BriefPanel.tsx:75-77 | without colons in sections and labels a key tells section, label and value |
| BriefLines.CollidingKeysHideALine | frontend/components/incident/BriefPanel.tsx:58-77 | with colons two lines can share a key, and the new one arrives unmarked: an instance |

## Left out

- Rendering, audio, focus handling and camera work; the words built by `describeEntry` and
  `facetsForEntry`, kept as an opaque field of the entry.
- HTTP, timeouts and abort signals: a request is an event with an answer, a failure or none.
- Floating point: times, lengths and costs are exact reals, so the clamp against a rounding hair in
  the route timetable and the rounding of a route's totals are not visible. Normals are not scaled to
  unit length, and the arc tangent of a wall is not modelled.
- ActivityStream.StreamIsCanonical: `localeCompare` is any strict total order that puts "action"
  before "handoff"; ICU collation is not modelled.
- ActivityStream.ActivityStreamFrom: priorities are integers and `per_agent` records are already
  read into fields; the coercions of malformed JSON are not modelled.
- PackageProtocol.QuietRoundConverges: one incident and one officer's console; a second console is
  seen only as further requests in the log.
- PackageProtocol.StepKeepsInv: React renders between steps are a step of their own; the batching of
  several state updates into one render is not modelled.
- PackageReplica.EntryPackages.OnEntries: a frame comes with its document read or unreadable; the
  three fields that decide which are not modelled.
- PackageHistory.AppendKeepsOneWay: the two approval records and the analysis entries written beside
  a package are left out; the gateway's policy decision on a send is an input.
- Pathfinding.AStar: the `avoided` explanations and barrier texts of each leg are left out, and a leg
  whose end is not a node, which raises a key error in the code, is excluded by `Valid`.
- EntryGraph.BuildGraph: the weights a wall's crossing and a storey carry, whether a wall is barred,
  the core point, the stair's axis and room, and the sine and tangent of its pitch are inputs; the
  reading of thermal, obstruction and structural records into weights, and the centroid, are not
  modelled.
- FaceWalls.Walls: the arc tangent is any compass that is right on five directions and indifferent
  to scale.
- EntryGraph.LegsAreHonest: lengths are exact reals, so a rounding hair between a leg's length and
  the straight line is not visible.
- EgressNote.OfferedExactly: graphs past the search's ceiling, of some ten thousand storeys, are
  excluded.
- SecondWayOut.Plan: the words of a refusal, and the explanations, waypoints and coordinates of a route are left out.
- ApprovalCard.RaisedAtMostOnce: a change of incident is followed by the render it forces; no timer
  fires between the two.
- WallGeometry.NormalsPointAway: rings none of whose points sees all the walls are not covered.
- FleetLog.SessionIsAGapFreeRun: pages are assumed to be answered in order; the standby and fleet
  polls can overlap.
- SessionFloor.SessionWorkIsNeverFlooredOut: backend stamps are assumed strictly increasing, as its
  clock is meant to be.
- TokenCache.EveryInterleavingIsSafe: one audience, always configured; the static token served when there is none,
  and parsing the expiry out of a token, are left out.
- RoleBindings.CaseDoesNotMatter: lower-casing covers the ASCII letters only; `str.lower` of other
  scripts is not modelled.
- DistrictAddresses.SameIdExactly: digits are the ten ASCII ones; `isdigit` accepts more, on which
  `int` may raise. Lower-casing is ASCII here too.
- DistrictAddresses.Build: an entry's display text, coordinates, parcel reference and outline are one
  opaque function of the row.
- GatewayPaths.MatchIsPositional: a pattern is the sequence of its pieces with their regular
  languages; the engine's search is not modelled.
- `parse_service_accounts` and `parse_live_sources`: order-preserving filters that add only easy
  members.
- `currentPass`, `passBuckets`, `audienceRows`, `recorderLedger`, `terminalLines`: folds over the
  floored log with no invariant across calls.
- The backend's conflict rules, readiness criteria, policy gateway and storage adapters.
