# Nobox agent seat: a verified model

Nobox is a window manager with a private socket, the agent seat, over which a companion process may
look at the desktop and act on it. This project models the parts of it that carry state or a protocol,
and proves what they promise.

- `ObjectGraph`, `Walk`, `Projection`: the disposable helper's walk of an accessible object graph, which
  may have cycles and shared children. The walk is breadth-first with a visited set, a process filter, a
  depth cut, a scan budget and offset paging.
- `RootCorrelation`: which accessible window belongs to an authorized client, written once in Rust and
  once in Python.
- `SemanticTree`, `ManagerState`, `Issued`, `Completion`: the manager's opaque node handles and continuations,
  as values and as the objects that are updated in place, what each one handed out resolves to later, which
  pages are answered, and that a continuation is served once.
- `Pipeline`, `Reassembly`, `Discovery`, `Locating`: both processes together. An honest helper's pages are
  always accepted, following continuations reassembles the whole walk, a helper that discovered its root is
  honest, and which objects a page can start from.
- `EventQueue`, `AgentPolicy`, `Noninterference`, `Secrecy`, `SessionAccount`, `AgentStateObject`: per-session
  event streams, who perceives which client, what a session can learn from one operation and from two runs,
  and its account among all others.
- `SeatTransport`: the acceptor, the reader threads, the bounded inbox and the event loop as a machine
  whose steps are the threads' atomic actions.
- `HelperRunner`: the thread that runs one helper at a time, with a log read back by a small protocol.
- `LineReader`, `Codec`, `Base64`, `EventPoll`: the streaming and framing loops of the wire and the companion.
- `SessionRestore`, `Ordering`, `DesktopScan`, `DesktopCatalog`: session matching, the desktop-file scan and
  desktop-application precedence.

Loops and objects of the source are methods and classes here. Each is proved against a function of its
inputs or of its old state, and the laws are lemmas about those functions. What an answer contains is stated a
second time, from the objects, the desktop or the announcements themselves (`ObjectGraph.Reports`,
`Projection.Asked`, `Reassembly.RecountsAll`, `AgentPolicy.ShownAs`, `SessionAccount.Announcements`,
`SeatTransport.Truthful`), and proved of the functions. `dafny verify dfyconfig.toml`
checks everything.

Where the code and its own words or the obvious expectation part:

- `decode` of `base64.rs` is documented to refuse padding anywhere but at the end. It accepts a pad before
  a symbol in the last quad and ignores stray low bits. `Base64.DecodesExactly` states exactly what it
  accepts, and `Base64.ReencodesExactlyWhenCanonical` when that is what the encoder writes.
- A session whose reader thread cannot start is announced and never ended (`nobox-agent-seat/src/lib.rs:628-630`).
  The session law therefore allows at most one ending rather than exactly one. `SeatTransport.ASessionIsLost`
  is such a run, `SeatTransport.LostSessionsNeverEnd` says that it stays that way, and
  `SeatTransport.StoryEndsExactlyWhen` says exactly which stories end.
- Visibility only ratchets toward the more private value, but only while it is remembered: once `forget_client`
  drops the record, the policy answers that exactly the unscoped sessions perceive the client
  (`Noninterference.ForgettingUncovers`). No desktop holds it by then, and `Secrecy.HiddenMightNeverHaveBeen`
  says that a hidden client leaves no session a trace.
- `freeze_all` overwrites a revoked status, and `resume_all` then makes it active (`AgentPolicy.RevokedComesBack`).
  `AgentPolicy.RevocationLastsExactly` says exactly when revocation lasts.
- Tree generations start over once a client is forgotten, so a handle kept across that can name another
  object (`ManagerState.ForgottenHandleAliases`). `Issued.HandlesAliasExactlyWhen` says exactly when it does.
- Continuation numbers start over with every new tree and carry no generation, so one kept across a second root
  call can resume another object's walk without any forget (`Completion.ContinuationsAliasAcrossRoots`).
  `Completion.AliasingTakesANewTree` says that it takes a new tree.
- A page read from a handle can show objects too deep below the matched root for any page to start from
  (`Locating.ShownButOutOfReach`). `Locating.HandleIsLocatableExactly` says which handles can be read from.
- Session matching is not transitive. The exact condition under which a lookup is unambiguous is
  `SessionRestore.UnambiguousExactlyWhenPinned`.
- A requeued event is indistinguishable from an owed notice when it is itself a start-over event
  (`EventQueue.BounceRestores`).
- The Python probe bounds process ids by 2^31 - 1 and the Rust helper by 32 bits. `RootCorrelation.ProbeAgrees`
  says exactly where they differ.
- A desktop identifier does not determine a path, because a dash and a folder boundary look alike
  (`DesktopScan.TwoFilesOneIdentifier`). `DesktopScan.IdentifierDeterminesExactlyWhen` says exactly when it does.
- A snapshot can name an unperceived client as the parent link of one it describes, and in no other place
  (`AgentPolicy.SnapshotNamesOnlyPerceived`).

## Model

| member | source | states |
|---|---|---|
| ObjectGraph.BoundedText | crates/agent-semantic-helper/src/main.rs:194-206 | the text cut back to the last character boundary within the name bound, or nothing when that leaves nothing |
| ObjectGraph.BoundedName | crates/agent-semantic-helper/src/main.rs:194-206 | a short name is kept whole; a long one is cut to its longest prefix within the bound that ends on a character boundary, or dropped when that is empty |
| ObjectGraph.StatesFrom | crates/agent-semantic-helper/src/main.rs:262-325 | exactly the states that hold, in the strictly ascending order the manager later insists on |
| ObjectGraph.ProjectedBounds | crates/agent-semantic-helper/src/main.rs:431-466 | bounds are never empty, stay in their integer ranges, and adding the origin gives the reported extents back |
| ObjectGraph.BoundedNameReports | crates/agent-semantic-helper/src/main.rs:194-206 | a reported name is the object's own up to 512 bytes, else as much of it as ends before a byte that starts a character, and is absent when nothing is left |
| ObjectGraph.StatesFromReports | crates/agent-semantic-helper/src/main.rs:262-325 | each of the twenty portable states is reported exactly under its own flag, disabled and offscreen exactly without theirs |
| ObjectGraph.ProjectedBoundsReport | crates/agent-semantic-helper/src/main.rs:431-466 | bounds are reported exactly when the extents are non-empty and every number fits, as the extents less the origin |
| Walk.RegistersExactlyWithoutCollision | crates/agent-semantic-helper/src/main.rs:343-360 | registration succeeds exactly for a named object with a non-zero identity that no other registered object has, and then records it |
| Walk.ExaminesExactly | crates/agent-semantic-helper/src/main.rs:508-515 | exactly when a popped object is admitted, skipped or breaks the walk, and what admission records |
| Walk.WalkIsSound | crates/agent-semantic-helper/src/main.rs:503-558 | however a walk ends, every admitted object is in the target process, within depth, new, no shallower than those before it and listed by an earlier parent one level up; a finished walk forgot nothing |
| Walk.BreadthFirst | crates/agent-semantic-helper/src/main.rs:503-558 | on any graph, cycles and shared children included, a finished walk admits each target-process object reachable within the depth exactly once, at its shortest distance, with its parent earlier and one level up |
| Walk.OrderIsExact | crates/agent-semantic-helper/src/main.rs:503-558 | the exact order of any walk, finished or not: it takes the root and then child by child of visit by visit what it is offered, passing over exactly what is not the target's or was taken before |
| Walk.VisitHasPath | crates/agent-semantic-helper/src/main.rs:503-558 | every admitted object is reached by a path of exactly its depth |
| Walk.PathIsVisited | crates/agent-semantic-helper/src/main.rs:503-558 | every object on a short enough path is admitted no deeper than the path |
| Projection.LocatesExactlyTheWalk | crates/agent-semantic-helper/src/main.rs:393-429 | below a matched root, a subtree can be located again exactly when the full walk admits it, and then as the same object |
| Projection.SeekFollowsDrain | crates/agent-semantic-helper/src/main.rs:393-429 | locating the i-th object of a walk costs exactly the scan budget of the i objects before it and its own |
| Projection.HitEndIsFull | crates/agent-semantic-helper/src/main.rs:599-601 | a search page holds at most its maximum and exactly its maximum whenever more of the walk follows |
| Projection.NodeIsBounded | crates/agent-semantic-helper/src/main.rs:545-554 | a projected node keeps its identity, parent and depth and meets every bound the manager checks again |
| Projection.NodeTells | crates/agent-semantic-helper/src/main.rs:535-555 | a node can be built exactly when its object answers every call, and then carries the object's own role, name, states, bounds and child count and its place in the walk |
| Projection.MatchesExactly | crates/agent-semantic-helper/src/main.rs:561-573 | a node is a hit exactly when its folded name holds the folded wanted name somewhere, its role is listed or none is, and it has every wanted state |
| Projection.HitsAreAsked | crates/agent-semantic-helper/src/main.rs:632-645 | the hits are exactly the nodes asked for, in their order |
| Projection.HitEndIsAHit | crates/agent-semantic-helper/src/main.rs:599-601 | a full search page stops right after its last hit |
| Projection.ProjectionScan.Inspect | crates/agent-semantic-helper/src/main.rs:370-373 | succeeds exactly while the scan budget is not spent |
| Projection.ProjectionScan.IsTargetProcess | crates/agent-semantic-helper/src/main.rs:376-391 | the cached answer is the one the bus gives |
| Projection.ProjectionScan.RegisterObject | crates/agent-semantic-helper/src/main.rs:343-360 | registers an identity or fails on a collision, changing nothing |
| Projection.LocateProjectionRoot | crates/agent-semantic-helper/src/main.rs:393-429 | the loop finds what a breadth-first search finds and leaves the scan it leaves |
| Projection.ProjectSubtree | crates/agent-semantic-helper/src/main.rs:481-559 | the loop returns exactly the window of the walk that offset and page size name, with a successor exactly when more follows; it is answered exactly when its objects answer, and each node tells of its object |
| Projection.SearchSubtree | crates/agent-semantic-helper/src/main.rs:575-649 | the loop returns exactly the nodes asked for from the offset up to a full page, each telling of its object, with the visit to go on from |
| RootCorrelation.Select | crates/agent-semantic-helper/src/lib.rs:471-485 | the indices of the candidates that pass, all of them and in order |
| RootCorrelation.MatchedMeans | crates/agent-semantic-helper/src/lib.rs:456-507 | matched at an index exactly when valid, complete evidence makes it the only exact candidate, or the only eligible one of a known size for a single client |
| RootCorrelation.CorrelatesExactly | crates/agent-semantic-helper/src/lib.rs:456-507 | from the reports alone: matched is the only shown, live candidate of the target's own processes at one of its rectangles, or the only one at all for a single client of that size; ambiguous is two of the target's own without a match |
| RootCorrelation.MatchedHasOrigin | crates/agent-semantic-helper/src/main.rs:468-479 | every match has a projection origin: the client's first rectangle if the candidate stands at one of them, else the candidate's own |
| RootCorrelation.StatusIsCounted | crates/agent-semantic-helper/src/lib.rs:456-507 | on valid evidence the status depends only on three counts |
| RootCorrelation.StatusIgnoresOrder | crates/agent-semantic-helper/src/lib.rs:456-507 | permuting candidates never changes the status |
| RootCorrelation.StatusIgnoresIneligible | crates/agent-semantic-helper/src/lib.rs:472-481 | adding ineligible candidates within the bound never changes the status |
| RootCorrelation.ProbeCorrelate | tools/agent-a11y-probe.py:181-214 | the second implementation's loop computes its status from the same three counts |
| RootCorrelation.ProbeAgrees | tools/agent-a11y-probe.py:115-214 | the two implementations answer alike exactly unless otherwise valid evidence names a process id above 2^31 - 1 |
| SemanticTree.NewTree | crates/nobox-agent-semantic/src/lib.rs:249-261 | a fresh tree names its root 1 and is well formed |
| SemanticTree.IssueKeeps | crates/nobox-agent-semantic/src/lib.rs:274-288 | a new continuation is fresh, at most 64 stay live, and only the oldest is evicted and only at 64 |
| SemanticTree.RetireKeeps | crates/nobox-agent-semantic/src/lib.rs:478-480 | retiring a used continuation drops exactly that one and keeps every name and every other cursor |
| SemanticTree.AnsweredTreeMovesOn | crates/nobox-agent-semantic/src/lib.rs:478-487 | an answered tree page uses up exactly its own continuation, makes its next one live under a number never used before, and pushes out another only as the oldest of 64 |
| SemanticTree.AnsweredSearchMovesOn | crates/nobox-agent-semantic/src/lib.rs:545-550 | the same for an answered search page |
| SemanticTree.RefusedTreeKeepsCursors | crates/nobox-agent-semantic/src/lib.rs:445-475 | a refused tree page leaves every continuation alone, or starts the tree over one generation later when the root changed |
| SemanticTree.RefusedSearchKeepsCursors | crates/nobox-agent-semantic/src/lib.rs:515-525 | the same for a refused search page |
| SemanticTree.NameNodesKeeps | crates/nobox-agent-semantic/src/lib.rs:459-477 | naming a page keeps the two id maps mutually inverse over exactly 1 up to the next number, even when it stops at an unknown parent |
| SemanticTree.NameMatchesKeeps | crates/nobox-agent-semantic/src/lib.rs:526-544 | naming search results keeps the same |
| SemanticTree.WithPublicKeeps | crates/nobox-agent-semantic/src/lib.rs:263-272 | an object keeps its number once it has one and a new object gets an unused one |
| ManagerState.RunKeepsWellFormed | crates/nobox-agent-semantic/src/lib.rs:299-572 | over any run of completions, refreshes and forgets, every tree stays well formed |
| ManagerState.HandleLifetime | crates/nobox-agent-semantic/src/lib.rs:332-340 | until forgotten, a handle a tree knows resolves to its object while its generation is current and is stale afterwards |
| Issued.RepliesAreGrounded | crates/nobox-agent-semantic/src/lib.rs:395-564 | whatever page the helper sent, every handle and parent of a successful reply stands for the object it was shown for, and its continuation for where the page stopped |
| Issued.IssuedHandleLifetime | crates/nobox-agent-semantic/src/lib.rs:332-340 | from the reply that showed it until its key is forgotten, a handle resolves to its object while its generation is current and is stale afterwards |
| Issued.IssuedContinuationLifetime | crates/nobox-agent-semantic/src/lib.rs:322-374 | within the generation of the reply that carried it, a continuation resumes exactly where its page stopped, by a call of its own kind, or is stale |
| Issued.AliasingTakesAForget | crates/nobox-agent-semantic/src/lib.rs:319-340 | no run makes a shown handle mean another object without forgetting its tree |
| Issued.HandlesAliasExactlyWhen | crates/nobox-agent-semantic/src/lib.rs:319-340 | over any run, forgets included, a kept handle is answered with another object exactly when it is aliased, else with its own, or refused |
| ManagerState.ContinuationLifetime | crates/nobox-agent-semantic/src/lib.rs:322-374 | within one generation a live tree or search continuation resolves to exactly its cursor, by a call of its own kind, and an evicted one is stale |
| Completion.UsedIsUsedUp | crates/nobox-agent-semantic/src/lib.rs:478-480 | once a page that resumed from a continuation is answered, the continuation is stale, at once and over every later run of that generation without a forget |
| Completion.ServedOnce | crates/nobox-agent-semantic/src/lib.rs:319-331 | a continuation a call was prepared from and answered, whatever happened in between, is never served again in that generation |
| Completion.LiveSourceEvictsNothing | crates/nobox-agent-semantic/src/lib.rs:274-288 | answering from a live continuation costs no other continuation its place |
| Completion.AliasingTakesANewTree | crates/nobox-agent-semantic/src/lib.rs:322-331 | a kept continuation resumes something else only after its tree was forgotten or replaced by a later one |
| Completion.ContinuationsAliasAcrossRoots | crates/nobox-agent-semantic/src/lib.rs:249-261 | a concrete run without a forget in which continuation 1 first resumes the walk of object 7 and later that of object 9 |
| Completion.TreePageAnsweredExactly | crates/nobox-agent-semantic/src/lib.rs:445-477 | a tree page is answered exactly when it is for the current tree, fits its request and each of its parents is known or stands earlier on it |
| Completion.SearchPageAnsweredExactly | crates/nobox-agent-semantic/src/lib.rs:515-525 | a search page is answered exactly when it is for the current tree, fits its request and holds only nodes that were asked for |
| Completion.ValidProjectionExactly | crates/nobox-agent-semantic/src/lib.rs:614-653 | the page check passes exactly pages of the right size and successor whose nodes stand one level below any parent on the page |
| Completion.NamesExactlyKnownParents | crates/nobox-agent-semantic/src/lib.rs:459-477 | a page is named through exactly when each parent is known already or stands earlier on it |
| Completion.RepliesAreBounded | crates/nobox-agent-semantic/src/lib.rs:945-975 | whatever parses of a helper's answer, a reply shows at most 128 nodes behind distinct handles, with short names, ascending states, non-empty bounds and depth up to 16 |
| Completion.RootReplyIsBounded | crates/nobox-agent-semantic/src/lib.rs:405-433 | a root reply is given exactly for a match without nodes and shows the matched record as node 1 |
| ManagerState.RunMovesForward | crates/nobox-agent-semantic/src/lib.rs:299-572 | an unforgotten tree only gains names within a generation, or moves to a later generation |
| ManagerState.ForgottenHandleAliases | crates/nobox-agent-semantic/src/lib.rs:409-420 | a concrete run in which one handle resolves to object 7 and, after a forget, to object 9 |
| ManagerState.CheckProjection | crates/nobox-agent-semantic/src/lib.rs:614-653 | the filling loop accepts exactly the pages whose nodes step down from recorded parents within every bound |
| ManagerState.CheckNodes | crates/nobox-agent-semantic/src/lib.rs:956-975 | the collecting loop accepts exactly the bounded lists of distinct, well-formed nodes |
| ManagerState.LiveTree.constructor | crates/nobox-agent-semantic/src/lib.rs:249-261 | an object of a fresh tree |
| ManagerState.LiveTree.Reset | crates/nobox-agent-semantic/src/lib.rs:448-450 | replaces the tree in place by a fresh one |
| ManagerState.LiveTree.PublicId | crates/nobox-agent-semantic/src/lib.rs:263-272 | the in-place naming is the naming of the specification |
| ManagerState.LiveTree.IssueContinuation | crates/nobox-agent-semantic/src/lib.rs:274-288 | the in-place issue is the issue of the specification |
| ManagerState.LiveTree.NamePage | crates/nobox-agent-semantic/src/lib.rs:459-477 | names a page in order and gives up exactly at a parent nobody named |
| ManagerState.LiveTree.NameResults | crates/nobox-agent-semantic/src/lib.rs:526-544 | names search results in order, leaving unknown parents out |
| ManagerState.LiveTree.FinishTree | crates/nobox-agent-semantic/src/lib.rs:445-503 | completes a tree page as specified: stale, refreshed, refused or answered; an answer uses up its own continuation and no other but the oldest of 64 |
| ManagerState.LiveTree.FinishSearch | crates/nobox-agent-semantic/src/lib.rs:515-561 | completes a search page as specified, moving the continuations the same way |
| ManagerState.SemanticState.Prepare | crates/nobox-agent-semantic/src/lib.rs:299-392 | answers what the tree issued earlier, and changes nothing |
| ManagerState.SemanticState.Finish | crates/nobox-agent-semantic/src/lib.rs:395-564 | one completion changes the stored trees exactly as specified and no other tree |
| ManagerState.SemanticState.Forget | crates/nobox-agent-semantic/src/lib.rs:566-568 | drops exactly one client's trees |
| ManagerState.SemanticState.ForgetAll | crates/nobox-agent-semantic/src/lib.rs:570-572 | drops exactly one session's trees |
| Pipeline.HonestTreePageAccepted | crates/nobox-agent-semantic/src/lib.rs:614-653 | every page a walk produces for a valid request passes the decoder's and the manager's checks, and its next offset is one the helper accepts again, given a matched root with a valid record |
| Discovery.DiscoveredIsHonest | crates/agent-semantic-helper/src/main.rs:683-801 | a root that was discovered and strictly matched is in the target processes and its record passes the decoder |
| Discovery.DiscoveredReports | crates/agent-semantic-helper/src/main.rs:683-801 | a discovered root is a shown, live top-level owned by the target's processes, and its record says what that top-level reports, relative to the origin the match calls for |
| Discovery.CandidatesExactly | crates/agent-semantic-helper/src/main.rs:672-738 | there is evidence exactly when at most 64 top-levels were found, each with a known owner and extents that fit |
| Discovery.DiscoveredPagesAccepted | crates/agent-semantic-helper/src/main.rs:651-801 | every tree or search page of a discovered root passes the decoder's and the manager's checks, with nothing assumed of the root's record |
| Pipeline.HonestSearchPageAccepted | crates/nobox-agent-semantic/src/lib.rs:655-675 | the same for every search page, the manager's own re-match of the query included |
| Pipeline.RequestIsAccepted | crates/agent-semantic-helper/src/lib.rs:112-163 | the manager's request, with a projection or a search attached, passes the helper's check exactly when its rectangles are distinct and non-empty and what is attached is within the bounds listed |
| Discovery.PreparedRequestIsAccepted | crates/nobox-agent-semantic/src/lib.rs:312-385 | whatever a legal tree or search call prepares, first page or continued, becomes a request the helper accepts |
| Reassembly.PreparedIsGrounded | crates/nobox-agent-semantic/src/lib.rs:312-384 | a legal call that prepares asks only for objects of the walk, at offsets inside it |
| Reassembly.NamingSucceeds | crates/nobox-agent-semantic/src/lib.rs:459-477 | every parent of an honest page is named already, on this page or an earlier one |
| Reassembly.HonestPageCompletes | crates/nobox-agent-semantic/src/lib.rs:434-504 | an honest page is always answered, never refused, and each handle resolves to the object its node stands for |
| Reassembly.HonestMatchesComplete | crates/nobox-agent-semantic/src/lib.rs:505-562 | an honest search page is always answered, and its handles resolve likewise |
| Reassembly.TreePagesReassemble | crates/agent-semantic-helper/src/main.rs:481-559 | following continuations with any page sizes yields exactly the first s of the n nodes of the breadth-first walk, each once, in order, with its parent and with what its object reports; it ends exactly when s reaches n |
| Reassembly.SearchPagesReassemble | crates/agent-semantic-helper/src/main.rs:575-649 | following search continuations with any page sizes yields the walked objects that were asked for, in order and each once, with what they report |
| Reassembly.RootedPagesReassemble | crates/nobox-agent-semantic/src/lib.rs:405-433 | from a root reply on, whatever tree there was before, any page sizes yield the walk of the matched object and what its objects report |
| Reassembly.NamedNodesAreRevealed | crates/nobox-agent-semantic/src/lib.rs:459-477 | whatever the page, naming it through gives every node and parent a handle that resolves to it |
| Locating.LocatableExactly | crates/agent-semantic-helper/src/main.rs:393-429 | an object can be located exactly when the deepest walk of the matched root admits it |
| Locating.HandleIsLocatableExactly | crates/agent-semantic-helper/src/main.rs:490-502 | a handle's page can start exactly when its object is in the deepest walk of the matched root |
| Locating.ShownButOutOfReach | crates/agent-semantic-helper/src/main.rs:393-429 | a concrete chain in which one page shows an object no page can start from |
| EventQueue.BounceRestores | crates/nobox-core/src/agent.rs:622-653 | popping and requeueing restores the subscription exactly unless the queue's head is itself a start-over event |
| EventQueue.AnnounceKeeps | crates/nobox-core/src/agent.rs:552-591 | publishing an event, kept or overflowing, keeps the account and the stamps |
| EventQueue.DeliverKeeps | crates/nobox-core/src/agent.rs:622-636 | delivering one event keeps the account and the stamps |
| EventQueue.DrainIsDeliveries | crates/nobox-core/src/agent.rs:597-616 | taking everything is delivering one at a time until nothing is left |
| EventQueue.AccountIsExact | crates/nobox-core/src/agent.rs:552-653 | over any run since subscribing, delivered events are the published ones in order, each start-over notice stands for exactly the number it states, queued plus owed covers the rest, the queue stays within 512 and is empty while a notice is owed |
| EventQueue.WholeUntilFull | crates/nobox-core/src/agent.rs:573-590 | no event is dropped before 512 have been published |
| EventQueue.SubscribingStartsTheAccount | crates/nobox-core/src/agent.rs:497-506 | a fresh subscription owes nothing |
| SessionAccount.MoveIsAStep | crates/nobox-core/src/agent.rs:515-653 | every operation of the whole policy state is one step of a session's stream or nothing to it, and hands over and publishes exactly what that step does |
| SessionAccount.SessionAccountIsExact | crates/nobox-core/src/agent.rs:497-653 | from a session's subscription on, in any run of the whole policy state, exactly the announcements of the kinds it asked for and of those always sent, about what it may perceive, reach it; what it was handed, what is queued and what it is owed account for them |
| SessionAccount.NothingIsLostUntilFull | crates/nobox-core/src/agent.rs:564-636 | while no more than 512 events have reached a session, it was handed all of them but those that still wait, in order |
| SessionAccount.WaitingIsHandedOver | crates/nobox-core/src/agent.rs:597-636 | a delivery hands something over exactly while something waits or is owed, and a drain leaves nothing |
| AgentPolicy.Describe | crates/nobox-core/src/agent.rs:734-781 | a client is described exactly to sessions that perceive it, with its own geometry, workspace, flags, generation and parent link |
| AgentPolicy.SnapshotNamesOnlyPerceived | crates/nobox-core/src/agent.rs:785-833 | a snapshot describes, stacks and focuses only perceived clients, describes every managed one, and names an unperceived client exactly as the parent link of one it describes |
| AgentPolicy.SnapshotShowsExactly | crates/nobox-core/src/agent.rs:734-833 | a snapshot lists the perceivable managed clients in management order, each described in full, and the perceivable stack in its own order, whole when all of it is perceivable; counter, outputs, workspaces and focus are the desktop's |
| AgentPolicy.TitlesAreGuarded | crates/nobox-core/src/agent.rs:747-764 | a title is shown exactly for a client that is not redacted, to a session that may read titles |
| AgentPolicy.VisibilityRatchets | crates/nobox-core/src/agent.rs:366-402 | over any run a client's visibility only moves toward the more private until it is forgotten |
| AgentPolicy.HiddenStaysUnperceived | crates/nobox-core/src/agent.rs:366-447 | a hidden client stays absent from every session until it is forgotten |
| AgentPolicy.PerceivingChangesExactly | crates/nobox-core/src/agent.rs:241-447 | after any operation a session may perceive a client exactly as the operation and the state before say, operation by operation |
| AgentPolicy.GenerationsCountTouches | crates/nobox-core/src/agent.rs:412-431 | a known client's generation counts its changes, whatever else happens, until it is forgotten |
| AgentPolicy.ObservingMakesKnown | crates/nobox-core/src/agent.rs:375-393 | observing makes a client known, at generation 1 or where it was, at the more private of two levels |
| AgentPolicy.ActionsAreNumbered | crates/nobox-core/src/agent.rs:255-264 | within one session the next action number counts the actions issued |
| AgentPolicy.StatusesChangeExactly | crates/nobox-core/src/agent.rs:241-364 | only status operations change a session's status, and resuming wakes only the frozen |
| AgentPolicy.RevokedExactlyUntilReinstated | crates/nobox-core/src/agent.rs:241-364 | a revoked session stays revoked by a step exactly when the step sets neither its nor every status to another one, and neither reopens nor closes it |
| AgentPolicy.RevocationLastsExactly | crates/nobox-core/src/agent.rs:241-364 | over a run, a revoked session stays revoked throughout exactly when no step reinstates it |
| AgentPolicy.FreezingReinstates | crates/nobox-core/src/agent.rs:301-315 | freezing and resuming all sessions brings any revoked one back as it was |
| AgentPolicy.RevokedComesBack | crates/nobox-core/src/agent.rs:301-315 | a concrete run from the empty state in which a revoked session ends active with its grant |
| Noninterference.UnnoticedExactlyWhen | crates/nobox-core/src/agent.rs:375-447 | an operation naming an unperceived client leaves the policy's answers to a session alone exactly unless it forgets the client of an unscoped session or puts a shown client in scope |
| Noninterference.ForgettingUncovers | crates/nobox-core/src/agent.rs:396-402 | after forgetting an unperceived client the policy answers that exactly the unscoped sessions perceive it; no desktop holds it by then |
| Noninterference.ObservingUncovers | crates/nobox-core/src/agent.rs:375-393 | observing brings an unperceived client into view for exactly the sessions it puts in scope, unless it is or becomes hidden |
| Noninterference.ObservingAgreesExactlyWhen | crates/nobox-core/src/agent.rs:375-393 | the exact condition under which observing an unperceived client in two runs leaves them agreeing on it |
| Noninterference.ObservingThePerceivedAgrees | crates/nobox-core/src/agent.rs:375-393 | observing a client perceived in both runs always leaves them agreeing |
| Noninterference.GrantingAgreesExactlyWhen | crates/nobox-core/src/agent.rs:241-273 | giving a session the same grant in both runs keeps them agreeing exactly when they agree on every client the grant covers |
| Noninterference.CommonKeepsView | crates/nobox-core/src/agent.rs:241-402 | an operation of both runs keeps the session's view of them the same exactly under a condition on the states before it |
| Noninterference.UnseenKeepsView | crates/nobox-core/src/agent.rs:241-591 | operations on other sessions or on clients unperceived before and after change nothing the session has |
| Noninterference.SnapshotsAgree | crates/nobox-core/src/agent.rs:734-833 | states with the same view and desktops that look the same through it give the same snapshot |
| Noninterference.UnperceivedIsAbsent | crates/nobox-core/src/agent.rs:433-447 | to a session that does not perceive it, a client is as absent as one that was never managed |
| Secrecy.CommonKeepsApart | crates/nobox-core/src/agent.rs:241-591 | an operation of both runs keeps them alike to the session, secret clients apart, under a condition on the states before it |
| Secrecy.AloneKeepsApart | crates/nobox-core/src/agent.rs:375-591 | what one run does alone with a secret client, bringing it into existence and forgetting it included, changes nothing else the session has |
| Secrecy.SnapshotsAgreeApart | crates/nobox-core/src/agent.rs:734-833 | states and desktops that look alike secrets apart give the same snapshot, while the secret clients they hold are unperceived |
| Secrecy.RunsAreIndistinguishable | crates/nobox-core/src/agent.rs:10-13 | two runs that differ only in what a session cannot notice, among it whether and how secret clients exist, give it the same sequence, queue, deliveries and snapshot, by conditions read off the states before each turn |
| Secrecy.UnshownMightNeverHaveBeen | crates/nobox-core/src/agent.rs:10-13 | a client whose changes were announced only while a session did not perceive it leaves that session the record, deliveries and snapshot of the run without it |
| Secrecy.HiddenMightNeverHaveBeen | crates/nobox-core/src/agent.rs:10-13 | a client observed as hidden when it appears is, to every session scoped or not, indistinguishable from one that never existed, while it lives and after it is forgotten |
| Noninterference.AnnouncementsAreFiltered | crates/nobox-core/src/agent.rs:515-591 | a change to an unperceived client moves neither the session's sequence nor its queue |
| AgentStateObject.AgentState.Open | crates/nobox-core/src/agent.rs:241-252 | opens a session as specified |
| AgentStateObject.AgentState.SetGrant | crates/nobox-core/src/agent.rs:267-273 | replaces a grant and nothing else of the session |
| AgentStateObject.AgentState.SetAllStatuses | crates/nobox-core/src/agent.rs:330-339 | sets every status, a revoked one's included, and reports exactly the changed sessions |
| AgentStateObject.AgentState.PublishEvents | crates/nobox-core/src/agent.rs:564-591 | queues each event as specified, one after the other |
| AgentStateObject.AgentState.TouchObserversOf | crates/nobox-core/src/agent.rs:552-558 | advances exactly the observers' counters |
| AgentStateObject.AgentState.Pop | crates/nobox-core/src/agent.rs:622-636 | hands over the next event or the owed notice |
| AgentStateObject.AgentState.Requeue | crates/nobox-core/src/agent.rs:639-653 | puts an event or a notice back |
| AgentStateObject.AgentState.TakeAll | crates/nobox-core/src/agent.rs:597-616 | one owed notice that clears the backlog, or the drained queue in order |
| AgentStateObject.AgentState.Observe | crates/nobox-core/src/agent.rs:375-393 | ratchets visibility and records scope membership |
| AgentStateObject.AgentState.Forget | crates/nobox-core/src/agent.rs:396-402 | drops visibility, generation and scope membership |
| AgentStateObject.AgentState.Touch | crates/nobox-core/src/agent.rs:424-431 | advances one client's generation |
| SeatTransport.NoWakeupIsLost | crates/nobox-agent-seat/src/lib.rs:164-183 | under any interleaving, a message waits only while a wake, a waker or the loop is on its way, and the loop is woken at most once per drain |
| SeatTransport.FullInboxIsTaken | crates/nobox-agent-seat/src/lib.rs:177-183 | while the inbox is full some internal step is always enabled and only a bounded number can pass before the loop takes a message, so senders are never stranded |
| SeatTransport.SomeoneCanMove | crates/nobox-agent-seat/src/lib.rs:167-183 | a waiting message always leaves someone an internal step to make |
| SeatTransport.SessionsAreToldInOrder | crates/nobox-agent-seat/src/lib.rs:521-631 | under any interleaving the loop sees of each session one connection, its frames in wire order and at most one ending, the wire's own, or a connection and a refusal; while open, nothing sent is missing |
| SeatTransport.StoryEndsExactlyWhen | crates/nobox-agent-seat/src/lib.rs:521-631 | while the seat is open, what was sent about a session ends exactly when its refusal was sent or its reader sent the last message of its wire |
| SeatTransport.LosingIsForGood | crates/nobox-agent-seat/src/lib.rs:628-630 | a session is lost exactly when its reader cannot start, or with the acceptor after closing, and stays lost |
| SeatTransport.LostSessionsNeverEnd | crates/nobox-agent-seat/src/lib.rs:628-630 | once its reader could not start, the loop never sees more of a session than its connection, whatever follows |
| SeatTransport.ASessionIsLost | crates/nobox-agent-seat/src/lib.rs:521-631 | a concrete run that loses a session |
| SeatTransport.SessionsAreDistinct | crates/nobox-agent-seat/src/lib.rs:541-549 | no two connections carry one session id |
| SeatTransport.UninterruptedDelivery | crates/nobox-agent-seat/src/lib.rs:177-183 | left alone, the steps of one delivery do what the delivering method does |
| SeatTransport.UninterruptedDrain | crates/nobox-agent-seat/src/lib.rs:292-299 | left alone, the steps of one drain take the inbox in order |
| SeatTransport.SeatContext.Wake | crates/nobox-agent-seat/src/lib.rs:167-172 | calls the manager exactly when the flag was clear |
| SeatTransport.SeatContext.Deliver | crates/nobox-agent-seat/src/lib.rs:176-183 | appends the message and wakes the loop |
| SeatTransport.SeatContext.TakeInbound | crates/nobox-agent-seat/src/lib.rs:292-299 | returns the whole inbox in order, with the flag cleared |
| HelperRunner.LogBalances | crates/nobox-agent-semantic/src/lib.rs:689-783 | every start is answered once, dropped while active by its own cancellation, a stop or a hang-up, or still owed; at most one helper is alive and at most one directory exists |
| HelperRunner.ReapedBeforeTheNext | crates/nobox-agent-semantic/src/lib.rs:739-775 | each helper is reaped before the next is spawned |
| HelperRunner.FinishedRunsAreSettled | crates/nobox-agent-semantic/src/lib.rs:689-713 | a finished run owes no answer and leaves no helper and no directory |
| HelperRunner.UndisturbedWorkIsAnswered | crates/nobox-agent-semantic/src/lib.rs:715-783 | starts of a generation nobody cancels, stops or hangs up on are all answered |
| HelperRunner.AnsweredExactly | crates/nobox-agent-semantic/src/lib.rs:715-783 | an undisturbed attempt is answered with the helper's output exactly when it had its directory, started, and exited with success while every earlier look found it running and in time |
| HelperRunner.Runner.Run | crates/nobox-agent-semantic/src/lib.rs:689-713 | takes commands in order, follows the protocol to its end, leaves commands behind only after a stop, and tries nothing without a helper |
| HelperRunner.Runner.RunOne | crates/nobox-agent-semantic/src/lib.rs:715-783 | one attempt follows the protocol from its start to idle or done on every failure path, and if it answers, then with the helper's output exactly when the child ended well in time |
| HelperRunner.Runner.Wait | crates/nobox-agent-semantic/src/lib.rs:736-773 | polls until exit, failure, deadline, cancellation or stop, refusing other starts, and reports success exactly of a child that ended well in time |
| LineReader.ReadLine | crates/nobox-agent/src/main.rs:1168-1207 | for every chunking, one line of the remaining bytes judged by the bound, the carriage return and the decoder, the reader left at the next line, never more than the bound held |
| LineReader.JudgedExactly | crates/nobox-agent/src/main.rs:1168-1207 | over 1048576 bytes a line is too long; else it is its text, less exactly one carriage return at the end, or not text |
| LineReader.LinesStayAligned | crates/nobox-agent/src/main.rs:1168-1207 | each line, oversized and undecodable ones included, is judged alone and the next starts clean |
| LineReader.NothingIsSkipped | crates/nobox-agent/src/main.rs:1168-1207 | every input is whole lines and an unterminated rest, so the law covers all inputs |
| LineReader.Serve | crates/nobox-agent/src/main.rs:1110-1158 | the server answers lines until the first that does not decode, the end, or a failing source, skipping blank ones |
| LineReader.ServesUntilUndecodable | crates/nobox-agent/src/main.rs:1110-1158 | on sound input the server answers exactly the lines that are not blank before the first that does not decode |
| LineReader.TextsComeBack | crates/nobox-agent/src/main.rs:1168-1207 | well-formed lines come back unchanged, with or without carriage returns |
| Codec.IncomingMaxIsTight | crates/nobox-agent-wire/src/codec.rs:50-134 | a direction's allocation bound admits every message of the direction and is the limit of one of them |
| Codec.LengthOfPrefix | crates/nobox-agent-wire/src/codec.rs:234-234 | the big-endian prefix reads back as the length |
| Codec.PrefixesCompareAsLengths | crates/nobox-agent-wire/src/codec.rs:278-278 | prefixes compare byte by byte as their lengths do, the most significant byte first |
| Codec.DefaultBounds | crates/nobox-agent-wire/src/codec.rs:37-46 | the default bound of each kind of message |
| Codec.FailsExactly | crates/nobox-agent-wire/src/codec.rs:215-250 | exactly why a read fails, and what it leaves unread |
| Codec.ReadFrame | crates/nobox-agent-wire/src/codec.rs:215-250 | under any short reads the result is a function of the bytes, and no more than the direction's bound is allocated |
| Codec.Stream.ReadExact | crates/nobox-agent-wire/src/codec.rs:242-243 | fills the buffer whatever the read sizes, or reports the end |
| Codec.WriteFrame | crates/nobox-agent-wire/src/codec.rs:258-282 | writes exactly one frame, or nothing exactly when the message is over a bound |
| Codec.ReadsExactlyFrames | crates/nobox-agent-wire/src/codec.rs:215-250 | a message is read exactly off a stream that starts with a frame of one of its encodings, within its own bound |
| Codec.FrameComesBack | crates/nobox-agent-wire/src/codec.rs:215-282 | a written frame reads back as its message and nothing after it is touched |
| Codec.MessagesComeBack | crates/nobox-agent-wire/src/codec.rs:215-282 | any messages within their bounds come back in order and then the stream reads as closed |
| Codec.CutStreamKeepsWholeFrames | crates/nobox-agent-wire/src/codec.rs:219-243 | wherever a stream is cut, all whole frames arrive and the end reads as closed exactly at a frame boundary |
| Codec.DeliveredIsBounded | crates/nobox-agent-wire/src/codec.rs:235-249 | a delivered message was within its own bound and travels the right way |
| Base64.SymbolsAndValuesInvert | crates/nobox-agent-wire/src/base64.rs:37-46 | the alphabet is a bijection and excludes the pad |
| Base64.EncodeBytes | crates/nobox-agent-wire/src/base64.rs:14-35 | the chunk loop computes the encoding |
| Base64.DecodeText | crates/nobox-agent-wire/src/base64.rs:54-86 | the quad loop computes the decoding, first failure first |
| Base64.DecodeEncode | crates/nobox-agent-wire/src/base64.rs:14-86 | decoding an encoding gives the bytes back, and the length is four per started three bytes |
| Base64.EncodesByTheTable | crates/nobox-agent-wire/src/base64.rs:14-46 | every three bytes, and the one or two left over, become the four characters that section 4 of RFC 4648 gives them, in order |
| Base64.DecodesExactly | crates/nobox-agent-wire/src/base64.rs:54-86 | exactly which texts decode, and to what length |
| Base64.ReencodesExactlyWhenCanonical | crates/nobox-agent-wire/src/base64.rs:54-86 | a decoded text is the encoding of its bytes exactly when its last quad is spelled canonically |
| Base64.EncodedIsCanonical | crates/nobox-agent-wire/src/base64.rs:14-35 | what is encoded decodes and is canonical, with pads only at the end |
| Base64.DecodingIsNotInjective | crates/nobox-agent-wire/src/base64.rs:62-76 | concrete texts the decoder accepts with a leading pad or stray bits |
| EventPoll.Seat.Buffer | crates/nobox-agent/src/seat.rs:225-230 | appends an event, evicting the oldest at the bound |
| EventPoll.Seat.Call | crates/nobox-agent/src/seat.rs:124-147 | reads to its own answer, buffering every event on the way |
| EventPoll.Seat.PollEvents | crates/nobox-agent/src/seat.rs:158-223 | returns everything buffered after the cursor and keeps the rest |
| EventPoll.CallAnswersItsOwnRequest | crates/nobox-agent/src/seat.rs:124-147 | a call answers exactly with the first response to its own request unless a greeting, a goodbye or the end comes first, has buffered the events before it and left the rest unread |
| EventPoll.AfterKeepsOrder | crates/nobox-agent/src/seat.rs:164-172 | what a poll picks from the buffer is exactly what follows the cursor, in buffered order |
| EventPoll.PollAnswersExactly | crates/nobox-agent/src/seat.rs:158-223 | with nothing buffered after the cursor the first event after it answers by itself, a goodbye or the end first is an error, and patience running out is an empty answer |
| EventPoll.PollLeavesNothingBehind | crates/nobox-agent/src/seat.rs:158-223 | a poll leaves nothing after its cursor in the buffer and comes back empty only after all its waiting |
| EventPoll.PollingIsExactlyOnce | crates/nobox-agent/src/seat.rs:124-230 | over any mix of calls and polls without overflow, what polls returned and would return now are the received events after the first cursor, once each and in order |
| EventPoll.BufferStaysBounded | crates/nobox-agent/src/seat.rs:225-230 | the buffer never exceeds its bound |
| EventPoll.FreshSessionIsExact | crates/nobox-agent/src/seat.rs:58-111 | a new session owes nothing after any cursor |
| SessionRestore.TransitiveExactlyThroughPinned | crates/nobox-runtime/src/session.rs:235-257 | matching passes through an identity exactly when it has an application id or lacks a session id or a command; otherwise two unrelated entries match it |
| SessionRestore.RecognizedExactly | crates/nobox-runtime/src/session.rs:235-257 | two identities match exactly when every native part agrees and the session, the command or an application id vouches for it |
| SessionRestore.MarkDuplicates | crates/nobox-runtime/src/session.rs:130-142 | the pairwise loop marks exactly the entries that match another |
| SessionRestore.SessionRestore.constructor | crates/nobox-runtime/src/session.rs:125-149 | the restore holds the kept entries, or none for another version |
| SessionRestore.SessionRestore.TakeMatch | crates/nobox-runtime/src/session.rs:173-182 | takes the first entry that matches |
| SessionRestore.LookupsConserve | crates/nobox-runtime/src/session.rs:173-182 | over any lookups, what was returned and what is left are the kept entries, so each is returned at most once |
| SessionRestore.UnambiguousExactlyWhenPinned | crates/nobox-runtime/src/session.rs:125-182 | a query fits at most one kept entry of every restore exactly when it is pinned |
| SessionRestore.PinnedIgnoresOrder | crates/nobox-runtime/src/session.rs:125-182 | a pinned query's answer does not depend on the saved order |
| Ordering.BelowIsTotalOrder | crates/nobox-desktop/src/lib.rs:198-205 | the sort order is a total order |
| Ordering.CodesInOrder | crates/nobox-desktop/src/lib.rs:198-205 | texts are ordered as far as they agree, then by the first smaller character or the earlier end |
| Ordering.SortOrders | crates/nobox-desktop/src/lib.rs:198-205 | sorting orders by key and loses nothing |
| DesktopScan.OrderListsExactly | crates/nobox-desktop/src/lib.rs:342-376 | the scan order lists exactly the desktop files that readable folders lead to within the depth bound |
| DesktopScan.OrderIsMet | crates/nobox-desktop/src/lib.rs:342-376 | one file is met before another exactly as described: where their folders part, own files before folders, own files from the last name down, folders from the first name up |
| DesktopScan.PathsInOrder | crates/nobox-desktop/src/lib.rs:377-380 | paths are ordered name by name, the first difference deciding |
| DesktopScan.DesktopFiles | crates/nobox-desktop/src/lib.rs:342-380 | the stack loop keeps exactly the first files of the scan order, up to its limit, in path order |
| DesktopScan.LedIsScannable | crates/nobox-desktop/src/lib.rs:342-376 | every file found lies within the depth bound and has the extension |
| DesktopCatalog.FromDirectories | crates/nobox-desktop/src/lib.rs:151-224 | the catalog is the one decided by exactly the files considered, directory by directory while the bound leaves room |
| DesktopCatalog.ScanIsExact | crates/nobox-desktop/src/lib.rs:160-173 | what is considered is in directory and path order, lies where its directory leads, and below 4096 is every such file |
| DesktopCatalog.EveryFileIsAccountedFor | crates/nobox-desktop/src/lib.rs:173-195 | applications and skipped files together count the distinct identifiers and the files without one |
| DesktopCatalog.FirstFileDecides | crates/nobox-desktop/src/lib.rs:178-246 | looking up an identifier finds what its first file in scan order says, even when that file is hidden or invalid |
| DesktopCatalog.CatalogIsExact | crates/nobox-desktop/src/lib.rs:151-224 | the catalog shows exactly what the first considered file of each identifier says, once, user-installed exactly when that file is, in non-empty groups by category and in order of folded name, name and identifier, and counts what it skipped |
| DesktopCatalog.CollectedIsDecided | crates/nobox-desktop/src/lib.rs:173-195 | the applications are exactly the first files' decisions, one per identifier |
| DesktopCatalog.GroupsFlattenSorted | crates/nobox-desktop/src/lib.rs:198-219 | flattening the groups gives every application once, ordered by category, folded name, name and identifier |
| DesktopCatalog.GroupInOrder | crates/nobox-desktop/src/lib.rs:206-219 | grouping lists the non-empty categories in order, each with its applications in sorted order |
| DesktopScan.IdentifierDeterminesExactlyWhen | crates/nobox-desktop/src/lib.rs:382-393 | a path is the only one with its identifier exactly when it is a single name that no dash splits into a folder's name and a desktop file's name |
| DesktopScan.DashFreePathsAreDetermined | crates/nobox-desktop/src/lib.rs:382-393 | among paths without dashes in their names, an identifier determines its path |
| DesktopScan.IdentifiersCollide | crates/nobox-desktop/src/lib.rs:382-393 | any file in a folder shares its identifier with the file whose name joins the two by a dash |
| DesktopScan.TwoFilesOneIdentifier | crates/nobox-desktop/src/lib.rs:382-393 | a-b.desktop and a/b.desktop have one identifier |

## Left out

- D-Bus and AT-SPI calls, their timeouts, the system-call filter, process spawning, sockets and file permissions: an abstract object graph, a scripted world or a step stands for each, and any call may fail.
- Serialization: frames carry an abstract format whose decoder inverts its encoder, and the helper's output reaches the manager as a value, so its 1 MiB output bound is not part of this model.
- The table from accessibility roles to portable ones: a role carries its portable role and whether it is a password entry.
- Identity hashes: any function into 64-bit numbers; only registration makes it injective within a scan, as in the source.
- Case folding, character boundaries beyond UTF-8 continuation bytes, and UTF-8 validity of lines: folding and validity are arbitrary fixed functions.
- The helper's loop over applications and top-levels: what it finds is given as a list, from which the candidates are built.
- Clocks: a deadline is a number of polls or frames that pass before it.
- `ClientSet`, `OutputSet` and geometry: records; a client is visible when it is on the shown workspace or on all of them, and, while the desktop is shown, only if it is a desktop or a dock.
- The parent link of a perceived client's descriptor: it is copied from the client's own record without a perception check, so the noninterference laws treat it as part of that record.
- `authorize`, `check_expects` and the capability bitset: pure checks of one record; they would only add easy members.
- Launch policy, theme import, advertisement, tool schemas, command line, panels, X11 and Wayland front ends: no state that spans operations, or plumbing.
- `tokenize_exec`, `parse_exec` and the content of desktop entries: reading a file is an arbitrary function of the file found.
- The identity text bounds and the client bound of a saved session: checked when it is loaded and saved, not needed by matching.
- The writer thread of a session and the replies it sends: only the inbound direction is modelled.
- Transport failures while reading or writing a frame: a stream ends but does not fail in mid-frame with an error of its own.
- SessionAccount.SessionAccountIsExact: about announcements, each of which advances the observers' counters before it publishes, as the backends do; assumes the 64-bit sequence counter and the number of published events stay below their bound.
- EventQueue.AccountIsExact: assumes the 64-bit sequence counter and the number of published events stay below their bound, where the counters stop.
- ManagerState.RunKeepsWellFormed: assumes node, continuation and generation counters stay below their 64-bit bound, where they stop.
- Issued.IssuedContinuationLifetime: about one generation; what happens across generations is Completion.ContinuationsAliasAcrossRoots and Completion.AliasingTakesANewTree.
- Completion.UsedIsUsedUp: about the generation the page was answered in, because the next tree's numbers start over.
- Projection.SearchSubtree: a node with more than 2^32 - 1 children fails a search even when it is no hit, where the source counts the children of hits alone; no bus message carries that many.
- Reassembly.TreePagesReassemble: about an object graph that does not change between pages, as the paging presumes.
- Reassembly.SearchPagesReassemble: about an object graph that does not change between pages.
- SeatTransport.FullInboxIsTaken: bounds the internal steps before a message is taken; that the scheduler keeps running threads is assumed.
- EventPoll.PollingIsExactlyOnce: for streams whose stamps rise and whose buffer never evicts; an eviction loses the oldest event, as in the source.
- LineReader.ReadLine: a source that fails loses the line it was in, as in the source.
