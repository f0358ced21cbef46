# Verified models of the document tree, the live documents and their helpers

A workspace is a tree of documents, edited by several people at once. The
Dafny modules here model the parts of the backend and the browser that have to
agree for this to work, and prove what they promise each other.

- **The document table** (`DocumentTable`, `DocumentForest`, `DocumentInvariant`,
  `DocumentLaws`, `DocumentRuns`, `DocumentsService`, `DocumentCycles`). Rows with
  a parent pointer, a fractional position, an archive flag and a publication; each
  transaction is a function from table to table, and the service is a class with
  the table and the tree cache as fields. `DocumentLaws` says of each transaction
  what it accepts, refuses and changes; `DocumentRuns` follows whole runs.
- **Positions as doubles** (`DocumentPrecision`, `DocumentRuns`, `DocumentTies`).
  How fine positions get, and how long double precision computes the same table as
  real arithmetic.
- **Concurrent creates** (`CreateLocks`, `CreateMoves`) and **the tree cache**
  (`TreeCache`) as state machines over single statements and cache operations.
- **The sidebar** (`DocumentList`, `DragMove`, `DocumentTree`). The browser's own
  ancestor walk, optimistic move, drop resolution and tree, against the server's.
- **Live documents** (`CollabServer`, `Collaboration`). One document's session,
  durable row, flush timer and eviction timer, as functions and a run over time;
  then the gateway as classes that mutate shared maps, with the session objects
  the timers capture. A document is the set of operations applied to it.
- **The network** (`Convergence`, `CollaborationClient`). The server with any
  number of clients over first-in-first-out channels.
- **Version history** (`YDocument`, `Versions`). Documents with tombstones, the
  replacement of the visible blocks, and the rows that are never overwritten.
- **Text edits** (`TextDiff`), **refresh tokens** (`Tokens`, `RefreshClient`,
  `SingleFlight`).

`dafny verify dfyconfig.toml` checks everything.

## Where the code does less than its documentation says

The model follows the code. These lemmas say exactly when the documented
behaviour holds.

- The check against moving a document below itself looks at 1000 nodes. It is
  enough exactly on tables whose active chains are that short
  (`MovesKeepForestExactly`). `ForestLost` is a run that breaks the forest, and
  after it archiving the moved document never ends (`ArchiveNeverEnds`).
- The flush interval is said to bound what a crash can lose to one window. That
  holds exactly for what is accepted while no flush of an evicted session is
  still scheduled (`ExposureExactly`), because the later session cannot schedule
  its own; `BehindIsReached` gets there in six events.
- Eviction is meant to be invisible. With configurable timings it is, exactly
  when the flush window is shorter than the grace period
  (`TransparentExactly`); timers with equal deadlines may fire in either order.
  The defaults, 3 s and 30 s, satisfy this. That server and clients agree with
  each other needs no such condition (`ReachableAgreed`).
- Sessions are meant to go when nobody is left. One can stay behind with no timer
  to end it: after a version is restored into a document that nobody has open, or
  when presence was recorded under a string that is no socket's id. Without both
  it never happens (`NeverStrandedExactly`); such a session stays until somebody
  joins (`StrandedUntilJoin`), and with such a string for ever (`HauntedForEver`).
- A failed invalidation of the tree cache is said to cost one time-to-live at
  most. A fill that is overtaken by a write costs its own duration on top
  (`AnswersBounded`), and the stated bound holds exactly for fills that take no
  time (`TtlBoundExactly`). `HitsExactly` says when cached trees are not stale at
  all.
- A version restore is said never to destroy silently what was there. What is
  saved is the state at the first of its two steps. That covers what the second
  step replaces exactly when nothing in between edits the document, restores it
  otherwise, or flushes an old session of it while it is not open
  (`NothingLostExactly`).
- Sharing one refresh does not by itself keep a browser from presenting a revoked
  token: `SafeExactly` names the other four conditions, and a logout that
  overtakes a refresh is one the browser does not guard against.
- An interleaved create is an atomic create at its commit exactly when its parent
  is still active and its position still the next one (`CommitIsCreateExactly`).
  Neither archiving nor moving takes the workspace lock: `ArchiveOvertakes` ends
  with an active document under an archived parent, `EndOvertakes` with a position
  the whole create would not have picked, `MoveOvertakes` with two siblings at one
  position. `CreateAfterMoveExactly`, `MoveCollidesExactly` and
  `RestoreCollidesExactly` say which moves and restores do that.
- The gap between positions is said to leave room for many midpoints. How many is
  in `FreshRunExact`. `MidpointMoveExactly` says which moves end with two siblings
  at one double, and `TieReached` is a run that does.

## Model

| member | source | states |
|---|---|---|
| DocumentRuns.RunKeeps | backend/src/modules/documents/documents.service.ts:333-508 | every run of create, move, archive, restore, publish and unpublish keeps a forest whose edges stay in one workspace, no active document under an archived parent, no archived document published, distinct sibling positions (over the reals, archived rows included) and distinct slugs, as long as the chain from each new parent of a move has at most 1000 nodes, itself included |
| DocumentInvariant.MovesKeepForestExactly | backend/src/modules/documents/documents.service.ts:690-707 | every move the server accepts on a table leaves a forest if and only if every active document of that table has at most 1000 nodes on its ancestor chain |
| DocumentInvariant.DeepMoveBreaks | backend/src/modules/documents/documents.service.ts:690-707 | on any table with a deeper active chain, moving the ancestor just out of sight under its far descendant is accepted and makes a cycle |
| DocumentRuns.ForestLost | backend/src/modules/documents/documents.service.ts:333-396 | such a table is reached from nothing by 1001 creates and one move, all of them accepted: the first document then meets itself 1001 parents up |
| DocumentCycles.CollectionEndsExactly | backend/src/modules/documents/documents.service.ts:710-726 | as long as no edge leaves its workspace, the frontier that the loop queries becomes empty some day if and only if the root does not lie on a cycle |
| DocumentCycles.FrontierIsLevel | backend/src/modules/documents/documents.service.ts:714-724 | on a forest or not, what the loop holds after k rounds are the documents k levels below the root |
| DocumentCycles.ArchiveNeverEnds | backend/src/modules/documents/documents.service.ts:398-406 | so after that run the collection of the moved document never meets an empty frontier |
| DocumentInvariant.MoveForest | backend/src/modules/documents/documents.service.ts:346-380 | an accepted move keeps the forest exactly when the new parent is not the moved document or below it |
| DocumentInvariant.MovePlaces | backend/src/modules/documents/documents.service.ts:740-774 | an accepted move changes the moved row only; it stands directly before or directly after the reference, or last, and all other siblings keep their order |
| DocumentInvariant.ReferenceIsSibling | backend/src/modules/documents/documents.service.ts:748-760 | a reference is accepted exactly when it is a row of the workspace under the new parent |
| DocumentInvariant.CreateKeeps | backend/src/modules/documents/documents.service.ts:82-104 | a new document keeps the whole invariant and comes after all its siblings |
| DocumentInvariant.ActiveChain | backend/src/modules/documents/documents.service.ts:484-490 | with the archive invariant every ancestor of an active document is active, so looking at the immediate parent is enough |
| DocumentInvariant.ArchiveKeeps | backend/src/modules/documents/documents.service.ts:398-445 | archiving a whole subtree and unpublishing it keeps the invariant |
| DocumentInvariant.RestoreKeeps | backend/src/modules/documents/documents.service.ts:447-508 | restoring a subtree keeps the invariant |
| DocumentInvariant.RestorePlaces | backend/src/modules/documents/documents.service.ts:478-497 | a restored document keeps its place, unless its parent is still archived: then it becomes the last root; no other row moves |
| DocumentInvariant.PublishKeeps | backend/src/modules/documents/documents.service.ts:519-576 | publishing under the first free slug keeps slugs unique and archived documents unpublished |
| DocumentLaws.CreateExactly | backend/src/modules/documents/documents.service.ts:70-88 | a create is accepted exactly below the limit and under an active parent of the workspace or none; the limit, a missing parent and an archived one are refused in that order |
| DocumentLaws.CreateAdds | backend/src/modules/documents/documents.service.ts:90-104 | it adds one active, unpublished row, last under its parent, and changes no other |
| DocumentLaws.MoveAcceptedExactly | backend/src/modules/documents/documents.service.ts:346-380 | a move is accepted exactly for an active document, to the root or under another active document of the workspace with the moved one not among the first 1000 nodes of its chain, beside a row under that parent or beside none |
| DocumentLaws.MoveRefusedExactly | backend/src/modules/documents/documents.service.ts:346-380 | otherwise the reason is the first that holds: unknown, archived, own parent, unknown parent, archived parent, own descendant, unknown reference |
| DocumentLaws.ArchiveExactly | backend/src/modules/documents/documents.service.ts:398-430 | archiving sets the time on the document and everything below it, unpublishes them, and keeps their places and slugs; no other row changes; only an unknown document is refused |
| DocumentLaws.RestoreExactly | backend/src/modules/documents/documents.service.ts:447-497 | restoring clears the time on the document and everything below it and on no other row; no publication changes; only an unknown document is refused |
| DocumentLaws.ArchivedComesBack | backend/src/modules/documents/documents.service.ts:398-508 | archiving and then restoring an active subtree gives every row back as it was, but unpublished |
| DocumentLaws.PublishExactly | backend/src/modules/documents/documents.service.ts:524-572 | an active document ends published, now, under the first candidate nobody else has, from the requested slug, else its own, else the title; the refusals |
| DocumentLaws.UnpublishExactly | backend/src/modules/documents/documents.service.ts:578-605 | the document ends unpublished with its slug; doing it again does nothing |
| DocumentForest.DescendantWithinExact | backend/src/modules/documents/documents.service.ts:690-707 | the bounded walk says yes exactly when the ancestor is among the first so many nodes of the chain |
| DocumentForest.EnoughFuel | backend/src/modules/documents/documents.service.ts:690-707 | on a chain no longer than the bound the walk decides descent exactly |
| DocumentForest.RehangForest | backend/src/modules/documents/documents.service.ts:372-392 | hanging one document elsewhere leaves a forest exactly when its new parent is not below it |
| DocumentRuns.RunIsFine | backend/src/modules/documents/documents.service.ts:728-774 | after a run with k midpoint placements every position is a multiple of 1000 / 2^k, and n transactions keep positions within 1000 n |
| DocumentRuns.SiblingsApart | backend/src/modules/documents/documents.service.ts:27-29 | so any two siblings a run produces stay at least 1000 / 2^k apart |
| DocumentRuns.DoubleRunExact | backend/src/modules/documents/documents.service.ts:728-774 | a run from a table with positions on the grid of 1000 / 2^k and within 1000 n, computed with every addition, subtraction and halving rounded to double precision, gives exactly the table computed over the reals, while there is room for its midpoints and transactions |
| DocumentRuns.FreshRunExact | backend/src/modules/documents/documents.service.ts:728-774 | from an empty table: as long as 250 n 2^k <= 2^53 for n transactions with k midpoint placements |
| DocumentTies.MidpointSeparatesExactly | backend/src/modules/documents/documents.service.ts:763-773 | rounded to nearest, a midpoint lies strictly between its neighbours if and only if some double does |
| DocumentTies.MidpointMoveExactly | backend/src/modules/documents/documents.service.ts:740-774 | in double precision a move between two siblings keeps siblings distinct if and only if some double lies between the two, or the midpoint falls on the one of them that is being moved |
| DocumentTies.TieReached | backend/src/modules/documents/documents.service.ts:27-29 | with any rounding to nearest some run from an empty table, distinct over the reals, ends with two siblings at one position in double precision |
| DocumentPrecision.MidpointExact | backend/src/modules/documents/documents.service.ts:764-773 | while there is that much room, the next midpoint of two positions is exact in double precision |
| DocumentPrecision.GridGap | backend/src/modules/documents/documents.service.ts:27-29 | two different multiples of 1000 / 2^k differ by at least 1000 / 2^k |
| DocumentsService.DocumentsService.IsDescendantOf | backend/src/modules/documents/documents.service.ts:690-707 | the loop answers whether the ancestor is among the first 1000 nodes of the chain |
| DocumentsService.DocumentsService.CollectSubtreeIds | backend/src/modules/documents/documents.service.ts:710-726 | on a forest the breadth-first loop ends with exactly the root and its descendants, each once, level by level |
| DocumentsService.DocumentsService.Create | backend/src/modules/documents/documents.service.ts:65-117 | refuses in the order limit, missing parent, archived parent without changing anything, or adds the document last; the table invariant holds and no stale tree stays cached |
| DocumentsService.DocumentsService.Move | backend/src/modules/documents/documents.service.ts:333-396 | refusals change nothing; an accepted move sets parent and position of that row only, and keeps the invariant and a fresh cache exactly when it does not hang the document below itself |
| DocumentsService.DocumentsService.Archive | backend/src/modules/documents/documents.service.ts:398-445 | archives exactly the subtree, unpublishes the published part of it and keeps its slugs |
| DocumentsService.DocumentsService.Restore | backend/src/modules/documents/documents.service.ts:447-508 | activates exactly the subtree; the root of it goes to the end of the root level if its parent is gone or archived |
| DocumentsService.DocumentsService.Publish | backend/src/modules/documents/documents.service.ts:519-576 | tries the base slug and then the suffixed ones, at most five, and takes the first the unique index accepts |
| DocumentsService.DocumentsService.Unpublish | backend/src/modules/documents/documents.service.ts:578-605 | clears the publication and keeps the slug; does nothing to an unpublished document |
| DocumentsService.DocumentsService.List | backend/src/modules/documents/documents.service.ts:133-194 | whatever is cached and whenever entries expire, one request at a time always gets the rows of the workspace as they are, filtered and in position order |
| DocumentsService.InvalidationSuffices | backend/src/modules/documents/documents.service.ts:196-214 | dropping the one entry of the changed workspace leaves every cached tree current |
| TreeCache.AnswersBounded | backend/src/modules/documents/documents.service.ts:145-214 | with lookups, reads, stores, writes and failing invalidations interleaved in any way, every answer is what the table held at most 60 s plus the duration of its own fill ago |
| TreeCache.TtlBoundExactly | backend/src/modules/documents/documents.service.ts:196-214 | the documented bound of one TTL holds for fills of up to a given duration if and only if that duration is zero |
| TreeCache.LateFillIsStale | backend/src/modules/documents/documents.service.ts:145-194 | the run behind that: a fill reads, a write invalidates, the fill stores, and one TTL later the old tree is still served |
| TreeCache.HitsExactly | backend/src/modules/documents/documents.service.ts:145-214 | hits with no write under way always answer the table as it is, on all runs, if and only if no invalidation fails and no fill stores once a write it has missed is over |
| TreeCache.HitExactly | backend/src/modules/documents/documents.service.ts:148-153 | in any reachable state, when every write changed the rows to something new, a hit answers the table as it is exactly when nothing has been written since its fill read the table |
| TreeCache.FailureIsStale | backend/src/modules/documents/documents.service.ts:196-214 | a cached tree outlives a write whose invalidation fails |
| CreateLocks.LimitHolds | backend/src/modules/billing/entitlements.service.ts:80-109 | however many creates interleave, statement by statement and with aborts, archiving and moves in between, a FREE workspace never has more than 50 active documents |
| CreateMoves.PositionsStayDistinct | backend/src/modules/documents/documents.service.ts:65-117 | however creates and moves interleave, siblings never share a position, as long as nothing is moved to the end of siblings among which a create has picked its position and not yet committed |
| CreateLocks.CommitIsCreateExactly | backend/src/modules/documents/documents.service.ts:70-116 | at its commit an interleaved create does what the whole create would do at that instant, if and only if its parent is not archived by then and the position it picked is still the next one |
| CreateLocks.RolledBackExactly | backend/src/modules/billing/entitlements.service.ts:87-109 | an interleaved create is rolled back at its count or at the check of its parent exactly when the whole create would be refused for that at that instant |
| CreateLocks.LimitRefusesExactly | backend/src/modules/billing/entitlements.service.ts:87-109 | the count refuses exactly on a FREE workspace with 50 active documents or more |
| CreateMoves.EndStaysExactly | backend/src/modules/documents/documents.service.ts:728-774 | which moves leave the next position as it is: those that neither take that end nor move the last child, or take away an only child that stood at 0 |
| CreateMoves.CreateAfterMoveExactly | backend/src/modules/documents/documents.service.ts:65-117 | so of a create whose position has been picked and whose parent is active, exactly those moves leave intact what the whole create would do |
| CreateMoves.EndOvertakes | backend/src/modules/documents/documents.service.ts:333-396 | a run from a table with one root after which the commit stores another position than the whole create would |
| CreateLocks.CommitKeepsArchiveClosedExactly | backend/src/modules/documents/documents.service.ts:77-88 | under the same condition, and no other, the commit leaves no active document under an archived parent |
| CreateMoves.MoveCollidesExactly | backend/src/modules/documents/documents.service.ts:740-774 | between the picking of a position and the commit, a move ends with two rows at one position if and only if it goes to the end of the very same siblings, without a reference or after the last of them, and the picked position is still the next one there |
| CreateMoves.RestoreCollidesExactly | backend/src/modules/documents/documents.service.ts:478-497 | a document restore in between does if and only if it puts its document at the end of the root level and the create has picked that very end |
| CreateMoves.AppendCollides | backend/src/modules/documents/documents.service.ts:728-738 | in particular every append to the same parent does, because moves do not take the lock |
| CreateMoves.MoveOvertakes | backend/src/modules/documents/documents.service.ts:333-396 | a run from a table with one root that ends with two roots at one position |
| CreateMoves.ArchiveOvertakes | backend/src/modules/documents/documents.service.ts:398-445 | a run from the same table that ends with an active document under an archived parent |
| CreateLocks.RunKeepsPlaces | backend/src/modules/documents/documents.service.ts:90-104 | with nothing moved meanwhile, a position picked under the lock is still the next one at the commit |
| CreateLocks.StepKeeps | backend/src/modules/billing/entitlements.service.ts:196-205 | each statement keeps: one holder a workspace, fresh ids, the limit, and what the holder has checked |
| CreateLocks.NextPositionExact | backend/src/modules/documents/documents.service.ts:728-738 | the next position is one step past the last child, or one step when there is none |
| CreateMoves.FlagsMoveNothing | backend/src/modules/documents/documents.service.ts:398-445 | archiving, publishing and unpublishing are among the outside changes considered |
| DragMove.WalkExact | frontend/src/features/documents/dragMove.ts:27-41 | walking n + 1 steps decides descent exactly on every list, cyclic data included |
| DragMove.WalkToAncestor | frontend/src/features/documents/dragMove.ts:27-41 | the loop of the browser computes just that |
| DragMove.WalksAgree | frontend/src/features/documents/dragMove.ts:27-41 | for a displayed row with a chain of at most 1000 nodes, the walk of the browser over its list and the walk of the server over its table agree |
| DocumentList.MetEarly | frontend/src/features/documents/dragMove.ts:27-41 | an ancestor that is met at all is met within as many steps as there are rows |
| DragMove.OptimisticRefinesServer | frontend/src/features/documents/dragMove.ts:48-77 | for any shown part of the active rows and any listed reference but the moved row itself, the optimistic list has the parents and the sibling order of the table the server produces, although the server also counts archived, hidden and the moved rows |
| DragMove.BesideItself | frontend/src/features/documents/dragMove.ts:59-74 | called with the moved row as its own reference the two would agree if and only if no shown sibling comes after it |
| DragMove.ResolvedNotItself | frontend/src/features/documents/dragMove.ts:105-129 | no drop asks for that |
| DragMove.OptimisticPlaces | frontend/src/features/documents/dragMove.ts:55-74 | the optimistic position differs from every shown sibling and separates those before from those after |
| DragMove.ResolutionExact | frontend/src/features/documents/dragMove.ts:92-130 | a drop on a listed row resolves to the requested move if and only if the row is not the node or below it and the move would change the parent or the sibling order |
| DragMove.DropExactly | frontend/src/features/documents/dragMove.ts:92-130 | the whole resolution, for every node and target: an unlisted node never moves, the root zone takes any node that has a parent, a drop beside an unlisted row asks for nothing, and every other drop resolves to what it asks for just when that is legal and changes something |
| DragMove.RootDropPlaces | frontend/src/features/documents/dragMove.ts:100-103 | a drop of a nested document on the root zone shows it after all listed roots, and the server puts it after all roots of the workspace |
| DragMove.ResolvedMoveAccepted | frontend/src/features/documents/dragMove.ts:92-130 | every resolved move, to the root too, is one the server accepts |
| DragMove.DisplayedReaches | frontend/src/features/documents/dragMove.ts:27-41 | for a row on screen, descent in the list and in the table are the same |
| DocumentTree.TreeContents | frontend/src/features/documents/tree.ts:10-27 | the tree holds exactly the documents whose chain of parents reaches the root within the list |
| DocumentTree.TreeOnce | frontend/src/features/documents/tree.ts:10-27 | each of them once |
| DocumentTree.ActiveAllAppear | frontend/src/features/documents/tree.ts:10-27 | every active document of a table with the archive invariant appears |
| DocumentTree.TreeNested | frontend/src/features/documents/tree.ts:17-26 | at every level of the tree stand exactly the listed children of the node, once each, in position order |
| DocumentTree.TreeExactly | frontend/src/features/documents/tree.ts:10-27 | with distinct sibling positions that describes the tree completely |
| DocumentTree.BuildDocumentTree | frontend/src/features/documents/tree.ts:10-27 | grouping, sorting and attaching in place ends on every list with distinct ids, cyclic data included, and builds that tree |
| DocumentTree.OrderDecidesShape | frontend/src/features/documents/tree.ts:17-26 | the shape of the tree depends on parents and sibling order alone |
| DocumentTree.DropIsFinal | frontend/src/features/documents/dragMove.ts:43-130 | a whole drag: whatever a drop on a displayed row or the root zone resolves to, the server accepts it, and the sidebar drawn at once has the shape of the one drawn after the reload |
| DocumentTree.OptimisticTreeIsFinal | frontend/src/features/documents/dragMove.ts:43-47 | the same for every accepted move with a listed reference other than the moved row, in whatever order the reloaded list arrives |
| TextDiff.ComputeTextDiff | frontend/src/features/collaboration/textDiff.ts:15-36 | the splice turns old into new; no single splice that does so deletes and inserts fewer code units; it is empty exactly when the texts are equal |
| TextDiff.YText.SetLocalValue | frontend/src/features/collaboration/useYText.ts:21-32 | delete then insert leaves the text at the requested value, and no transaction is opened exactly when it is there already |
| CollabServer.TransparentExactly | backend/src/modules/collaboration/collaboration.gateway.ts:137-157 | on every run every join receives exactly the union of all updates accepted before, if and only if the flush window is shorter than the eviction grace period |
| CollabServer.JoinReceivesAll | backend/src/modules/collaboration/collaboration.gateway.ts:287-348 | the direction the default timing relies on |
| CollabServer.LosingRunLoses | backend/src/modules/collaboration/collaboration-persistence.service.ts:65-73 | with a grace period no longer than the window, a restore, two evictions and a late flush lose an accepted update |
| CollabServer.DurableGrows | backend/src/modules/collaboration/collaboration-persistence.service.ts:65-110 | no step takes anything out of the durable row; a flush left behind by an evicted session rewrites what is there |
| CollabServer.RunSound | backend/src/modules/collaboration/collaboration.service.ts:43-154 | on every run and with any timing: the sockets among the connections are the joined ones, a session that is to be evicted has none, timers are in bounds, and only accepted operations are held anywhere |
| CollabServer.RunComplete | backend/src/modules/collaboration/collaboration.service.ts:112-154 | with the window shorter than the grace period: the session, or without one the durable row, holds all that was accepted, and a late flush only rewrites the row |
| CollabServer.NeverStrandedExactly | backend/src/modules/collaboration/collaboration.gateway.ts:406-460 | with any timing, no run leaves a session in memory that has no member and no timer to end it, if and only if presence is only reported under socket ids and versions are only restored into open documents |
| CollabServer.StrandedUntilJoin | backend/src/modules/collaboration/collaboration.service.ts:112-129 | a session left behind like that stays until somebody joins |
| CollabServer.StrandedByRestore | backend/src/modules/collaboration/collaboration.gateway.ts:406-430 | restoring a version of a document that nobody has open leaves such a session |
| CollabServer.StrandedByPresence | backend/src/modules/collaboration/collaboration.gateway.ts:440-460 | so does presence under another name when the last socket leaves |
| CollabServer.HauntedForEver | backend/src/modules/collaboration/collaboration.gateway.ts:440-460 | a session with such a name among its connections, and no eviction due, is never evicted, joins or not |
| CollabServer.HauntedByPresence | backend/src/modules/collaboration/collaboration.gateway.ts:450-455 | one presence change under such a string is enough, since any string is recorded |
| CollabServer.OnlyEmptyEvicted | backend/src/modules/collaboration/collaboration.gateway.ts:117-157 | on every run and with any timing, a session is evicted only when every socket that joined has left |
| CollabServer.RemovedStaysRemoved | backend/src/modules/collaboration/collaboration.service.ts:86-97 | withdrawing the presence of a removed socket does not record the socket again |
| CollabServer.PresenceExactly | backend/src/modules/collaboration/collaboration.gateway.ts:380-396 | who is seen after a presence change, and who it is put down to |
| CollabServer.LeavingExactly | backend/src/modules/collaboration/collaboration.service.ts:86-97 | a socket that leaves takes the presence it has shown and nothing of anybody else |
| CollabServer.RunSeen | backend/src/modules/collaboration/collaboration.service.ts:74-97 | on every run whoever is seen was shown by somebody who is still connected |
| CollabServer.AcceptedExactly | backend/src/modules/collaboration/collaboration.gateway.ts:350-378 | exactly what joined editors send and restores bring is accepted; nothing from readers |
| CollabServer.ExposureExactly | backend/src/modules/collaboration/collaboration-persistence.service.ts:13-17 | with any timing, what an update or a version restore brings in is stored within one window if and only if no flush of an evicted session is scheduled when it is accepted |
| CollabServer.BehindIsReached | backend/src/modules/collaboration/collaboration-persistence.service.ts:65-73 | with any timing, six events lead to an editor in the exceptional state |
| Collaboration.CollaborationGateway.GetOrCreateHydratedSession | backend/src/modules/collaboration/collaboration.gateway.ts:432-473 | the session in memory, or a new one filled from the row |
| Collaboration.CollaborationGateway.CompleteJoin | backend/src/modules/collaboration/collaboration.gateway.ts:287-348 | cancels eviction, hydrates, registers, and sends the whole document; other documents are untouched |
| Collaboration.CollaborationGateway.HandleSyncUpdate | backend/src/modules/collaboration/collaboration.gateway.ts:350-378 | applies an update of an editor to a live session and schedules a flush; drops it otherwise |
| Collaboration.CollaborationGateway.HandleDisconnect | backend/src/modules/collaboration/collaboration.gateway.ts:117-132 | removes the socket and starts the eviction timer when nobody is left |
| Collaboration.CollaborationGateway.HandleAwarenessUpdate | backend/src/modules/collaboration/collaboration.gateway.ts:380-396 | records presence under whatever name reports it |
| Collaboration.CollaborationGateway.ApplyRestoredState | backend/src/modules/collaboration/collaboration.gateway.ts:406-430 | hydrates if need be, applies the restoring operations, schedules a flush |
| Collaboration.CollaborationGateway.ScheduleFlush | backend/src/modules/collaboration/collaboration-persistence.service.ts:65-73 | keeps an earlier timer, with the session object that timer captured |
| Collaboration.CollaborationGateway.FireFlushTimer | backend/src/modules/collaboration/collaboration-persistence.service.ts:67-70 | writes the captured document, be it live or evicted |
| Collaboration.CollaborationGateway.FireEvictionTimer | backend/src/modules/collaboration/collaboration.gateway.ts:141-150 | writes and then drops the session |
| Collaboration.DocumentSession.RemoveConnection | backend/src/modules/collaboration/collaboration.service.ts:86-97 | the socket and its presence are gone after the callback has run |
| Convergence.ReachableSynced | backend/src/modules/collaboration/collaboration.gateway.ts:350-378 | with any timing, in every reachable state a joined client and what is on its way to it cover the server, and what it holds is at the server or on its way there |
| Convergence.ReachableAgreed | frontend/src/features/collaboration/useCollaboration.ts:91-111 | with any timing, in every reachable state with empty channels the server and all clients hold the same set |
| Convergence.ReachableAgreedOnAll | frontend/src/features/collaboration/useCollaboration.ts:91-111 | with the window shorter than the grace period that set is all that was ever accepted |
| Convergence.Converges | frontend/src/features/collaboration/useCollaboration.ts:91-111 | with any timing, from every reachable state deliveries alone lead to such a quiet state |
| Convergence.DeliveriesEnd | frontend/src/features/collaboration/useCollaboration.ts:108-111 | no run of deliveries is longer than a bound read off the channels, because nothing received is echoed |
| Convergence.RelayedExactly | backend/src/modules/collaboration/collaboration.gateway.ts:358-370 | an accepted update goes once to every other joined client and not back to its sender; one that is not accepted goes to nobody |
| Convergence.RestoreRelayedExactly | backend/src/modules/collaboration/collaboration.gateway.ts:406-420 | a version restore sends every joined client exactly what the server did not hold before |
| Convergence.JoinCompletes | frontend/src/features/collaboration/useCollaboration.ts:74-93 | a client that connects is in after one message up and two down, with the permission the server gave and all the server holds |
| Convergence.EditReachesEveryone | frontend/src/features/collaboration/useCollaboration.ts:91-111 | what an editor types is at the server and at all clients once all that is in flight has been delivered |
| Convergence.RunKeepsNet | backend/src/modules/collaboration/collaboration.gateway.ts:355-377 | the invariant behind it holds with any timing along every run of connecting, editing, joining, restoring, closing and timer steps |
| CollaborationClient.CollaborationClient.HandleMessage | frontend/src/features/collaboration/useCollaboration.ts:78-93 | an incoming message does to the client what the step of the run does, and sends nothing |
| CollaborationClient.CollaborationClient.Edit | frontend/src/features/collaboration/useCollaboration.ts:108-111 | a change by the user is applied and sent once |
| CollaborationClient.CollaborationClient.HandleConnect | frontend/src/features/collaboration/useCollaboration.ts:74-76 | a fresh client that connects is the one the runs start from |
| Versions.RestoreShows | backend/src/modules/collaboration/versions.service.ts:142-190 | after a restore readers see the version, no operation is lost, what was there is the new restore point, and no other document changes |
| Versions.RestoreUndone | backend/src/modules/collaboration/versions.service.ts:142-190 | restoring the returned restore point, after anything at all has happened in between, gives back the block list from before the restore |
| Versions.RestoreAnyTimeLater | backend/src/modules/collaboration/versions.service.ts:142-190 | a manual version or restore point shows the same whenever it is restored |
| Versions.ManualRoundTrip | backend/src/modules/collaboration/versions.service.ts:96-140 | a manual version gives back what was current when it was made |
| Versions.HistoryKept | backend/src/modules/collaboration/versions.service.ts:28-31 | whatever is flushed, edited, restored or created, no manual version and no restore point ever changes or goes |
| Versions.NextKeeps | backend/src/modules/collaboration/collaboration-persistence.service.ts:87-110 | each step keeps one automatic row a document and overwrites no other kind of row |
| Versions.FlushExactly | backend/src/modules/collaboration/collaboration-persistence.service.ts:92-110 | a flush leaves the document with one automatic row, which holds what was written, and every other row as it was |
| Versions.InterruptedRestore | backend/src/modules/collaboration/versions.service.ts:157-184 | with anything between the saving of the restore point and the replacement, readers end with the version, no operation is lost, and the restore point holds what was there when it was saved |
| Versions.NothingLostExactly | backend/src/modules/collaboration/versions.service.ts:157-184 | the restore point shows all that the replacement takes from readers, on all runs, if and only if in between the document is not edited, not restored otherwise, and not flushed while it has no live copy; opening and closing it and all else may happen |
| Versions.LostToRestore | backend/src/modules/collaboration/versions.service.ts:142-190 | of two overlapping restores the second takes away what the first brought |
| Versions.LostToFlush | backend/src/modules/collaboration/collaboration-persistence.service.ts:65-73 | with no live copy, a late flush of an old session changes what is replaced |
| Versions.EditOvertaken | backend/src/modules/collaboration/versions.service.ts:157-184 | an edit accepted in between is neither in the restore point nor in what readers see afterwards |
| Versions.VersionsService.Flush | backend/src/modules/collaboration/collaboration-persistence.service.ts:92-110 | overwrites the one automatic row of the document or creates it |
| Versions.RestoreSucceedsExactly | backend/src/modules/collaboration/versions.service.ts:148-218 | a restore succeeds exactly for an active document of the workspace and a row of that document, the automatic one included |
| Versions.RestoreRefusedExactly | backend/src/modules/collaboration/versions.service.ts:148-155 | why a restore is refused: unknown document, archived document, unknown or foreign version; no plan is asked for |
| Versions.CreateSucceedsExactly | backend/src/modules/collaboration/versions.service.ts:102-111 | a manual version needs PRO and an active document of the workspace; the refusals in order |
| Versions.CreateAdds | backend/src/modules/collaboration/versions.service.ts:113-122 | it adds one manual row with the current state and changes nothing else |
| Versions.CurrentStateExactly | backend/src/modules/collaboration/versions.service.ts:195-205 | the live copy before the stored one, and an empty document if there is neither |
| Versions.RestoreShowsSnapshot | backend/src/modules/collaboration/yjs-document.util.ts:37-61 | the preview of the version and of the restored document are equal |
| Versions.RestoreKeepsHealthy | backend/src/modules/collaboration/yjs-document.util.ts:63-100 | items keep distinct ids |
| Versions.VersionsService.Create | backend/src/modules/collaboration/versions.service.ts:96-140 | refuses without PRO, for a missing or an archived document; else saves the current state |
| Versions.VersionsService.Restore | backend/src/modules/collaboration/versions.service.ts:142-190 | saves the current state and then replaces the visible blocks |
| Versions.VersionsService.GetCurrentState | backend/src/modules/collaboration/versions.service.ts:195-205 | live copy, else automatic row, else empty |
| YDocument.ReplacedView | backend/src/modules/collaboration/yjs-document.util.ts:90-100 | replacing all blocks shows exactly the source: every key, text by its visible characters |
| YDocument.ReplacedGrows | backend/src/modules/collaboration/yjs-document.util.ts:80-89 | operations only grow, and only what was visible is newly deleted |
| YDocument.ReplacedIdsDistinct | backend/src/modules/collaboration/yjs-document.util.ts:63-78 | clones are fresh items |
| YDocument.SnapshotOfView | backend/src/modules/collaboration/yjs-document.util.ts:37-61 | the preview depends only on what readers see |
| YDocument.EncodeExactly | backend/src/modules/collaboration/yjs-document.util.ts:42-58 | which key of a block each field of its preview shows |
| YDocument.EncodeTextExactly | backend/src/modules/collaboration/yjs-document.util.ts:50-50 | text is shown only if it is shared text, by its visible characters |
| YDocument.EncodeCheckedExactly | backend/src/modules/collaboration/yjs-document.util.ts:51-51 | checked is shown as a boolean of whatever is there |
| YDocument.CloneBlock | backend/src/modules/collaboration/yjs-document.util.ts:67-78 | the loop copies each key, text as fresh text of the visible characters |
| YDocument.LiveDocument.ReplaceBlocksContent | backend/src/modules/collaboration/yjs-document.util.ts:90-100 | deletes all that is visible and inserts the clones in front |
| Tokens.LoginIsChain | backend/src/modules/auth/auth.service.ts:103-147 | on every run two tokens stem from one login exactly when one leads to the other by replacements, and no token leads to itself |
| Tokens.OneLivePerLogin | backend/src/modules/auth/auth.service.ts:140-146 | on every run at most one token of a login is unrevoked |
| Tokens.ReuseExactly | backend/src/modules/auth/auth.service.ts:117-129 | reuse is detected exactly for revoked tokens; it leaves the user without an unrevoked token and other users alone |
| Tokens.ExchangedExactly | backend/src/modules/auth/auth.service.ts:113-146 | a token is exchanged exactly when it is stored, unrevoked, not expired and of an existing user; the new one is of that user and lives a whole life, the old one is revoked and points to it, no other row changes |
| Tokens.RefusedExactly | backend/src/modules/auth/auth.service.ts:113-138 | every other outcome and its one cause; but for reuse, a refusal changes nothing |
| Tokens.NoLateExchange | backend/src/modules/auth/auth.service.ts:131-133 | no run exchanges a token later than one life after it was given out |
| Tokens.LoggedOutForGood | backend/src/modules/auth/auth.service.ts:149-163 | a logged-out token is revoked, no other is, and no later run exchanges it |
| Tokens.LoginAdds | backend/src/modules/auth/auth.service.ts:170-206 | a login adds an unrevoked token with a whole life and changes no other row |
| Tokens.PurgeExactly | backend/src/modules/auth/auth.service.ts:165-168 | a purge deletes exactly the expired rows |
| Tokens.ReplayDetected | backend/src/modules/auth/auth.service.ts:117-129 | a token once exchanged, presented after any further run, is detected, or is unknown if purged |
| Tokens.RevokedStaysRevoked | backend/src/modules/auth/auth.service.ts:149-168 | no event takes a revocation back |
| Tokens.AuthService.Refresh | backend/src/modules/auth/auth.service.ts:103-147 | unknown, revoked, expired, missing user, or rotated, in that order |
| Tokens.AuthService.Logout | backend/src/modules/auth/auth.service.ts:149-163 | revokes the token if it is there and unrevoked |
| Tokens.AuthService.IssueTokenPair | backend/src/modules/auth/auth.service.ts:170-206 | adds one unrevoked token |
| Tokens.AuthService.Login | backend/src/modules/auth/auth.service.ts:70-101 | a login starts a chain of its own |
| RefreshClient.SafeExactly | frontend/src/features/auth/AuthProvider.tsx:53-146 | a browser never presents a revoked token if and only if refreshes go through the single flight, no logout overlaps a refresh, nobody else presents its tokens or replays one of its users, and every reply arrives |
| RefreshClient.RefreshRoundTrip | frontend/src/features/auth/AuthProvider.tsx:57-146 | an untroubled refresh ends with a new cookie of the same user that can be exchanged for a whole life |
| RefreshClient.RepliesExactly | backend/src/modules/auth/auth.controller.ts:71-106 | a refused refresh leaves the cookie, a logout takes it, a login sets it |
| RefreshClient.WithoutSingleFlight | frontend/src/lib/single-flight.ts:1-9 | two refreshes at once: the second presents what the first replaced |
| RefreshClient.WithOverlap | frontend/src/features/auth/AuthProvider.tsx:90-98 | nothing keeps a logout from overtaking a refresh, and then the refresh presents a revoked token |
| RefreshClient.WithLoss | backend/src/modules/auth/auth.service.ts:140-146 | after a lost reply the browser presents the replaced token |
| RefreshClient.WithTheft | backend/src/modules/auth/auth.service.ts:140-146 | after somebody else has exchanged its token the browser presents the replaced one |
| RefreshClient.WithReplayElsewhere | backend/src/modules/auth/auth.service.ts:117-129 | a replay by another browser of the user revokes the token of this one |
| SingleFlight.SingleFlight.Call | frontend/src/lib/single-flight.ts:10-21 | joins the call in flight and starts one only if there is none |
| SingleFlight.SingleFlight.Settle | frontend/src/lib/single-flight.ts:15-17 | everyone who joined gets the outcome and the next call starts afresh |
| SingleFlight.ShareOne | frontend/src/lib/single-flight.ts:10-21 | any number of concurrent callers start one call and all get its outcome |
## Left out

- Titles, authors, restriction, access mode, expiry of publications, content text, search and page revalidation: they take no part in the properties above.
- Roles, document permissions, comments, notifications, attachments, invitations and billing events: their claims are settled by one branch each.
- The internals of the shared-document library, of sockets, queues, the database and password hashing: they appear as operation sets, ordered channels, atomic rows and locks, and fresh keys.
- The order in which the database returns rows with equal positions: ties are broken by id.
- Moves, archives and restores that interleave statement by statement: only creates take a lock, so the others are atomic steps.
- The document limit across a document restore: the code does not check it there. Restores are therefore not among the outside changes of the runs in `CreateLocks` and `CreateMoves`; `CreateMoves.RestoreCollidesExactly` is about a single one.
- Awaits inside hydrating a session and inside evicting one: each is one step, and its flush succeeds.
- Flush failures, process crashes and server shutdown, which clears the timers.
- A socket that joins a second document: every connection joins one.
- Edits made before joining or while disconnected: each connection is a fresh client document, and the server drops updates sent before the join.
- The relation between operation sets and block lists: the live protocol is about sets, version restore about lists with tombstones; how a client orders concurrent inserts belongs to the library.
- Rich-text formatting and nested shared types inside blocks: blocks hold shared text and plain values, as the editor's blocks do.
- A version restore that fails after its restore point has been saved, and two restores of one document at once.
- Under which names the presence library reports its own changes: it is not part of this model, which allows any string.
- Lists with repeated ids, and positions that tie in the list: the server never sends them.
- A drop on a row whose ancestors are not all in the list: only rows on screen can be dropped on.
- Drops on the root zone in the "would change something" claim: a root document dropped there stays where it is even when it is not last.
- `resolveDropZone`, which splits a row's height in three.
- DragMove.OptimisticRefinesServer: says nothing about the numeric position, which the reload replaces; the two implementations may choose different numbers in the same gap.
- DocumentRuns.DoubleRunExact: asks of rounding only that it leaves doubles alone, so it says nothing about runs beyond the bound.
- Overflow and underflow in `DocumentTies`: its doubles have 53 bits and any exponent.
- Refreshes that interleave statement by statement: each is one step, as the code has neither a lock nor a transaction there.
