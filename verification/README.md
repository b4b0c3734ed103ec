# TaskPilot: a verified model

This project models the parts of TaskPilot whose guarantees hold over whole runs - state machines
around the database, worker protocols and the drag-and-drop board - and proves those guarantees.

How the model is built. Each component has a `State` and a function or relation `Step` that says
what one committed request, or one phase of a request, does to it. Where the source changes tables or
fields, a class beside it holds them and does so the way the source does, statement by statement and
loop by loop; each method is proved to end in the state (and reply) that a specification function
gives - `Step` itself, or for deliveries, the limiter, the reminder job and the Kanban board the
function that `Step` or the lemmas are built on. The results about requests, runs and interleavings
are lemmas about these functions. Where a promise does not hold of the code, the project gives the run
that breaks it and proves exactly when it holds.

| File | What it is about |
|---|---|
| Common, Reachability | identifiers, finite sets, paths and cycles in graphs |
| CycleCheck, Dependencies | the iterative cycle check and the dependency requests around it |
| BoardColumns, BoardRaces | column positions rewritten row by row under an immediate UNIQUE constraint, and overlapping requests |
| TaskVersions | compare-and-swap edits, archive and restore, the completion-stamp trigger |
| Numbering | task numbers and identifiers from a counter, through every creator |
| Retry, Workers | three delivery encodings, one retry machine, any number of workers |
| EventPatterns, WebhookQueue | webhook event patterns, and queueing of deliveries |
| RateLimiter | the fixed-window limiter with INCR and EXPIRE apart |
| Membership, OwnershipRaces | workspace owners, roles, invitations and project members, one by one and overlapping |
| Attachments | uploads in phases against the storage quota |
| Kanban | fractional positions of dropped cards |
| Reminders | the hourly deadline job |

## Findings

- Restoring an archived task can close a dependency cycle, because the check only sees rows between
  live tasks. `RestoreClosesCycle` is such a run; `RunAcyclicIff` says exactly which restores do it.
- Two dependency requests checked against the same state can close a cycle together
  (`ConcurrentChecksClose`), and three of which any two are harmless (`ThreeChecksClose`);
  `ConcurrentChecksSafeIff` and, for any number, `ConcurrentChecksManyIff` say exactly when not.
- Rewriting positions with an offset of 10000 can break the UNIQUE constraint on boards of more than
  10000 columns, depending on the order in which the database visits the rows
  (`ReorderAlwaysSucceedsIff`, `DeleteAlwaysSucceedsIff`).
- A column created and committed while a deletion is under way is shifted and never placed, so the
  board has a gap (`CreatedDuringDeletion`). `RunContiguousIff` says exactly which overlaps of
  creations, reorders and deletions leave gaps.
- Archive and restore write a version computed from an earlier read. `VersionCountsMutationsIff` says
  exactly when the version still counts mutations, and `WonVersionsStayBehindIff` when a version that
  an edit has won can come back; `StaleArchiveRepeatsVersion` shows two edits that both succeed with it.
- A delivery's backoff counts from the start of the worker's pass. Committed attempts are spaced by
  the start of their passes (`AttemptsSpaced`); the messages keep the wait exactly when the earlier one
  left at the moment its pass began (`NextKeepsWaitIff`), and two may leave at once (`SendsCanBunch`).
- A pass that dies after sending leaves no trace. The attempts made are at most the limit plus the
  passes that died (`AttemptsMadeBound`), and that many do happen (`AttemptsMadeReached`). A lost
  message waits for the last committed attempt like any other (`EveryMessageWaits`), but lost messages
  owe nothing to each other: any number can leave at one moment (`LostMessagesBunch`).
- In an interval of one window the rate limiter admits at most 2 * limit - 1 requests of a key, one
  fewer than twice the limit; 2 * limit takes a millisecond more (`AdmittedBound`, `BoundReached`).
- Redis rounds TTL to the nearest second and keeps a key through its expiry, so waiting Retry-After
  seconds can be too short by up to half a second; and another call's EXPIRE, sent late, moves the
  expiry back. `RetryAfterSufficesIff` says exactly when the wait is enough.
- Role changes, removals and departures read before a transfer of ownership and written after it can
  leave a workspace without an owner (`RoleChangeLosesOwner`), and then, once no transfer begun earlier
  is still to be written, for ever (`OwnerlessForever`);
  two transfers can leave two (`TransfersMakeTwoOwners`). `RunOwnedIff` says exactly when.
- A project owner who leaves or is removed from the workspace stays the project's owner
  (`ProjectOwnersStayIff`, `RunProjectOwnersIff`).
- Every deletion of an attachment passes through a moment at which its committed row has no object
  (`DeletionPassesGap`). Apart from deletions under way, a row is without its object exactly after a
  deletion that removed the object and ended without a commit - it raised, was rolled back or died -
  with no other deletion of that row under way, or after an upload that cleaned up although its commit
  had succeeded (`ObjectsPresentIff`, `RunPresentIff`).
- A user who deletes a reminder can be reminded again at the next run (`AtMostTwo`, `TwoReached`, `SentSpacedIff`).

## Model

| member | source | states |
|---|---|---|
| CycleCheck.BuildAdjacency | backend/app/domain/collaboration.py:34-36 | the adjacency map lists exactly the targets of every source |
| CycleCheck.WouldCreateDependencyCycle | backend/app/domain/collaboration.py:29-48 | terminates on every finite edge list, duplicates on the stack included, and is true exactly when blocker equals blocked or a path leads from blocked to blocker |
| Reachability.AddEdgeAcyclicIff | backend/app/domain/collaboration.py:37 | adding an edge to an acyclic graph keeps it acyclic exactly when its ends differ and its target does not already reach its source |
| Reachability.AddVertexAcyclicIff | backend/app/api/routes/task_collaboration.py:295-305 | bringing a vertex back with its edges keeps a graph acyclic exactly when none of its successors already reaches one of its predecessors |
| Reachability.AddEdgesAcyclicIff | backend/app/api/routes/tasks.py:683-707 | any number of edges may join an acyclic graph together exactly when their links - from one added edge to the next through the graph - are acyclic |
| Dependencies.TaskGraph.AddDependency | backend/app/api/routes/tasks.py:679-713 | refuses missing tasks, another project and circular rows in that order, returns an existing row, and otherwise adds exactly one row |
| Dependencies.TaskGraph.NotifyDependencyResolved | backend/app/api/routes/tasks.py:104-140 | one message per live dependent and recipient, to exactly its assignees and watchers, none twice |
| Dependencies.ProjectEdgesSuffice | backend/app/api/routes/tasks.py:683-691 | reading only the project's own live rows decides reachability in the whole live graph |
| Dependencies.CircularIff | backend/app/api/routes/tasks.py:692-693 | a row is refused as circular exactly when it would close a cycle among live tasks |
| Dependencies.CreatedIff | backend/app/api/routes/tasks.py:679-707 | on an acyclic live graph a dependency is created exactly between two live tasks of one project that do not have it yet and whose row closes no live cycle; nothing else changes |
| Dependencies.DeletedIff | backend/app/api/routes/tasks.py:723-727 | a row is deleted exactly from a live task at either of its ends, and every other row stays |
| Dependencies.BlockingIff | backend/app/api/routes/task_collaboration.py:174-180 | a task is reported blocked by exactly the live unfinished tasks it depends on |
| Dependencies.StepAcyclicIff | backend/app/api/routes/tasks.py:673-729 | one request of any kind leaves a live cycle exactly when it restores a task one of whose live dependents reaches one of its live blockers |
| Dependencies.RunAcyclicIff | backend/app/api/routes/tasks.py:673-729 | a serial run keeps the live graph acyclic throughout exactly when no restore in it does that |
| Dependencies.RunWithoutRestoreAcyclic | backend/app/api/routes/tasks.py:673-729 | creating and deleting dependencies, completing and archiving keep the live graph acyclic in every run |
| Dependencies.FullGraphAcyclic | backend/app/api/routes/task_collaboration.py:283-305 | with restores too, the graph over all tasks stays acyclic if no row is created while a task of its project is archived |
| Dependencies.RestoreClosesCycle | backend/app/api/routes/task_collaboration.py:295-305 | a run of accepted requests after which three live unfinished tasks block each other |
| Dependencies.UndoneExactly | backend/app/api/routes/tasks.py:703-729 | deleting a row just created, and restoring a task just archived, put everything back |
| Dependencies.ConcurrentChecksSafeIff | backend/app/api/routes/tasks.py:683-707 | two rows checked against one state leave the live graph acyclic together exactly when, in that state, not both blocked tasks already reach the other request's blocker |
| Dependencies.ConcurrentChecksClose | backend/app/api/routes/tasks.py:683-707 | a state in which two requests both pass the check and together close a cycle |
| Dependencies.ConcurrentChecksManyIff | backend/app/api/routes/tasks.py:683-707 | any number of rows checked against one state leave the live graph acyclic together exactly when their links in that state are acyclic |
| Dependencies.ThreeChecksClose | backend/app/api/routes/tasks.py:683-707 | three rows that all pass on one state, any two harmless together, and all three closing a cycle |
| Dependencies.SomeTaskUnblocked | backend/app/api/routes/task_collaboration.py:174-184 | while the live graph is acyclic and live unfinished work exists, some live unfinished task is not blocked |
| Dependencies.CompletionUnblocks | backend/app/api/routes/task_collaboration.py:176-180 | completing a task takes exactly that task out of every blocking set, and reopening puts it back for exactly its dependents |
| BoardColumns.Board.AddProject | backend/app/api/routes/projects.py:83-88 | a new project's columns get the positions 0, 1, ... in the order of their names |
| BoardColumns.Board.AddColumns | backend/app/api/routes/templates.py:197-201 | the same for a project template's columns, one insert at a time |
| BoardColumns.Board.Create | backend/app/api/routes/projects.py:270-291 | refuses blank and duplicate names, and otherwise appends a column behind the largest position |
| BoardColumns.Board.SelectOrdered | backend/app/api/routes/projects.py:374-383 | the project's columns, each once, by increasing position |
| BoardColumns.Board.RewritePositions | backend/app/api/routes/projects.py:393-404 | the two phases row by row: succeeds with their result, or stops at the first write that breaks UNIQUE(project, position) |
| BoardColumns.Board.Reorder | backend/app/api/routes/projects.py:371-404 | the refusals, the row-by-row rewrite, and everything kept if a write clashes; ReorderAcceptedIff says when it goes through and ReorderPlaces what it leaves |
| BoardColumns.Board.Delete | backend/app/api/routes/projects.py:439-498 | the refusals in the handler's order, the move of the tasks, the removal and the rewrite, all or nothing |
| BoardColumns.ReorderAcceptedIff | backend/app/api/routes/projects.py:371-404 | on a board of at most 10000 columns a reorder of a live project is carried out exactly when its list has all the columns, each once |
| BoardColumns.DeleteAcceptedIff | backend/app/api/routes/projects.py:439-498 | on such a board a column is deleted exactly when its project is live and has another one, and the column is empty or another column of the project is named for its tasks |
| BoardColumns.CreateAcceptedIff | backend/app/api/routes/projects.py:265-291 | a column is created exactly when the project is live and the name neither blank nor taken in it, and then stands at position n behind the n columns there |
| BoardColumns.NewProjectAcceptedIff | backend/app/api/routes/projects.py:83-88 | column i of a new project gets name i and position i, and no other column changes |
| BoardColumns.RewriteResult | backend/app/api/routes/projects.py:393-404 | whatever the order of the rows, a completed rewrite puts column i of the list at position i; with at most 10000 columns and no two 10000 apart it completes |
| BoardColumns.ReorderAlwaysSucceedsIff | backend/app/api/routes/projects.py:393-404 | no row write of a reorder clashes in any row order exactly when the board has at most 10000 columns |
| BoardColumns.DeleteAlwaysSucceedsIff | backend/app/api/routes/projects.py:484-498 | the same for the rewrite after a deletion, with the one extra case of 10001 columns and a column at either end |
| BoardColumns.ReorderPlaces | backend/app/api/routes/projects.py:384-404 | after a reorder column_ids[i] is at position i, and nothing else has changed |
| BoardColumns.DeleteKeepsOrder | backend/app/api/routes/projects.py:458-498 | a deletion closes the gap, keeps the others in order, and moves exactly the deleted column's tasks, each to the destination with a new version |
| BoardColumns.DeleteShifts | backend/app/api/routes/projects.py:484-498 | column by column: the deleted one is gone, those behind it in its project are one lower, and nothing else about any column changes |
| BoardColumns.ColumnAt | backend/app/models.py:95-100 | on a contiguous board every position below the number of columns is taken |
| BoardColumns.StepKeepsValid | backend/app/api/routes/projects.py:50-521 | every request, rolled back or not, keeps the positions of every project exactly 0 .. n - 1 and every task in an existing column |
| BoardColumns.StepNeverClashes | backend/app/api/routes/projects.py:393-498 | on boards of at most 10000 columns no request ever breaks the constraint |
| BoardColumns.RunKeepsValid | backend/app/api/routes/projects.py:50-521 | contiguous positions in every run, with boards of any size |
| BoardColumns.PartialRewrite | backend/app/api/routes/projects.py:487-498 | a completed rewrite places the columns of its list and leaves every other column of the project 10000 higher |
| BoardRaces.StepContiguousIff | backend/app/api/routes/projects.py:284-291 | with reads and writes apart, one event leaves a contiguous board contiguous exactly when it is neither the insertion of a column more than one past the last nor a completing rewrite that has not read every column |
| BoardRaces.RunContiguousIff | backend/app/api/routes/projects.py:443-498 | over any interleaving of creations, reorders and deletions the positions stay 0 .. n - 1 throughout exactly when no request in it writes so |
| BoardRaces.OnlyOverlapsHarm | backend/app/api/routes/projects.py:374-404 | they do stay so if no request reads before and writes after another one's commit |
| BoardRaces.WholeReorder | backend/app/api/routes/projects.py:374-404 | read and written undisturbed, a reorder of at most 10000 columns is carried out in whatever order the rows are visited, and puts ids[i] at i and touches nothing else |
| BoardRaces.WholeDeletion | backend/app/api/routes/projects.py:443-498 | undisturbed, a deletion removes its column and moves exactly those behind it down by one |
| BoardRaces.WholeCreation | backend/app/api/routes/projects.py:284-291 | undisturbed, a creation appends the column at the number of columns |
| BoardRaces.CreatedDuringDeletion | backend/app/api/routes/projects.py:443-498 | a column created and committed between a deletion's read and its rewrite leaves the board with a gap |
| TaskVersions.TaskRow.Edit | backend/app/api/routes/tasks.py:216-241 | a patch or move with the trigger behind it: nothing unless the version matches, and then the row that WinningEdit describes |
| TaskVersions.WinningEdit | backend/app/api/routes/tasks.py:267-287 | an edit that carries the present version is committed: a move leaves exactly its column, a patch leaves the column alone and exactly the status it names, a move changes the status only by completing, and the version goes up by one |
| TaskVersions.StampOfEdit | backend/alembic/versions/0007_planning_analytics.py:26-33 | finishing a task stamps it with the clock of the trigger, reopening it removes the stamp, and an edit that leaves the status alone leaves the stamp alone |
| TaskVersions.RowIsLastWrites | backend/app/api/routes/tasks.py:229-287 | over any interleaving the column is that of the last committed move or column deletion, the status that of the last committed edit to set one, the archive flag that of the last archive or restore |
| TaskVersions.UpdateKeepsStamp | backend/alembic/versions/0007_planning_analytics.py:26-33 | whatever status the handler had read, an update composed with the trigger leaves the task stamped exactly when it is done |
| TaskVersions.HandlerAloneKeepsStampIff | backend/app/api/routes/tasks.py:225-228 | without the trigger a patch keeps that exactly when the status it had read was not out of date where it matters |
| TaskVersions.VersionCountsMutationsIff | backend/app/api/routes/tasks.py:229-241 | over any interleaving of patches, moves, archives, restores and column deletions the version is 1 plus the number of committed mutations exactly when no archive or restore was written from an out-of-date read |
| TaskVersions.OneWinnerPerVersion | backend/app/api/routes/tasks.py:230-242 | with archives and restores atomic, at most one patch or move carrying a given version succeeds |
| TaskVersions.WonVersionsStayBehindIff | backend/app/api/routes/task_collaboration.py:284-300 | over any interleaving no version that an edit has won is reached again, exactly when no archive or restore is written after an edit carrying a later version than it had read has won |
| TaskVersions.RunKeepsStamp | backend/alembic/versions/0007_planning_analytics.py:22-41 | a task is done exactly when completed_at is set, in every reachable state of every interleaving |
| TaskVersions.StaleArchiveRepeatsVersion | backend/app/api/routes/task_collaboration.py:284-287 | an archive written from an old read lets two edits succeed with one version |
| Numbering.DecimalRoundTrip | backend/app/api/routes/tasks.py:189 | reading back the decimal digits of a number gives the number |
| Numbering.UpperHasNoDash | backend/app/schemas.py:60-70 | a key that passes the pattern has no dash, also after upper-casing |
| Numbering.IdentifierInjective | backend/app/api/routes/tasks.py:188-189 | KEY-n determines both the key and the number |
| Numbering.IdentifierReads | backend/app/api/routes/tasks.py:188-189 | an identifier is the key, one dash and only digits, which read as the number |
| Numbering.CreatedIff | backend/app/schemas.py:60-70 | a project is created exactly when its key is a letter followed by 1 to 11 letters or digits and no project of the workspace has it in capitals |
| Numbering.TemplateExact | backend/app/api/routes/templates.py:178-221 | a project template is applied exactly when the project can be created, and leaves it with exactly the template's k tasks, numbered 1 to k in order |
| Numbering.Tracker.ApplyTemplate | backend/app/api/routes/templates.py:178-221 | the template's tasks are numbered one after another from a new project's counter |
| Numbering.NumberedKeepsValid | backend/app/api/routes/task_collaboration.py:313-323 | each of the creators keeps the numbers of every project exactly 1 .. counter, each used once |
| Numbering.StepKeepsValid | backend/app/api/routes/templates.py:144-163 | so does every request, project creation and templates included |
| Numbering.ValidIdentifiersUnique | backend/app/models.py:106-109 | then no two tasks of a workspace share an identifier |
| Numbering.RunNumbersUnique | backend/app/api/routes/task_collaboration.py:374-385 | in every run through every creator, numbers are exactly 1 .. counter and identifiers unique per workspace |
| Retry.Claimed | backend/app/webhook_delivery.py:115-130 | the claim: the oldest eligible rows that nobody has locked, in order, at most the limit, and no eligible unlocked row skipped before the last |
| Retry.ProcessPass | backend/app/worker.py:243-331 | one pass processes exactly the claimed rows, each once |
| Retry.ProcessRefines | backend/app/worker.py:247-329 | all three encodings claim a row exactly when one abstract retry machine is ready, and take exactly that machine's steps |
| Retry.ProcessDecreases | backend/app/webhook_delivery.py:80-93 | every processed row has strictly fewer attempts left |
| Retry.WebhookOutcomes | backend/app/webhook_delivery.py:75-93 | a webhook delivery is delivered exactly when accepted, skipped exactly when its subject is gone, exhausted exactly by the fifth failure, and before that waits 2, 4, 8 and 16 minutes |
| Retry.NotificationOutcomes | backend/app/worker.py:283-329 | a notification delivery is sent exactly when accepted, skipped when gone or declined, and otherwise failed, waiting 2 and 4 minutes and the third time for nothing |
| Workers.StepKeepsValid | backend/app/webhook_delivery.py:109-187 | beginning, claiming with SKIP LOCKED, sending, committing and dying keep every row's attempts within the limit and spaced, and no row in two passes |
| Workers.RunRefines | backend/app/webhook_delivery.py:109-187 | in every run, with any number of workers, each row of each table takes exactly the steps of the abstract retry machine |
| Workers.AttemptsSpaced | backend/app/webhook_delivery.py:80-93 | with any number of workers the pass of the k-th committed attempt begins at least 2^k - 2 minutes after that of the first, and no row has more committed attempts than its limit |
| Workers.LastAttempts | backend/app/worker.py:311-329 | the pass of the fifth committed webhook attempt begins at least 30 minutes after that of the first, that of the third committed notification attempt at least 6 |
| Workers.MessagesSpaced | backend/app/webhook_delivery.py:110-172 | two successive committed messages of a row leave at least the backoff apart, less the time the first waited in its own pass |
| Workers.NextKeepsWaitIff | backend/app/webhook_delivery.py:110-172 | for a free row that can be tried again, every continuation keeps the backoff between the last message and the next exactly when the last left at the moment its pass began |
| Workers.AttemptsConserved | backend/app/webhook_delivery.py:158-186 | every attempt ever made at a row is committed, in the hands of the one pass that holds the row, or lost with a pass that died |
| Workers.AttemptsMadeBound | backend/app/webhook_delivery.py:158-186 | the attempts made at a row, dying passes included, are at most the limit plus the number of passes that died after attempting it |
| Workers.AttemptsMadeReached | backend/app/worker.py:243-331 | that bound is reached for every kind of delivery and every number of deaths |
| Workers.EveryMessageWaits | backend/app/webhook_delivery.py:113-130 | every message, lost or not, leaves at least the backoff after the pass of the last committed attempt began |
| Workers.LostMessagesBunch | backend/app/webhook_delivery.py:158-186 | wherever a free row is due, any number of messages can be lost at one and the same moment, leaving the state as it was |
| Workers.ClosedForever | backend/app/webhook_delivery.py:113-130 | a closed row keeps its status, attempts and schedule in every later state |
| Workers.StatusTells | backend/app/webhook_delivery.py:109-187 | in every run a pending row is untried, a failed webhook has 1 to 4 attempts and a next date, an exhausted one exactly 5; a failed notification has a next date exactly before its third attempt |
| Workers.AttemptsFilter | backend/app/worker.py:253-260 | the webhook claim's attempts filter is implied by the other conditions, while the notification claim's is what excludes exactly the rows that failed three times |
| Workers.NotificationNeedsFilter | backend/app/worker.py:253-260 | such a notification row exists: failed, due at any time, and closed only by the filter |
| Workers.WorkBounded | backend/app/worker.py:243-331 | all committed passes of a run together write at most limit rows per delivery ever queued |
| Workers.SendsCanBunch | backend/app/webhook_delivery.py:110-172 | the extreme case: the first and second message of one delivery leave at the same moment |
| EventPatterns.Clean | backend/app/api/routes/integrations.py:80-89 | accepts a list exactly when every stripped pattern is allowed, and keeps the first occurrence of each in order |
| EventPatterns.Events | backend/app/api/routes/integrations.py:80-92 | the joined text of 1 to 30 distinct allowed patterns, or a refusal |
| EventPatterns.AcceptableIff | backend/app/api/routes/integrations.py:80-91 | a list is accepted exactly when every stripped pattern has 1 to 80 letters, digits, dots, underscores, dashes or stars and there are 1 to 30 different ones |
| EventPatterns.StripTrims | backend/app/api/routes/integrations.py:83 | stripping takes away exactly the white space at both ends |
| EventPatterns.Matches | backend/app/webhook_delivery.py:18-25 | true exactly when some part of the stored text, stripped, is a star, the event, or a prefix of it followed by a star |
| EventPatterns.SplitJoin | backend/app/api/routes/integrations.py:92 | splitting what was joined gives back the parts when none contains a comma |
| EventPatterns.EventsRoundTrip | backend/app/api/routes/integrations.py:80-92 | splitting a stored subscription gives back its stripped, duplicate-free patterns in order |
| EventPatterns.StoredMatchesIff | backend/app/webhook_delivery.py:18-25 | a stored subscription matches an event exactly when one of the given patterns equals it or is a trailing-star prefix of it |
| WebhookQueue.Queue.OldestFirst | backend/app/webhook_delivery.py:39-56 | the oldest items of a hook's backlog, at most the limit; RowsConcernTheirHook, OlderFirst and ShortPassCoversAll say which activities those are |
| WebhookQueue.Queue.QueueFor | backend/app/webhook_delivery.py:57-70 | one row per chosen activity, pending if the hook subscribed to it and skipped otherwise, counting the pending ones |
| WebhookQueue.Queue.QueueDeliveries | backend/app/webhook_delivery.py:28-72 | a pass over the active hooks: rows only from their backlogs, each once, oldest first, each backlog shrunk by the limit as far as it goes |
| WebhookQueue.RowsConcernTheirHook | backend/app/webhook_delivery.py:42-66 | every row a pass adds is for an active hook and an activity of that hook's own workspace, not older than the hook, pending exactly if subscribed |
| WebhookQueue.ShortPassCoversAll | backend/app/webhook_delivery.py:42-55 | conversely, when a pass gives an active hook fewer rows than the limit, every activity of its workspace that is not older than the hook has a row |
| WebhookQueue.OlderFirst | backend/app/webhook_delivery.py:54-55 | no activity of the hook's workspace that is left without a row is older than one the pass has queued |
| WebhookQueue.RunRowsConcernHooks | backend/app/webhook_delivery.py:28-72 | in every run from nothing each delivery is of an activity of the hook's own workspace, no older than the hook |
| WebhookQueue.HookExtends | backend/app/webhook_delivery.py:38-70 | serving one more hook extends that by the hook and disturbs no other |
| WebhookQueue.BacklogDrains | backend/app/webhook_delivery.py:38-70 | after r passes with no new activity exactly max(0, backlog - r * limit) activities are left |
| WebhookQueue.RunNoDuplicates | backend/app/webhook_delivery.py:46-55 | in every run no activity gets two rows for one hook and no row is lost |
| RateLimiter.Limiter.Enforce | backend/app/security_controls.py:38-52 | the counter and expiry after one call, also one whose process dies before EXPIRE, and its verdict |
| RateLimiter.SeenProgress | backend/app/security_controls.py:39-44 | of two requests in time order the later sees the same key with a larger count, or a later key that began more than a window after the first key |
| RateLimiter.AdmittedBound | backend/app/security_controls.py:38-47 | with EXPIREs late, repeated or lost, any interval of one window, both ends included, admits at most 2 * limit - 1 requests of a key, and one a millisecond longer at most 2 * limit |
| RateLimiter.BoundReached | backend/app/security_controls.py:38-47 | both bounds are reached for every limit and window, the first even by a half-open interval |
| RateLimiter.CompletedCallRepairs | backend/app/security_controls.py:42-44 | after any completed call the key expires within one window, however many calls died before |
| RateLimiter.ExpiryKept | backend/app/security_controls.py:42-44 | further calls in the window raise the count and leave the expiry where it was |
| RateLimiter.RetryAfterSufficesIff | backend/app/security_controls.py:42-51 | whatever INCRs and EXPIREs arrive meanwhile, a refused caller that waits Retry-After seconds finds the counter gone exactly when rounding the TTL lengthened the wait and no EXPIRE of another call reached the key before it expired |
| RateLimiter.RetryAfterWholeCallsIff | backend/app/security_controls.py:45-51 | with only whole calls meanwhile, exactly when rounding lengthened the wait; half a second more is always enough |
| Membership.ManageIffOutranks | backend/app/domain/collaboration.py:9-26 | the role rules say: owner or admin, strictly above the target and above the requested role; inviting to a role is managing a member of that role |
| Membership.StepKeepsValid | backend/app/api/routes/workspaces.py:113-657 | every request keeps: one owner membership per workspace, that of owner_id; project members are workspace members; nobody is invited to own |
| Membership.RunKeepsValid | backend/app/api/routes/workspaces.py:113-657 | so does every run |
| Membership.StepIsSound | backend/app/api/routes/workspaces.py:171-266 | every request keeps the invariant and every other workspace, and a refusal changes nothing at all |
| Membership.RequestsStayInside | backend/app/api/routes/workspaces.py:113-657 | a request changes nothing - members, projects, project members, invitations, flags - of any workspace but the one it is about |
| Membership.WorkspacesIsolated | backend/app/api/deps.py:113-143 | in every run a workspace that no request is about stays exactly as it is |
| Membership.ExactlyOneOwner | backend/app/api/routes/workspaces.py:500-538 | in every run from nothing the set of owner memberships of a workspace is exactly that of its owner_id |
| Membership.OwnershipMovesOnlyByTransfer | backend/app/api/routes/workspaces.py:500-538 | a workspace changes hands only by a transfer its owner makes to a member |
| Membership.RankRisesOnlyByOutranking | backend/app/domain/collaboration.py:17-26 | nobody gains rank except from someone who outranked them, and by a role change nobody rises to or above that person's rank; newcomers only found the workspace, or accept an open, unexpired invitation to it, addressed to them, with exactly its role |
| Membership.CarriedOutIff | backend/app/api/routes/workspaces.py:113-657 | each request is carried out exactly when the ranks of those concerned and the state of the workspace, project or invitation allow it, and otherwise changes nothing |
| Membership.RolesAreLastGranted | backend/app/api/routes/workspaces.py:179-266 | after any run every role in every workspace and project is the one last granted - the role asked for, or offered, or admin to a former owner - and a request changes no other role |
| Membership.InvitationsAfter | backend/app/api/routes/workspaces.py:294-657 | an invitation stays as it was sent until it is accepted, which keeps it as used, or cancelled, rejected or swept away with an archived or deleted workspace |
| Membership.InvitationsVouched | backend/app/api/routes/workspaces.py:294-343 | in every run from nothing, the role of any invitation was offered by an owner or admin who outranked it at that moment |
| Membership.RankFallsOnlyBy | backend/app/api/routes/workspaces.py:171-266 | nobody loses rank or membership except by leaving, by handing over ownership, at the hands of someone who outranked them, or with the workspace when its owner deletes it |
| Membership.ProjectOwnersStayIff | backend/app/api/routes/workspaces.py:223-257 | one request keeps every project owner a workspace member exactly when it is not the departure of a member who owns a project, or a removal of one by a manager who outranks them |
| Membership.RunProjectOwnersIff | backend/app/api/routes/workspaces.py:604-621 | throughout a run every project owner is a workspace member exactly when there is no such request in it |
| OwnershipRaces.StepOwnedIff | backend/app/api/routes/workspaces.py:179-200 | with reads and writes apart, one event leaves exactly one owner membership, that of owner_id, exactly when it does not write to the present owner's role or row, nor hand over an ownership that has gone to a third member; a write to a row deleted since does nothing, even if its member has joined again |
| OwnershipRaces.RunOwnedIff | backend/app/api/routes/workspaces.py:507-527 | over any interleaving of role changes, transfers, removals, departures and joins that holds throughout exactly when no request in it writes so |
| OwnershipRaces.OnlyTransfersHarm | backend/app/api/routes/workspaces.py:238-257 | it does hold if no request reads before and writes after a transfer is committed |
| OwnershipRaces.UndisturbedRefines | backend/app/api/routes/workspaces.py:171-257 | read and written undisturbed, a role change, transfer, removal or departure does to roles and ownership what the directory of Membership does, and is refused exactly when that refuses |
| OwnershipRaces.OwnerlessForever | backend/app/api/routes/workspaces.py:500-527 | a workspace without an owner membership, with no transfer begun earlier still to be written, never gets one again, whatever is requested |
| OwnershipRaces.RoleChangeLosesOwner | backend/app/api/routes/workspaces.py:179-200 | a role change read before a transfer to the same member and written after it leaves no owner, for ever |
| OwnershipRaces.TransfersMakeTwoOwners | backend/app/api/routes/workspaces.py:500-527 | two transfers that read the same owner leave two owner memberships |
| Attachments.AttachmentStore.SumSizes | backend/app/api/routes/attachments.py:121-126 | the committed bytes of one workspace |
| Attachments.AttachmentStore.UploadAttachment | backend/app/api/routes/attachments.py:96-174 | an undisturbed upload is its phases in a row, and succeeds exactly when the file and the sum fit and storage and commit work |
| Attachments.AttachmentStore.DeleteAttachment | backend/app/api/routes/attachments.py:239-248 | an undisturbed deletion is its phases in a row, with the reply of each outcome; DeletionKeepsOthers says which rows are left |
| Attachments.DeletionKeepsOthers | backend/app/api/routes/attachments.py:247-248 | a committed deletion leaves exactly the rows with other ids, each once and in the same order |
| Attachments.DeletionFreesBytes | backend/app/api/routes/attachments.py:247-248 | it gives its workspace back exactly the bytes of the attachment, and no other workspace any |
| Attachments.RowsComeAndGo | backend/app/api/routes/attachments.py:146-248 | in any step a row goes exactly when a deletion of its own id commits, and comes exactly when its own stored upload does |
| Attachments.AttachmentStays | backend/app/api/routes/attachments.py:239-248 | in any interleaving a committed attachment stays until a deletion of its own id commits |
| Attachments.StepKeepsQuota | backend/app/api/routes/attachments.py:96-165 | every phase of every upload, and every deletion in between, keeps the committed bytes within the quota |
| Attachments.RunWithinQuota | backend/app/api/routes/attachments.py:258-269 | in any interleaving the quota holds, so the reported remaining bytes are exactly quota minus used |
| Attachments.ObjectsPresentIff | backend/app/api/routes/attachments.py:137-174 | a step leaves every row with its stored object, or with a deletion under way that has called storage, unless such a deletion ends without a commit and was the only one to account for the missing object, or storage removed it and raised, or an upload cleans up although its row was committed |
| Attachments.RunPresentIff | backend/app/api/routes/attachments.py:239-248 | throughout an interleaving of uploads, deletions and deaths that holds exactly when no such step occurs |
| Attachments.DeletionPassesGap | backend/app/api/routes/attachments.py:242-248 | every ordinary deletion passes through a committed row without its object and ends with neither |
| Kanban.KanbanBoard.Moved | web/components/kanban-board.tsx:79-103 | what a drag over a card, a column or nothing makes of the shown cards, and that a refusal restores them |
| Kanban.SortSorts | web/components/kanban-board.tsx:61 | the column view is ordered by position and holds exactly the column's cards |
| Kanban.PositionFits | web/components/kanban-board.tsx:85-91 | the computed position lies strictly between its new neighbours |
| Kanban.DropInserts | web/components/kanban-board.tsx:79-93 | the destination then shows the old list with the card just before the target, or last, still strictly increasing |
| Kanban.DropLeaves | web/components/kanban-board.tsx:92-93 | every other column shows its old list without the card |
| Kanban.DropRefines | web/components/kanban-board.tsx:79-93 | on ids, one possible drop is removal and insertion in every column |
| Kanban.DropPlaces | web/components/kanban-board.tsx:77-93 | on any column, an accepted drop that makes sense puts the card immediately before the target, or last, and takes it out of every other column, the others in their old order; any other drop changes nothing |
| Kanban.OnlyThatCard | web/components/kanban-board.tsx:92-93 | only the dropped card changes: its column becomes the destination and its version goes up by one |
| Kanban.PositionOfDrop | web/components/kanban-board.tsx:84-91 | where the destination shows the card, it is halfway between its neighbours, 1000 away from its only neighbour, or at 1000 when alone |
| Kanban.PossibleIff | web/components/kanban-board.tsx:77-81 | the page and plain lists of ids agree on which drops make sense |
| Kanban.StepRefines | web/components/kanban-board.tsx:79-97 | one drop, possible or not, accepted or not, is one step of a board of plain lists |
| Kanban.DropsRefineLists | web/components/kanban-board.tsx:79-97 | any sequence of drops shows what the same drops make of plain lists, which know no positions; and positions in a column never collide |
| Reminders.Reminder.DeadlineReminders | backend/app/worker.py:129-176 | the loops over tasks and assignees insert exactly the specified notices and count them |
| Reminders.RemindersSpaced | backend/app/worker.py:154-162 | two reminders of one user and task that exist together are more than 18 hours apart, whatever happens to the tasks and whenever the job runs; so are any two ever created if the user deleted none |
| Reminders.SentSpacedIff | backend/app/worker.py:154-172 | all reminders ever created of one user and task are more than 18 hours apart exactly when the job never reminds within 18 hours of one that was deleted |
| Reminders.AtMostTwo | backend/app/worker.py:130-174 | while a task keeps its due date a user has at most two reminders of it, and is reminded at most twice plus once for every reminder deleted |
| Reminders.TwoReached | backend/app/api/routes/notifications.py:105-120 | both bounds are reached, for any number of deletions |
| Reminders.RemindersConserved | backend/app/api/routes/notifications.py:105-120 | the reminders ever created are those still there and those deleted |
| Reminders.PassQuietly | backend/app/worker.py:135-172 | a run adds at most one reminder per user and task, only for an assignee of a task due soon, only if the last is over 18 hours old |
| Reminders.NobodyForgotten | backend/app/worker.py:135-172 | after a run every assignee of every task due within a day has a reminder less than 18 hours old |
| Reminders.RemindedIff | backend/app/worker.py:135-172 | a run reminds a user of a task, once, exactly when the task is unfinished, not archived, due within 24 hours and assigned to the user, who has no reminder of it from the last 18 hours |

## Left out

- Interleaved requests: outside TaskVersions, Workers, Attachments, RateLimiter, OwnershipRaces, BoardRaces and the concurrency lemmas of Dependencies, one committed request is one step; a read with FOR UPDATE returns the fresh row.
- BoardRaces: leaves out the check for duplicate names and the tasks of a deleted column; a request that waits for row locks appears as one that begins when it gets them.
- OwnershipRaces takes all the reads of one handler as one moment and all its writes as another, as they are flushed together before the commit.
- Access checks on boards, tasks, dependencies and numbering: these models start after the project or task has been found accessible; Membership models the checks themselves. Checks that an account is active are left out everywhere.
- Rows with a UNIQUE pair (dependencies, memberships) are identified by that pair and not by their own id, except in OwnershipRaces, where the row matters.
- HTTP, SMTP, push, object storage, encryption and URL checks: each is an outcome the environment chooses.
- The rate limiter's error path, which admits a request when Redis fails, and the hashing of its key. That Redis reports TTL rounded to the nearest second and keeps a key until its expiry, to the millisecond, has passed is an assumption here.
- IEEE rounding of card positions: real numbers are used, and positions are not claimed distinct across columns. Cards changed by somebody else during a drag are not modelled.
- Kanban.KanbanBoard.Moved: does not say what happens when one id names both a column and a card, which UUIDs exclude.
- Validation of start and due dates, titles and descriptions in task edits, and renaming of columns: independent of the properties.
- BoardColumns.Board.Put: stands for task creation and moves only as far as columns and versions are concerned.
- The length of the stored event list (30 patterns of 80 characters exceed the column's 1000) and the character tables of the runtime, of which EventPatterns only assumes what Lawful says.
- Concurrent runs of the queueing and reminder jobs: UNIQUE(webhook, activity) would refuse the second row of a pair; for reminders nothing would.
- The e-mail digest, dispatch of notifications to channels, comments, labels, search, analytics, settings other than guest access, realtime messages and account or session code: read-only queries, field copying or single flags.
- Membership: cancelling and rejecting invitations, guest access, archiving, restoring and deleting a workspace appear as steps of the model only, not also as methods of the class.
- Retry.Delivery.SendInvitation: leaves out the early exit of the job when no SMTP host is configured, and the clearing of the delivery token after success, which the status already excludes.
- Workers.StepKeepsValid: deletion of delivery rows is not modelled; rows are only withdrawn.
