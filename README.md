# TaskFlow: a Dafny model of the task and user tables

TaskFlow is a CRUD task manager. Its server side is a document store with two tables, `tasks` and `users`. A thin layer of queries and mutations runs over them (convex/tasks.ts, convex/users.ts). On top of that, the client derives the dashboard's counters, its tabs and the creation form's submit logic. This project models that layer in Dafny and proves what it promises.

- `Schema` (schema.dfy) holds the two record types and the priority enum. Required fields are plain fields and optional ones are `Option`s. A Convex `_id` and `_creationTime` are one natural-number counter, so ids grow with creation.
- `Sequences` (sequences.dfy) is reversal, the model of `.order("desc")`.
- `TaskFilter` (task_filter.dfy) is order-preserving selection by a first-order `Criterion`: owner, completion, priority, id, negation and conjunction. Every `.filter` of the code is one of these. The module also holds the algebra of selection: append, reverse, conjunction, partition, order, and uniqueness of a newest-first listing.
- `Tasks` (tasks.dfy):
  - The class `TaskTable` holds the rows in creation order plus the creation counter.
  - The three queries are functions.
  - The four mutations are methods whose `ensures` give the whole new table.
- `Users` (users.dfy):
  - The class `UserTable` has the first-match lookup.
  - The upsert is specified by the function `Upserted`, with lemmas about lookup after upsert, uniqueness of `userId` and other users.
  - `updateLastSeen` is also a method on the class.
- `TaskStats` (task_stats.dfy):
  - The four counters.
  - The completion rate, computed exactly: `Math.round(c / t * 100)` is `(200c + t) div 2t`.
  - The four cards.
- `Dashboard` (dashboard.dfy) covers:
  - the query key;
  - `tasks || []`;
  - the skeleton-or-board choice;
  - the four tabs.
- `Text` (text.dfy) is ECMAScript `String.prototype.trim`, over the WhiteSpace and LineTerminator characters of ECMA-262.
- `CreateTaskForm` (create_task_form.dfy):
  - The class `Form` holds the five state fields.
  - `HandleSubmit` does the blank-title check, the normalised `createTask` arguments, and the reset or keep of the fields followed by clearing `isLoading`.

Time (`Date.now()`) is a parameter `now`. The signed-in user and the query result are parameters of `Dashboard.Render`. Whether the awaited mutation rejects is the parameter `storeFails` of `HandleSubmit`.

convex/tasks.ts:49-65 inserts its arguments as given; only the form (components/create-task-form.tsx:34-43) trims and checks the title. So `Tasks.TaskTable.CreateTask` accepts any title, and `CreateTaskForm.FormTitlesAreTrimmed` states what the form guarantees.

## Model

| member | source | states |
|---|---|---|
| Schema.ParsePriority | convex/schema.ts:9 | exactly the three literals "low", "medium", "high" are priorities, and each parses back to its own literal |
| Schema.PriorityRoundTrip | convex/schema.ts:9 | every priority's literal parses back to that priority |
| TaskFilter.Filter | components/dashboard.tsx:76-88 | a selection keeps exactly the elements that satisfy the criterion, and is never longer than its input |
| TaskFilter.FilterReverse | convex/tasks.ts:25-27 | filtering a newest-first listing equals reversing the filtered creation-order listing |
| TaskFilter.FilterAnd | components/task-stats.tsx:22 | selecting by a conjunction equals two successive selections |
| TaskFilter.FilterKeepsAllIff | components/task-stats.tsx:20 | a selection keeps the whole list if and only if every element satisfies the criterion |
| TaskFilter.FilterEmptyIff | components/task-stats.tsx:20 | a selection is empty if and only if no element satisfies the criterion |
| TaskFilter.FilterPartition | components/dashboard.tsx:76-82 | a criterion and its negation split a list: the multisets add up to the list and the lengths to its length |
| TaskFilter.FilterAscending | convex/tasks.ts:8-12 | selecting from an id-ascending list gives an id-ascending list |
| TaskFilter.FilterDescending | components/dashboard.tsx:76-88 | selecting from a newest-first list gives a newest-first list |
| TaskFilter.DescendingListingUnique | convex/tasks.ts:8-12 | two newest-first lists with the same members are equal, so a listing is fixed by which tasks it holds |
| Sequences.Reverse | convex/tasks.ts:11 | the result has the input's length, and its i-th element is the input's element i places from the end |
| Tasks.Patch | convex/tasks.ts:79-83 | a patched task has each supplied field's new value, keeps each absent field, keeps its id, owner and createdAt, and has updatedAt = now |
| Tasks.EmptyPatchTouchesOnlyUpdatedAt | convex/tasks.ts:79-83 | a patch with no fields supplied changes only updatedAt |
| Tasks.PatchIdempotent | convex/tasks.ts:79-83 | applying the same patch twice equals applying it once at the later time |
| Tasks.Toggled | convex/tasks.ts:104-107 | a toggled task differs from the original only in completed, which is negated, and updatedAt, which is now |
| Tasks.ToggleTwiceRestores | convex/tasks.ts:104-107 | two toggles give back the original task except for updatedAt, which carries the second time |
| Tasks.RemoveAtIsFilter | convex/tasks.ts:88-92 | with ascending ids, removing the row at a position equals selecting every row with another id |
| Tasks.ListingAfterInsert | convex/tasks.ts:59-64 | appending a row puts it at the head of its owner's newest-first listing and leaves every other owner's listing unchanged |
| Tasks.TaskTable.Get | convex/tasks.ts:99-100 | the lookup by id finds nothing exactly when no row has the id, and otherwise finds a row with that id |
| Tasks.TaskTable.GetUserTasks | convex/tasks.ts:5-13 | the listing holds exactly the table's tasks with that owner, each as often as in the table, newest first, and is empty when the owner has none |
| Tasks.TaskTable.GetTasksByCompletion | convex/tasks.ts:17-29 | the result is the owner listing filtered to the given completed value, order kept from the index scan and reverse |
| Tasks.TaskTable.GetTasksByPriority | convex/tasks.ts:33-45 | the result is the owner listing filtered to the given priority, order kept from the index scan and reverse |
| Tasks.TaskTable.CreateTask | convex/tasks.ts:49-65 | the table gains exactly one row at the end with the next id, the arguments unchecked, completed = false and createdAt = updatedAt = now; the owner's listing gains it at the head; other owners' listings are unchanged |
| Tasks.TaskTable.UpdateTask | convex/tasks.ts:69-84 | the row with the id becomes its patch at now, every other row is unchanged, and the row count and counter stay |
| Tasks.TaskTable.DeleteTask | convex/tasks.ts:88-92 | the table becomes the selection of rows with another id: one row fewer, that id gone, the rest in order |
| Tasks.TaskTable.ToggleTaskCompletion | convex/tasks.ts:96-108 | a missing id fails with TaskNotFound and leaves the table as it was; otherwise the row with the id is toggled at now and every other row is unchanged |
| Tasks.ToggleTwice | convex/tasks.ts:96-108 | two sequential toggles of an existing task leave the table as it was except for that row's updatedAt |
| Users.FirstIndex | convex/users.ts:8-11 | the index-ordered first match: a row with that userId and none before it, or nothing exactly when no row matches |
| Users.Upserted | convex/users.ts:24-42 | an upsert adds one row exactly when no row has the userId; every existing row keeps its id and userId; with a match only the first matching row changes, to its refreshed form; without one the new row has the next id, the profile, and createdAt = lastSeen = now |
| Users.Refreshed | convex/users.ts:31-35 | the patched user row has the new email, the supplied name and avatar, lastSeen = now, and its own id, userId and createdAt |
| Users.UpsertThenLookup | convex/users.ts:24-42 | an upsert adds a row exactly when no row matched; afterwards the lookup finds a row with the new email, supplied name and avatar and lastSeen = now; an inserted row has createdAt = now, a patched row is the refreshed old row |
| Users.UpsertKeepsUnique | convex/users.ts:24-42 | starting from at most one row per userId, a sequential upsert keeps at most one row per userId |
| Users.UpsertTwiceAddsOneRowAtMost | convex/users.ts:24-42 | two upserts for one userId add at most one row, and the second adds none |
| Users.UpsertLeavesOthers | convex/users.ts:24-42 | an upsert does not change what the lookup finds for any other userId |
| Users.DuplicateUserIdsRepresentable | convex/schema.ts:28 | the userId index is not unique: a valid table can hold two rows for one userId, and the lookup then finds the older one |
| Users.UserTable.GetUser | convex/users.ts:5-12 | the result is nothing exactly when no row has the userId, and otherwise is a row with that userId that no earlier row's userId matches; on a valid table it is the oldest such row, with no smaller id among the matches |
| Users.UserTable.UpsertUser | convex/users.ts:16-44 | the table becomes the upsert of the old table; it reports an insert with the next id exactly when the user was absent; it keeps uniqueness of userId; the lookup afterwards has the new email and lastSeen |
| Users.UserTable.UpdateLastSeen | convex/users.ts:47-61 | with no matching row the table is unchanged; otherwise only the first match's lastSeen changes, to now |
| TaskStats.CompletedTasks | components/task-stats.tsx:20 | the count is at most the total, equals it if and only if all tasks are done, and is 0 if and only if none is |
| TaskStats.PendingTasks | components/task-stats.tsx:21 | the total minus the completed count is never negative and equals the number of tasks not done |
| TaskStats.HighPriorityTasks | components/task-stats.tsx:22 | the count is at most the total, and is 0 if and only if no task is both high priority and open |
| TaskStats.HighPriorityArePending | components/task-stats.tsx:22 | the high-priority count is the high selection of the open tasks, so it never exceeds the pending count |
| TaskStats.Percent | components/task-stats.tsx:24 | the result is the round-half-up of 100c/t: twice t times the result is at most 200c + t, and 200c + t is below twice t times the result plus one |
| TaskStats.PercentUnique | components/task-stats.tsx:24 | only one whole number satisfies those rounding bounds |
| TaskStats.PercentExtremes | components/task-stats.tsx:24 | for c <= t the rate is at most 100; it is 100 if and only if 200c >= 199t, and 0 if and only if 200c < t |
| TaskStats.CompletionRate | components/task-stats.tsx:24 | the rate is 0 for an empty list and otherwise meets the rounding bounds for completed over total |
| TaskStats.CompletionRateBounds | components/task-stats.tsx:24 | the rate never exceeds 100; it is 100 when every task is done and there is one, and 0 when none is done |
| TaskStats.OneOpenTaskCanRead100 | components/task-stats.tsx:24 | with exactly one open task out of t, the rate reads 100 if and only if t >= 200 |
| TaskStats.RoundingExamples | components/task-stats.tsx:24 | 199 of 200 reads 100 and 1 of 201 reads 0 |
| TaskStats.StatCards | components/task-stats.tsx:26-68 | four cards titled "Total Tasks", "Completed", "Pending", "High Priority", showing the total, the completed, pending and open high-priority counts; completed plus pending is the total; the high count is between 0 and the pending count; only the "Completed" card carries the rate, which is the completion rate and at most 100, and only when there is a task |
| Dashboard.QueryUserId | components/dashboard.tsx:16-18 | the listing is keyed by the signed-in user's id, or by "" when there is none |
| Dashboard.OrEmpty | components/dashboard.tsx:31 | a result not yet loaded reads as the empty list; a loaded one reads unchanged |
| Dashboard.Render | components/dashboard.tsx:20-88 | the skeleton exactly when nobody is signed in; otherwise the all tab is the result unchanged, the cards are computed from it, and pending, completed and high hold exactly its open, done and high-priority tasks |
| Dashboard.UnloadedIsEmpty | components/dashboard.tsx:31-88 | before the result arrives every tab is empty and every counter is 0 |
| Dashboard.PendingCompletedPartition | components/dashboard.tsx:76-82 | the pending and completed tabs share no task, and add up to the all tab in length and as a multiset |
| Dashboard.TabsKeepOrder | components/dashboard.tsx:71-88 | every tab keeps the listing's newest-first order |
| Dashboard.TabsMatchServerQueries | components/dashboard.tsx:16-88 | for a signed-in user, on the listing keyed by the query key, the dashboard is a board whose all tab is that user's listing, whose pending and completed tabs equal the completion query for false and for true, and whose high tab equals the priority query for high, all for the user's own id |
| Dashboard.SignedOutKey | components/dashboard.tsx:16-22 | without a user the key is "", so the listing holds exactly the tasks owned by "", and the dashboard shows only the skeleton |
| Text.Trim | components/create-task-form.tsx:34 | what is cut from either side is all whitespace or line terminators, what remains starts and ends with neither, and the result is empty if and only if the whole string is trimmable |
| Text.TrimIdempotent | components/create-task-form.tsx:43 | trimming twice is trimming once |
| CreateTaskForm.Blank | components/create-task-form.tsx:34 | a title is blank if and only if every character of it is whitespace or a line terminator |
| CreateTaskForm.OptionalText | components/create-task-form.tsx:44 | the description is absent if and only if it is all whitespace; otherwise it is the trimmed text, non-empty, running from the first to the last non-trimmable character with only trimmable characters cut on either side |
| CreateTaskForm.SubmitArgs | components/create-task-form.tsx:42-48 | the title sent is the trimmed title, non-empty with no leading or trailing whitespace; the description is the optional trimmed text; priority, due date and owner are passed as they are |
| CreateTaskForm.SubmitArgsIdempotent | components/create-task-form.tsx:42-48 | normalising already-normalised arguments gives them back unchanged |
| CreateTaskForm.FormTitlesAreTrimmed | components/create-task-form.tsx:34-43 | a title sent by the form is non-empty and unchanged by trimming |
| CreateTaskForm.Form.constructor | components/create-task-form.tsx:23-27 | the form starts with empty title and description, medium priority, no due date and not loading |
| CreateTaskForm.Form.HandleSubmit | components/create-task-form.tsx:31-62 | a blank title returns TitleRequired with form and table unchanged; a rejected create leaves table and fields unchanged; a successful create appends the normalised task and resets the fields; isLoading ends false either way |

## Left out

- TaskStats.CompletionRateBounds: the claim that the rate reads 100 *only* when every task is done is not stated, because the code as written does not keep it. Rounding hides one open task among 200 or more. `TaskStats.OneOpenTaskCanRead100` and `TaskStats.RoundingExamples` prove the boundary. This follows `Math.round`; it is not claimed as a defect.
- TaskStats.Percent, TaskStats.CompletionRate (and so the rate on the "Completed" card of `TaskStats.StatCards`): they compute on exact rationals. JavaScript first computes `c / t * 100` in binary floating point, which can land just off an exact half, so a float result may differ by one at such points: for 29 of 200, JavaScript gives `Math.round(14.499999999999998)` = 14, and the model gives 15. Floating point is not modelled.
- Tasks.TaskTable.UpdateTask, Tasks.TaskTable.DeleteTask: both require the id to exist. The store library decides what `db.patch` and `db.delete` do on a missing id, and that library is not part of this model.
- Ids and creation time: a Convex `_id` is an opaque string and `_creationTime` a float time stamp. Both are the one counter `nextId`, which keeps their order. The creation order of rows is the order of the table sequence.
- Time is a parameter `now` and is not required to be monotone. So `updatedAt >= createdAt` is not an invariant of the model; it is not one of the code either.
- Concurrency is not modelled: live subscriptions, the re-rendering they cause, and mutations running at the same time. The model covers only sequential calls. Whether two concurrent first upserts for one userId can both insert depends on the store's transaction semantics, which are not part of this model. The schema itself allows two rows for one userId (convex/schema.ts:28), as `Users.DuplicateUserIdsRepresentable` shows.
- The indexes `by_completion`, `by_priority`, `by_due_date` and `by_email` (convex/schema.ts:16-18, 29) are declared but no modelled query uses them.
- Argument validation from the `v.*` validators is captured by the types only for the priority enum and for `Option` on optional fields. Rejection of ill-typed arguments at the wire is not modelled.
- Millis is an integer, but `v.number()` (convex/schema.ts:10, 12-13, 25-26; convex/tasks.ts:54, 76) is a float64. So fractional, NaN and infinite numbers in `dueDate` are not modelled, and nor is the bound on the integers a float64 holds exactly. `Date.now()` and `getTime()` give integers, and no modelled operation computes with these fields.
- CreateTaskForm.Form.HandleSubmit:
  - The toasts, the `console.error` and `e.preventDefault()` are left out: they are output only.
  - The await is atomic in the model. A user editing fields while the mutation is in flight is not modelled.
  - A rejected mutation is the `storeFails` parameter, and it leaves the table unchanged.
  - `dueDate?.getTime()` is the already-converted `Option<Millis>`.
- Dashboard.Render: the header, the form card and all JSX markup are left out, and so is the `DashboardSkeleton` markup (components/dashboard.tsx:102-158); they are presentation. The identity provider and the live query are the parameters `user` and `result`.
- components/task-list.tsx, components/landing-page.tsx, components/dashboard-header.tsx, app/layout.tsx and lib/clerk.tsx are not part of this model. They hold presentation, provider wiring and handlers that only forward to the modelled mutations. The due-date labels there also depend on the wall clock and time zone.
- Text.Trim: strings are sequences of Dafny `char`, which are Unicode scalar values. JavaScript strings are UTF-16 code units. That makes no difference to `trim`, because every trimmable character is in the Basic Multilingual Plane.
