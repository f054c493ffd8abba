# Task tracker data-access layer, modelled in Dafny

This project models the data-access layer of a personal task tracker, found in
`lib/firebase/firestoreService.ts`. The layer has two parts:

- a **progress calculator**, which turns a task's activity checklist into a
  whole percentage from 0 to 100;
- a **task store client**, which creates, lists and deletes tasks and adds,
  toggles and removes activities. It works against a `tasks` document
  collection and is scoped to the signed-in user.

The collection is a `map<TaskId, TaskDoc>` held by the class
`Tasks.TaskStore`, next to an optional current user id. Each exported
function is a method of that class. The method returns what the source
returns: an optional id, a boolean, or a list of tasks. The SDK calls become
plain operations on the map. A ghost counter `writes` counts the successful
calls to `addDoc`, `updateDoc` and `deleteDoc`, so the contracts can say when
an operation writes nothing. A write that throws changes nothing and is not
counted. Store exceptions are two parameters, `readFails` (`getDoc`/`getDocs`
throws) and `writeFails` (the write throws). When the read fails, or when a
write is attempted and fails, the method returns the failure value and leaves
the state unchanged. When `writeFails` is set but no write is needed,
`UpdateActivityStatus` and `DeleteActivityFromTask` still report success, as
the source does at lines 191-203 and 295-300.
Three more values come from the environment and are parameters with the
preconditions their sources guarantee:

- the uuid of a new activity is unused anywhere in the store;
- the id that `addDoc` assigns is new and non-empty;
- the server timestamp of a new task is later than every stored one.

Files:

- `wrappers.dfy`: `Option`.
- `text.dfy`: JavaScript's `String.prototype.trim`, over the ECMAScript
  white-space and line-terminator code points.
- `activities.dfy`: the `Activity` record and the three rewrites of an
  `activities` array: append, map-replace of `completed` (`SetStatus`, built
  by the loop `ScanStatus`) and filter-remove (`Without`).
- `progress.dfy`: `calculateProgress`.
- `tasks.dfy`: documents, the listing predicate, the `TaskStore` class and
  lemmas about listings.

Where the code and the source's own doc comments disagree, the model follows
the code, with one exception:

- The doc comment of `updateActivityStatus` (line 148) speaks of one specific
  activity. The `map` at lines 178-188 sets `completed` on every entry with
  the given id, and the model does the same. When the ids in a list are
  distinct, only one entry changes (`Activities.SetStatusWithDistinctIds`).
  Every store operation preserves distinct ids within each task
  (`Tasks.ActivityIdsUnique`).
- The doc comments of `updateActivityStatus` (line 153) and
  `deleteActivityFromTask` (line 268) say `false` means a Firestore error.
  The code (lines 167-170 and 283-286) also returns `false` when the task is
  missing or belongs to another user, and the model does the same.
- The exception: `UpdateActivityStatus` uses the evidently intended parameter
  guard, not the guard written at line 157 (see Findings and Left out).

## Model

| member | source | states |
|---|---|---|
| `Text.Trim` | lib/firebase/firestoreService.ts:49-54 | `title.trim()`: the result is empty exactly when the input is all white space. Otherwise it starts and ends with a non-space character and is the input minus a white-space prefix and suffix. |
| `Text.TrimIdempotent` | lib/firebase/firestoreService.ts:114-120 | Trimming an already trimmed text changes nothing. |
| `Activities.Mark` | lib/firebase/firestoreService.ts:179-187 | The `map` callback: the id and text are kept. `completed` becomes the target on a matching entry and stays as it was otherwise. |
| `Activities.SetStatus` | lib/firebase/firestoreService.ts:178-188 | The rewritten list has the same length and the same ids and texts. Entries with the target id get the target `completed`. Every other entry is unchanged. |
| `Activities.ScanStatus` | lib/firebase/firestoreService.ts:173-188 | The `map` loop with its flags returns exactly `SetStatus`. `activityFound` holds iff the id occurs. `needsUpdate` holds iff some matching entry has a different `completed`. |
| `Activities.SetStatusUnchangedIff` | lib/firebase/firestoreService.ts:182-203 | The rewritten list equals the old one iff no write is needed. An id that does not occur never needs a write. |
| `Activities.SetStatusSettles` | lib/firebase/firestoreService.ts:182-203 | After one status update the same update needs no write: it is idempotent. |
| `Activities.SetStatusKeepsIds` | lib/firebase/firestoreService.ts:184 | The status rewrite keeps id occurrence and id distinctness. |
| `Activities.SetStatusWithDistinctIds` | lib/firebase/firestoreService.ts:148-188 | With distinct ids, the rewrite changes only the one entry carrying the id, as the doc comment's "one specific activity" says. |
| `Activities.Without` | lib/firebase/firestoreService.ts:292-295 | The filter keeps exactly the entries whose id differs from the target. The list gets shorter iff the id occurred, which is the source's length test. |
| `Activities.WithoutAppend` | lib/firebase/firestoreService.ts:292 | The filter distributes over concatenation, so the survivors stay in their original order. |
| `Activities.WithoutAbsent` | lib/firebase/firestoreService.ts:294-299 | Removing an id that does not occur returns the list unchanged. |
| `Activities.WithoutAfterAppend` | lib/firebase/firestoreService.ts:292-306 | Deleting the activity just appended under a fresh id gives back the old list. |
| `Activities.WithoutWithDistinctIds` | lib/firebase/firestoreService.ts:292 | With distinct ids, deleting an id that occurs removes exactly one entry. |
| `Activities.WithoutKeepsDistinct` | lib/firebase/firestoreService.ts:292 | Filtering keeps activity ids distinct. |
| `Activities.AppendKeepsDistinct` | lib/firebase/firestoreService.ts:118-137 | Appending an entry with a fresh id keeps activity ids distinct. |
| `Progress.CountCompleted` | lib/firebase/firestoreService.ts:256 | The completed count is at most the length. It equals the length iff every entry is completed, and is 0 iff none is. |
| `Progress.CalculateProgress` | lib/firebase/firestoreService.ts:252-258 | An absent or empty list gives 0. Otherwise the result r is round-half-up of 100·completed/length, i.e. r − ½ ≤ 100·k/n < r + ½. It always lies in 0..100. |
| `Progress.RoundedPercent` | lib/firebase/firestoreService.ts:258 | `Math.round` of the percentage, for 0 ≤ k ≤ n: the half-up bounds, and at most 100. |
| `Progress.ProgressAllCompleted` | lib/firebase/firestoreService.ts:256-258 | A non-empty list with every entry completed shows exactly 100. |
| `Progress.ProgressNoneCompleted` | lib/firebase/firestoreService.ts:253-258 | A list with no completed entry shows 0. |
| `Progress.ProgressExamples` | lib/firebase/firestoreService.ts:252-258 | Absent and empty lists give 0, one completed entry gives 100, and one completed out of three gives 33. |
| `Progress.CompletingNeverLowersCount` | lib/firebase/firestoreService.ts:256 | Setting entries to completed never lowers the completed count. |
| `Progress.CompletingNeverLowersProgress` | lib/firebase/firestoreService.ts:252-258 | Completing an activity never lowers the task's progress. |
| `Tasks.ActivitiesOf` | lib/firebase/firestoreService.ts:133 | The `data.activities` fallback to `[]` (JavaScript `or`), also at lines 173 and 289: the stored list, or `[]` when the field is absent. |
| `Tasks.Normalize` | lib/firebase/firestoreService.ts:88-96 | The record pushed for each query result: the id, user id, title and timestamp of the document. `activities` is the stored array, or `[]` when absent (the `Array.isArray` fallback at line 93). |
| `Tasks.StatusGuardRejectsAsWritten` | lib/firebase/firestoreService.ts:157 | The guard as written rejects exactly when there is no user or the task id is empty. The activity id plays no part. |
| `Tasks.StatusArgsAccepted` | lib/firebase/firestoreService.ts:157 | The intended guard accepts exactly when the as-written guard does and the activity id is also non-empty. |
| `Tasks.StatusGuardIgnoresActivityId` | lib/firebase/firestoreService.ts:157 | The guard as written depends only on the user and the task id. With a user and a task id it passes an empty activity id, which the intended guard refuses. |
| `Tasks.TaskStore.AddTask` | lib/firebase/firestoreService.ts:47-64 | Returns an id iff a user is signed in, the title trims to non-empty and the write succeeds. On failure nothing is written. On success exactly one document is added: the user's uid, the trimmed title, `[]` and the timestamp. It preserves distinct creation times and distinct activity ids. |
| `Tasks.TaskStore.QueryOwned` | lib/firebase/firestoreService.ts:77-83 | The `where`/`orderBy` query returns each of the user's documents once, nothing else, newest first. |
| `Tasks.TaskStore.InsertNewestFirst` | lib/firebase/firestoreService.ts:80 | Inserting one id into a newest-first sequence gives a newest-first sequence with that id added. |
| `Tasks.TaskStore.GetTasks` | lib/firebase/firestoreService.ts:70-104 | Returns `[]` with no user or on a read failure. Otherwise it returns one normalised record (missing `activities` becomes `[]`) for each of the user's documents and no other, with no duplicates, newest first. |
| `Tasks.TaskStore.AddActivityToTask` | lib/firebase/firestoreService.ts:112-145 | Succeeds iff there is a user, a task id and a non-blank text, the read succeeds, the user owns the task and the write succeeds. On failure the store is unchanged. On success only that task's list changes: it becomes the old list (`[]` if absent) plus `{fresh id, trimmed text, false}`. |
| `Tasks.TaskStore.UpdateActivityStatus` | lib/firebase/firestoreService.ts:155-217 | Fails without writing on a refused guard, a read failure, or a missing or foreign task. If no entry needs a change (including an id that does not occur) it reports success with no write. Otherwise it writes `SetStatus` of the list and reports success unless the write fails. |
| `Tasks.TaskStore.DeleteTask` | lib/firebase/firestoreService.ts:224-245 | Fails without writing with no user, an empty id, a read failure, a document of another user, or a failed delete. Otherwise it removes exactly that key (a missing document included) and reports success. It preserves distinct activity ids. |
| `Tasks.TaskStore.DeleteActivityFromTask` | lib/firebase/firestoreService.ts:270-314 | Fails without writing with no user, an empty id, a read failure, or a missing or foreign task. If the id does not occur it reports success with no write. Otherwise it writes `Without` of the list and reports success unless the write fails. |
| `Tasks.RepeatedStatusUpdate` | lib/firebase/firestoreService.ts:182-203 | Two identical status updates in a row, without store failures. The first succeeds iff the guard accepts and the user owns the task. It then writes `SetStatus` of the list if an update is needed, and nothing otherwise. The second reports the same result and is a no-op: the final state and write count are those after the first call. At most one write happens in all. |
| `Tasks.ListingUnique` | lib/firebase/firestoreService.ts:77-81 | When the user's documents have distinct creation times, any two correct listings are equal. |
| `Tasks.ThreeTasksNewestFirst` | lib/firebase/firestoreService.ts:80 | Three documents created in the order t1, t2, t3 are listed as t3, t2, t1. |
| `Tasks.ListingIsolatesOwners` | lib/firebase/firestoreService.ts:79 | A document of one user never appears in another user's listing. |

## Left out

- `Progress.CalculateProgress`: computes with exact rationals. The source computes `(completedCount / activities.length) * 100` in double precision before `Math.round`. At an exact .5 boundary the floating-point product can land just below it and round down. Floating point is not modelled.
- `Tasks.TaskStore.GetTasks`: documents with equal `createdAt` come back in an unspecified order. Firestore breaks such ties by document id, and document-id ordering is not modelled.
- `Tasks.TaskStore.GetTasks`: the fallback of `createdAt` to `Timestamp.now()` is not modelled. In the model every stored `createdAt` is a timestamp. Firestore's ordering of mixed-type fields, and its exclusion of documents without the field, are outside the model.
- `Tasks.TaskStore.UpdateActivityStatus`: uses the intended guard, which refuses an empty `activityId`. The code as written lets it through (see Findings). The as-written guard is `Tasks.StatusGuardRejectsAsWritten`.
- An `activities` field that holds a non-array value is modelled as absent (`None`). With such a value the source's `|| []` in the three activity operations would use the value itself.
- The Firebase SDK (`addDoc`, `getDocs`, `getDoc`, `updateDoc`, `deleteDoc`, `query`): modelled as operations on the map. Their exceptions are the `readFails`/`writeFails` parameters.
- `uuidv4()`, the ids that `addDoc` assigns and `serverTimestamp()`: method parameters with freshness and ordering preconditions. Collision resistance is assumed, not modelled.
- The async suspension points and the lost-update race between sessions, which each do a whole-array read-modify-write, are not modelled. The model is single-threaded, so each operation is one atomic step.
- Console logging: no observable effect on results.
- Access control in backend security rules: not part of the repository. Only the client-side ownership checks are modelled.
- The session provider (`context/AuthContext.tsx`), the pages and the spinner: UI glue with no data logic. The signed-in user is the plain field `currentUser`.

## Findings

| source | as written | input that shows it | evidently intended | confidence | as-written member | corrected member |
|---|---|---|---|---|---|---|
| lib/firebase/firestoreService.ts:157 | `!activityId === undefined` compares a boolean with `undefined`, so it is always false and `activityId` is never checked | `updateActivityStatus("t1", "", true)` with user `u1` signed in gets past the guard. It then reports `true` with no write for a task that has no entry with an empty id. | an empty `activityId` is refused and the call returns `false`, as the comment on that line and `deleteActivityFromTask`'s guard at line 273 suggest | high; not executed | `Tasks.StatusGuardIgnoresActivityId` | `Tasks.TaskStore.UpdateActivityStatus` |
