/**
 * The task store client: the `tasks` collection seen as a map from document
 * id to task document, the signed-in user, and the six exported operations,
 * each of which validates its input, checks ownership and, for the activity
 * operations, rewrites the whole `activities` array of one document.
 */
module Tasks {
  import opened Wrappers
  import opened Text
  import opened Activities

  type UserId = string
  type TaskId = string
  /** A Firestore timestamp; only its order matters here. */
  type Timestamp = nat

  /**
   * A document of the `tasks` collection as stored. `activities` is None when
   * the field is missing or is not an array (legacy or partial documents).
   */
  datatype TaskDoc = TaskDoc(userId: UserId, title: string, activities: Option<seq<Activity>>, createdAt: Timestamp)

  /** The `Task` record the listing returns: the document plus its id, with `activities` normalised. */
  datatype Task = Task(id: TaskId, userId: UserId, title: string, activities: seq<Activity>, createdAt: Timestamp)

  /** `data.activities || []`: the stored list, or the empty list when absent. */
  function ActivitiesOf(d: TaskDoc): (acts: seq<Activity>)
    ensures d.activities.None? ==> acts == []
    ensures d.activities.Some? ==> acts == d.activities.value
  {
    d.activities.GetOr([])
  }

  /** The record built for one query result, with a missing `activities` turned into `[]`. */
  function Normalize(id: TaskId, d: TaskDoc): (t: Task)
    ensures t.id == id && t.userId == d.userId && t.title == d.title && t.createdAt == d.createdAt
    ensures t.activities == if d.activities.Some? then d.activities.value else []
  {
    Task(id, d.userId, d.title, ActivitiesOf(d), d.createdAt)
  }

  /** Document `id` exists and its `userId` is `uid`. */
  predicate Owns(tasks: map<TaskId, TaskDoc>, id: TaskId, uid: UserId) {
    id in tasks && tasks[id].userId == uid
  }

  /** Every id of `s` names a document. */
  predicate AllIn(tasks: map<TaskId, TaskDoc>, s: seq<TaskId>) {
    forall i :: 0 <= i < |s| ==> s[i] in tasks
  }

  /** The ids of `s` are in non-increasing `createdAt` order. */
  predicate NewestFirst(tasks: map<TaskId, TaskDoc>, s: seq<TaskId>)
    requires AllIn(tasks, s)
  {
    forall i, j :: 0 <= i < j < |s| ==> tasks[s[i]].createdAt >= tasks[s[j]].createdAt
  }

  /** No id occurs twice in `s`. */
  predicate NoDuplicates(s: seq<TaskId>) {
    forall i, j :: 0 <= i < j < |s| ==> s[i] != s[j]
  }

  /**
   * `s` is what the query `where("userId", "==", uid), orderBy("createdAt", "desc")`
   * returns: each document of `uid` exactly once, nothing else, newest first.
   */
  ghost predicate IsOwnedQuery(tasks: map<TaskId, TaskDoc>, uid: UserId, s: seq<TaskId>) {
    && (forall i :: 0 <= i < |s| ==> Owns(tasks, s[i], uid))
    && (forall id :: Owns(tasks, id, uid) ==> id in s)
    && NoDuplicates(s)
    && NewestFirst(tasks, s)
  }

  /**
   * `r` is a correct result of `getTasks` for `uid`: one normalised record per
   * document of `uid` and no other, newest first.
   */
  ghost predicate IsListing(tasks: map<TaskId, TaskDoc>, uid: UserId, r: seq<Task>) {
    && (forall i :: 0 <= i < |r| ==> Owns(tasks, r[i].id, uid) && r[i] == Normalize(r[i].id, tasks[r[i].id]))
    && (forall id :: Owns(tasks, id, uid) ==> exists i :: 0 <= i < |r| && r[i].id == id)
    && (forall i, j :: 0 <= i < j < |r| ==> r[i].id != r[j].id)
    && (forall i, j :: 0 <= i < j < |r| ==> r[i].createdAt >= r[j].createdAt)
  }

  /** Distinct documents of `uid` have distinct creation times. */
  ghost predicate DistinctCreation(tasks: map<TaskId, TaskDoc>, uid: UserId) {
    forall a, b :: Owns(tasks, a, uid) && Owns(tasks, b, uid) && a != b ==> tasks[a].createdAt != tasks[b].createdAt
  }

  /** Within every document, activity ids are distinct. */
  ghost predicate ActivityIdsUnique(tasks: map<TaskId, TaskDoc>) {
    forall id :: id in tasks ==> DistinctIds(ActivitiesOf(tasks[id]))
  }

  /** `aid` is used by no activity of any document: what a fresh uuid guarantees. */
  ghost predicate FreshActivityId(tasks: map<TaskId, TaskDoc>, aid: ActivityId) {
    forall id :: id in tasks ==> !HasId(ActivitiesOf(tasks[id]), aid)
  }

  /** Every stored creation time is earlier than `now`: server time moves forward. */
  ghost predicate AllBefore(tasks: map<TaskId, TaskDoc>, now: Timestamp) {
    forall id :: id in tasks ==> tasks[id].createdAt < now
  }

  /** A JavaScript value as far as the status guard needs one. */
  datatype JsValue = Undefined | Bool(b: bool)

  /** JavaScript `!s` on a string: true exactly for the empty string. */
  function JsNot(s: string): JsValue {
    Bool(s == "")
  }

  /**
   * The parameter guard of `updateActivityStatus` as written:
   * `!user || !taskId || !activityId === undefined`. The last disjunct compares
   * a boolean with `undefined`, so it never holds.
   */
  function StatusGuardRejectsAsWritten(user: Option<UserId>, taskId: TaskId, activityId: ActivityId): (reject: bool)
    ensures reject <==> user.None? || taskId == ""
  {
    user.None? || taskId == "" || JsNot(activityId) == Undefined
  }

  /** The evidently intended guard: a user, a task id and an activity id are all required. */
  function StatusArgsAccepted(user: Option<UserId>, taskId: TaskId, activityId: ActivityId): (accepted: bool)
    ensures accepted <==> !StatusGuardRejectsAsWritten(user, taskId, activityId) && activityId != ""
  {
    user.Some? && taskId != "" && activityId != ""
  }

  /**
   * The guard as written ignores `activityId` altogether, so an empty activity
   * id gets past it, while the intended guard refuses it.
   */
  lemma StatusGuardIgnoresActivityId(user: Option<UserId>, taskId: TaskId, activityId: ActivityId)
    ensures StatusGuardRejectsAsWritten(user, taskId, activityId) == (user.None? || taskId == "")
    ensures !StatusGuardRejectsAsWritten(Some("u1"), "t1", "") && !StatusArgsAccepted(Some("u1"), "t1", "")
  {
  }

  /** The tasks collection and the signed-in user as the service functions see them. */
  class TaskStore {
    /** The `tasks` collection: document id to document. */
    var tasks: map<TaskId, TaskDoc>
    /** `auth.currentUser?.uid`. */
    var currentUser: Option<UserId>
    /** Number of store writes (`addDoc`, `updateDoc`, `deleteDoc`) performed so far. */
    ghost var writes: nat

    constructor (user: Option<UserId>, initial: map<TaskId, TaskDoc>)
      ensures currentUser == user && tasks == initial && writes == 0
    {
      currentUser := user;
      tasks := initial;
      writes := 0;
    }

    /**
     * `addTask(title)`. With `newTaskId` the id `addDoc` assigns, `now` the
     * server timestamp and `writeFails` whether `addDoc` throws. Returns None
     * and writes nothing when no user is signed in, the title trims to empty,
     * or the write fails; otherwise stores exactly one new document.
     */
    method AddTask(title: string, newTaskId: TaskId, now: Timestamp, writeFails: bool) returns (r: Option<TaskId>)
      requires newTaskId != "" && newTaskId !in tasks
      requires AllBefore(tasks, now)
      modifies this
      ensures currentUser == old(currentUser)
      ensures r.Some? <==> currentUser.Some? && Trim(title) != "" && !writeFails
      ensures r.None? ==> tasks == old(tasks) && writes == old(writes)
      ensures r.Some? ==> r.value == newTaskId && writes == old(writes) + 1
                          && tasks == old(tasks)[newTaskId := TaskDoc(currentUser.value, Trim(title), Some([]), now)]
      ensures forall uid :: old(DistinctCreation(tasks, uid)) ==> DistinctCreation(tasks, uid)
      ensures old(ActivityIdsUnique(tasks)) ==> ActivityIdsUnique(tasks)
    {
      if currentUser.None? || Trim(title) == "" {
        return None;
      }
      if writeFails {
        return None;
      }
      tasks := tasks[newTaskId := TaskDoc(currentUser.value, Trim(title), Some([]), now)];
      writes := writes + 1;
      r := Some(newTaskId);
    }

    /**
     * The Firestore query behind `getTasks`: the ids of the documents of `uid`,
     * each once, newest first (documents with equal timestamps in no
     * particular order).
     */
    method QueryOwned(uid: UserId) returns (s: seq<TaskId>)
      ensures IsOwnedQuery(tasks, uid, s)
    {
      var pending := tasks.Keys;
      s := [];
      while pending != {}
        invariant pending <= tasks.Keys
        invariant forall i :: 0 <= i < |s| ==> Owns(tasks, s[i], uid) && s[i] !in pending
        invariant forall id :: Owns(tasks, id, uid) ==> id in s || id in pending
        invariant NoDuplicates(s)
        invariant NewestFirst(tasks, s)
        decreases pending
      {
        var id :| id in pending;
        pending := pending - {id};
        if tasks[id].userId == uid {
          var k;
          s, k := InsertNewestFirst(s, id);
        }
      }
    }

    /** Inserts `id` into the newest-first sequence `s` after every entry at least as new. */
    method InsertNewestFirst(s: seq<TaskId>, id: TaskId) returns (s': seq<TaskId>, k: nat)
      requires id in tasks && AllIn(tasks, s) && NewestFirst(tasks, s)
      ensures k <= |s| && s' == s[..k] + [id] + s[k..]
      ensures AllIn(tasks, s') && NewestFirst(tasks, s')
    {
      var t := tasks[id].createdAt;
      k := 0;
      while k < |s| && tasks[s[k]].createdAt >= t
        invariant k <= |s|
        invariant forall j :: 0 <= j < k ==> tasks[s[j]].createdAt >= t
      {
        k := k + 1;
      }
      s' := s[..k] + [id] + s[k..];
      assert forall j :: k <= j < |s| ==> tasks[s[j]].createdAt < t by {
        forall j | k <= j < |s| ensures tasks[s[j]].createdAt < t {
          assert tasks[s[k]].createdAt >= tasks[s[j]].createdAt;
        }
      }
      assert forall j :: 0 <= j < |s'| ==> s'[j] == if j < k then s[j] else if j == k then id else s[j - 1];
    }

    /**
     * `getTasks()`, with `readFails` whether `getDocs` throws. Returns `[]`
     * when no user is signed in or the read fails; otherwise the normalised
     * records of exactly the signed-in user's documents, newest first.
     */
    method GetTasks(readFails: bool) returns (r: seq<Task>)
      ensures currentUser.None? || readFails ==> r == []
      ensures currentUser.Some? && !readFails ==> IsListing(tasks, currentUser.value, r)
    {
      if currentUser.None? || readFails {
        return [];
      }
      var uid := currentUser.value;
      var snap := QueryOwned(uid);
      r := [];
      var i := 0;
      while i < |snap|
        invariant 0 <= i <= |snap|
        invariant |r| == i
        invariant forall j :: 0 <= j < i ==> r[j] == Normalize(snap[j], tasks[snap[j]])
      {
        r := r + [Normalize(snap[i], tasks[snap[i]])];
        i := i + 1;
      }
      forall id | Owns(tasks, id, uid) ensures exists j :: 0 <= j < |r| && r[j].id == id {
        var j :| 0 <= j < |snap| && snap[j] == id;
        assert r[j].id == id;
      }
    }

    /**
     * `addActivityToTask(taskId, activityText)`, with `newId` the fresh uuid and
     * `readFails`/`writeFails` whether `getDoc`/`updateDoc` throw. Fails without
     * writing when no user is signed in, `taskId` is empty, the text trims to
     * empty, the read fails, the task is missing or not the user's, or the write
     * fails. Otherwise the task's list becomes the old list (empty when absent)
     * followed by one uncompleted entry with the trimmed text.
     */
    method AddActivityToTask(taskId: TaskId, activityText: string, newId: ActivityId, readFails: bool, writeFails: bool)
      returns (ok: bool)
      requires FreshActivityId(tasks, newId)
      modifies this
      ensures currentUser == old(currentUser)
      ensures ok <==> currentUser.Some? && taskId != "" && Trim(activityText) != "" && !readFails
                      && Owns(old(tasks), taskId, currentUser.value) && !writeFails
      ensures !ok ==> tasks == old(tasks) && writes == old(writes)
      ensures ok ==> writes == old(writes) + 1
                     && tasks == old(tasks)[taskId := old(tasks)[taskId].(activities :=
                          Some(ActivitiesOf(old(tasks)[taskId]) + [Activity(newId, Trim(activityText), false)]))]
      ensures old(ActivityIdsUnique(tasks)) ==> ActivityIdsUnique(tasks)
    {
      if currentUser.None? || taskId == "" || Trim(activityText) == "" {
        return false;
      }
      var newActivity := Activity(newId, Trim(activityText), false);
      if readFails {
        return false;
      }
      if taskId !in tasks || tasks[taskId].userId != currentUser.value {
        return false;
      }
      var current := ActivitiesOf(tasks[taskId]);
      if writeFails {
        return false;
      }
      ghost var before := tasks;
      tasks := tasks[taskId := tasks[taskId].(activities := Some(current + [newActivity]))];
      writes := writes + 1;
      ok := true;
      if ActivityIdsUnique(before) {
        AppendKeepsDistinct(current, newActivity);
      }
    }

    /**
     * `updateActivityStatus(taskId, activityId, completed)`, with the intended
     * guard (an empty `activityId` is refused). Fails without writing when the
     * guard refuses, the read fails, or the task is missing or not the user's.
     * Otherwise: when no entry with `activityId` has a different `completed`
     * (including when none has that id) it succeeds without writing; else it
     * writes the list with the matching entries' `completed` set, and succeeds
     * unless the write fails.
     */
    method UpdateActivityStatus(taskId: TaskId, activityId: ActivityId, completed: bool, readFails: bool, writeFails: bool)
      returns (ok: bool)
      modifies this
      ensures currentUser == old(currentUser)
      ensures ok <==> StatusArgsAccepted(currentUser, taskId, activityId) && !readFails
                      && Owns(old(tasks), taskId, currentUser.value)
                      && (NeedsUpdate(ActivitiesOf(old(tasks)[taskId]), activityId, completed) ==> !writeFails)
      ensures !ok ==> tasks == old(tasks) && writes == old(writes)
      ensures ok && !NeedsUpdate(ActivitiesOf(old(tasks)[taskId]), activityId, completed) ==>
                tasks == old(tasks) && writes == old(writes)
      ensures ok && NeedsUpdate(ActivitiesOf(old(tasks)[taskId]), activityId, completed) ==>
                writes == old(writes) + 1
                && tasks == old(tasks)[taskId := old(tasks)[taskId].(activities :=
                     Some(SetStatus(ActivitiesOf(old(tasks)[taskId]), activityId, completed)))]
      ensures old(ActivityIdsUnique(tasks)) ==> ActivityIdsUnique(tasks)
    {
      if !StatusArgsAccepted(currentUser, taskId, activityId) {
        return false;
      }
      if readFails {
        return false;
      }
      if taskId !in tasks || tasks[taskId].userId != currentUser.value {
        return false;
      }
      var current := ActivitiesOf(tasks[taskId]);
      var updated, activityFound, needsUpdate := ScanStatus(current, activityId, completed);
      if !activityFound {
        SetStatusUnchangedIff(current, activityId, completed);
        return true;
      }
      if !needsUpdate {
        return true;
      }
      if writeFails {
        return false;
      }
      ghost var before := tasks;
      tasks := tasks[taskId := tasks[taskId].(activities := Some(updated))];
      writes := writes + 1;
      ok := true;
      if ActivityIdsUnique(before) {
        SetStatusKeepsIds(current, activityId, completed, activityId);
      }
    }

    /**
     * `deleteTask(taskId)`. Fails without writing when no user is signed in,
     * `taskId` is empty, the read fails, the document exists but belongs to
     * another user, or the delete fails. Otherwise removes the key (a missing
     * document included) and touches no other document.
     */
    method DeleteTask(taskId: TaskId, readFails: bool, writeFails: bool) returns (ok: bool)
      modifies this
      ensures currentUser == old(currentUser)
      ensures ok <==> currentUser.Some? && taskId != "" && !readFails
                      && !(taskId in old(tasks) && old(tasks)[taskId].userId != currentUser.value) && !writeFails
      ensures !ok ==> tasks == old(tasks) && writes == old(writes)
      ensures ok ==> tasks == old(tasks) - {taskId} && writes == old(writes) + 1
      ensures old(ActivityIdsUnique(tasks)) ==> ActivityIdsUnique(tasks)
    {
      if currentUser.None? || taskId == "" {
        return false;
      }
      if readFails {
        return false;
      }
      if taskId in tasks && tasks[taskId].userId != currentUser.value {
        return false;
      }
      if writeFails {
        return false;
      }
      tasks := tasks - {taskId};
      writes := writes + 1;
      ok := true;
    }

    /**
     * `deleteActivityFromTask(taskId, activityId)`. Fails without writing when
     * no user is signed in, `taskId` or `activityId` is empty, the read fails,
     * or the task is missing or not the user's. Otherwise: when no entry has
     * `activityId` it succeeds without writing; else it writes the list with
     * every such entry removed, and succeeds unless the write fails.
     */
    method DeleteActivityFromTask(taskId: TaskId, activityId: ActivityId, readFails: bool, writeFails: bool)
      returns (ok: bool)
      modifies this
      ensures currentUser == old(currentUser)
      ensures ok <==> currentUser.Some? && taskId != "" && activityId != "" && !readFails
                      && Owns(old(tasks), taskId, currentUser.value)
                      && (HasId(ActivitiesOf(old(tasks)[taskId]), activityId) ==> !writeFails)
      ensures !ok ==> tasks == old(tasks) && writes == old(writes)
      ensures ok && !HasId(ActivitiesOf(old(tasks)[taskId]), activityId) ==>
                tasks == old(tasks) && writes == old(writes)
      ensures ok && HasId(ActivitiesOf(old(tasks)[taskId]), activityId) ==>
                writes == old(writes) + 1
                && tasks == old(tasks)[taskId := old(tasks)[taskId].(activities :=
                     Some(Without(ActivitiesOf(old(tasks)[taskId]), activityId)))]
      ensures old(ActivityIdsUnique(tasks)) ==> ActivityIdsUnique(tasks)
    {
      if currentUser.None? || taskId == "" || activityId == "" {
        return false;
      }
      if readFails {
        return false;
      }
      if taskId !in tasks || tasks[taskId].userId != currentUser.value {
        return false;
      }
      var current := ActivitiesOf(tasks[taskId]);
      var updated := Without(current, activityId);
      if |current| == |updated| {
        return true;
      }
      if writeFails {
        return false;
      }
      ghost var before := tasks;
      tasks := tasks[taskId := tasks[taskId].(activities := Some(updated))];
      writes := writes + 1;
      ok := true;
      if ActivityIdsUnique(before) {
        WithoutKeepsDistinct(current, activityId);
      }
    }
  }

  /**
   * Two identical status updates in a row, with no store failure. The first
   * call behaves as `UpdateActivityStatus` promises (at most one write); the
   * second reports the same result and is a no-op: the state `mid` and the
   * write count `midWrites` left by the first call are the final ones.
   */
  method RepeatedStatusUpdate(store: TaskStore, taskId: TaskId, activityId: ActivityId, completed: bool)
    returns (first: bool, second: bool, ghost mid: map<TaskId, TaskDoc>, ghost midWrites: nat)
    modifies store
    ensures store.currentUser == old(store.currentUser)
    ensures second == first
    ensures first <==> StatusArgsAccepted(old(store.currentUser), taskId, activityId)
                       && Owns(old(store.tasks), taskId, old(store.currentUser).value)
    ensures !first ==> mid == old(store.tasks) && midWrites == old(store.writes)
    ensures first && !NeedsUpdate(ActivitiesOf(old(store.tasks)[taskId]), activityId, completed) ==>
              mid == old(store.tasks) && midWrites == old(store.writes)
    ensures first && NeedsUpdate(ActivitiesOf(old(store.tasks)[taskId]), activityId, completed) ==>
              midWrites == old(store.writes) + 1
              && mid == old(store.tasks)[taskId := old(store.tasks)[taskId].(activities :=
                   Some(SetStatus(ActivitiesOf(old(store.tasks)[taskId]), activityId, completed)))]
    ensures store.tasks == mid && store.writes == midWrites
    ensures store.writes <= old(store.writes) + 1
  {
    first := store.UpdateActivityStatus(taskId, activityId, completed, false, false);
    mid, midWrites := store.tasks, store.writes;
    if first {
      SetStatusSettles(ActivitiesOf(old(store.tasks)[taskId]), activityId, completed);
    }
    second := store.UpdateActivityStatus(taskId, activityId, completed, false, false);
  }

  /**
   * When the user's documents have distinct creation times, the listing is
   * unique: any two correct results of `getTasks` are the same sequence.
   */
  lemma {:induction false} ListingUnique(tasks: map<TaskId, TaskDoc>, uid: UserId, r1: seq<Task>, r2: seq<Task>)
    requires DistinctCreation(tasks, uid)
    requires IsListing(tasks, uid, r1) && IsListing(tasks, uid, r2)
    ensures r1 == r2
    decreases |r1|
  {
    ListingEmptyAlike(tasks, uid, r1, r2);
    if r1 != [] {
      var a, b := r1[0].id, r2[0].id;
      ListingHeadIsNewest(tasks, uid, r1, b);
      ListingHeadIsNewest(tasks, uid, r2, a);
      assert a == b;
      ListingTail(tasks, uid, r1);
      ListingTail(tasks, uid, r2);
      ListingUnique(tasks - {a}, uid, r1[1..], r2[1..]);
      assert r1 == [r1[0]] + r1[1..] && r2 == [r2[0]] + r2[1..];
    }
  }

  /** A listing is non-empty whenever the user owns some document. */
  lemma ListingNonEmpty(tasks: map<TaskId, TaskDoc>, uid: UserId, r: seq<Task>, id: TaskId)
    requires IsListing(tasks, uid, r) && Owns(tasks, id, uid)
    ensures r != []
  {
    var i :| 0 <= i < |r| && r[i].id == id;
  }

  /** Two listings for the same user are either both empty or both non-empty. */
  lemma ListingEmptyAlike(tasks: map<TaskId, TaskDoc>, uid: UserId, r1: seq<Task>, r2: seq<Task>)
    requires IsListing(tasks, uid, r1) && IsListing(tasks, uid, r2)
    ensures r1 == [] <==> r2 == []
  {
    if r1 != [] {
      ListingNonEmpty(tasks, uid, r2, r1[0].id);
    }
    if r2 != [] {
      ListingNonEmpty(tasks, uid, r1, r2[0].id);
    }
  }

  /** The first record of a listing is a newest document of the user. */
  lemma ListingHeadIsNewest(tasks: map<TaskId, TaskDoc>, uid: UserId, r: seq<Task>, id: TaskId)
    requires IsListing(tasks, uid, r) && r != [] && Owns(tasks, id, uid)
    ensures tasks[r[0].id].createdAt >= tasks[id].createdAt
  {
    var i :| 0 <= i < |r| && r[i].id == id;
    if i > 0 {
      assert r[0].createdAt >= r[i].createdAt;
    }
  }

  /** Dropping the newest record of a listing gives a listing of the documents without it. */
  lemma ListingTail(tasks: map<TaskId, TaskDoc>, uid: UserId, r: seq<Task>)
    requires IsListing(tasks, uid, r) && r != []
    ensures IsListing(tasks - {r[0].id}, uid, r[1..])
  {
    var a := r[0].id;
    var rest, tail := tasks - {a}, r[1..];
    forall i | 0 <= i < |tail|
      ensures Owns(rest, tail[i].id, uid) && tail[i] == Normalize(tail[i].id, rest[tail[i].id])
    {
      assert tail[i] == r[i + 1];
      assert r[0].id != r[i + 1].id;
    }
    forall id | Owns(rest, id, uid) ensures exists i :: 0 <= i < |tail| && tail[i].id == id {
      assert Owns(tasks, id, uid);
      var i :| 0 <= i < |r| && r[i].id == id;
      assert i != 0;
      assert tail[i - 1].id == id;
    }
  }

  /**
   * Three documents of a user, created one after another, are listed newest
   * first: the third, the second, the first.
   */
  lemma ThreeTasksNewestFirst(tasks: map<TaskId, TaskDoc>, uid: UserId, t1: TaskId, t2: TaskId, t3: TaskId, r: seq<Task>)
    requires Owns(tasks, t1, uid) && Owns(tasks, t2, uid) && Owns(tasks, t3, uid)
    requires forall id :: Owns(tasks, id, uid) ==> id == t1 || id == t2 || id == t3
    requires tasks[t1].createdAt < tasks[t2].createdAt < tasks[t3].createdAt
    requires IsListing(tasks, uid, r)
    ensures |r| == 3 && r[0].id == t3 && r[1].id == t2 && r[2].id == t1
  {
    var e := ThreeListing(tasks, uid, t1, t2, t3);
    assert DistinctCreation(tasks, uid);
    ListingUnique(tasks, uid, r, e);
  }

  /** The listing of exactly three documents created at increasing times: newest first. */
  lemma ThreeListing(tasks: map<TaskId, TaskDoc>, uid: UserId, t1: TaskId, t2: TaskId, t3: TaskId)
    returns (e: seq<Task>)
    requires Owns(tasks, t1, uid) && Owns(tasks, t2, uid) && Owns(tasks, t3, uid)
    requires forall id :: Owns(tasks, id, uid) ==> id == t1 || id == t2 || id == t3
    requires tasks[t1].createdAt < tasks[t2].createdAt < tasks[t3].createdAt
    ensures IsListing(tasks, uid, e)
    ensures |e| == 3 && e[0].id == t3 && e[1].id == t2 && e[2].id == t1
  {
    e := [Normalize(t3, tasks[t3]), Normalize(t2, tasks[t2]), Normalize(t1, tasks[t1])];
    forall id | Owns(tasks, id, uid) ensures exists i :: 0 <= i < |e| && e[i].id == id {
      if id == t3 { assert e[0].id == id; }
      else if id == t2 { assert e[1].id == id; }
      else { assert e[2].id == id; }
    }
  }

  /**
   * A document of one user never appears in another user's listing.
   */
  lemma ListingIsolatesOwners(tasks: map<TaskId, TaskDoc>, u1: UserId, u2: UserId, id: TaskId, r: seq<Task>)
    requires Owns(tasks, id, u1) && u1 != u2
    requires IsListing(tasks, u2, r)
    ensures forall i :: 0 <= i < |r| ==> r[i].id != id
  {
  }
}
