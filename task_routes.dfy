/** The `/tasks` router (routes/tasks.js): one method per route over a task
    collection held in memory. Each handler is one atomic step; the storage
    calls it makes become reads and writes of `tasks`, and a failing storage
    call is chosen by the caller through a `Fault` argument. */
module TaskRoutes {
  import opened Wrappers
  import opened Text
  import opened DocumentArray
  import opened TaskSchema
  import opened TaskQuery

  /** A JSON response body. `ErrorBody` is `{ message, error: err.message }`;
      the text of the underlying error is not modelled. */
  datatype Body =
    | TaskBody(task: Task)
    | TaskList(tasks: seq<Task>)
    | Message(message: string)
    | ErrorBody(message: string)

  datatype Response = Response(status: int, body: Body)

  const TaskNotFound: string := "Tâche non trouvée"
  const SubTaskNotFound: string := "Sous-tâche non trouvée"
  const CommentNotFound: string := "Commentaire non trouvé"
  const TaskDeleted: string := "Tâche supprimée avec succès"
  const SubTaskTitleRequired: string := "Le titre de la sous-tâche est requis"
  const AuthorAndMessageRequired: string := "Auteur et message sont requis"
  const ServerError: string := "Erreur serveur"
  const InvalidData: string := "Données invalides"

  /** The catch-all answer of every handler except create and update. */
  const ServerFailure: Response := Response(500, ErrorBody(ServerError))
  /** The catch-all answer of create and update. */
  const InvalidFailure: Response := Response(400, ErrorBody(InvalidData))

  /** Which storage call of a request fails, if any. `ReadFault`: the call
      that fetches (`find`, `findById`). `WriteFault`: the call that stores
      (`save`). `findByIdAndUpdate` and `findByIdAndDelete` fetch and store in
      one call, which fails under either fault. */
  datatype Fault = NoFault | ReadFault | WriteFault

  /** Every stored task is valid and stored under its own id, every id in
      use was handed out before `nextId`, and no task was written after
      `clock`. */
  predicate StoreValid(tasks: map<Id, Task>, nextId: Id, clock: Time) {
    forall id :: id in tasks ==> StoredWell(tasks[id], id, nextId, clock)
  }

  /** `t` may be stored under `id` in a valid collection. */
  predicate StoredWell(t: Task, id: Id, nextId: Id, clock: Time) {
    t.id == id && id < nextId && ValidTask(t) && IdsBelow(t, nextId) && t.updatedAt <= clock
  }

  /** Storing one valid task under its own, already handed out id, written
      at time `now`, keeps the collection valid. */
  lemma StoreTaskKeepsValid(tasks: map<Id, Task>, nextId: Id, clock: Time, t: Task, nextId': Id, now: Time)
    requires StoreValid(tasks, nextId, clock)
    requires nextId <= nextId' && clock <= now
    requires StoredWell(t, t.id, nextId', now)
    ensures StoreValid(tasks[t.id := t], nextId', now)
  {
    forall id | id in tasks
      ensures IdsBelow(tasks[id], nextId')
    {
      assert IdsBelow(tasks[id], nextId);
    }
  }

  /** Each successful handler step keeps the collection valid. */
  lemma UpdateTaskKeepsValid(tasks: map<Id, Task>, nextId: Id, clock: Time, id: Id, body: TaskFields)
    requires StoreValid(tasks, nextId, clock) && id in tasks && GivenFieldsValid(body)
    ensures StoreValid(tasks[id := ApplyUpdate(tasks[id], body, clock + 1)], nextId, clock + 1)
  {
    var t := tasks[id];
    var t' := ApplyUpdate(t, body, clock + 1);
    assert StoredWell(t', id, nextId, clock + 1) by {
      assert StoredWell(t, id, nextId, clock);
      ApplyUpdateKeepsValid(t, body, clock + 1);
    }
    StoreTaskKeepsValid(tasks, nextId, clock, t', nextId, clock + 1);
  }

  lemma AddSubTaskKeepsValid(tasks: map<Id, Task>, nextId: Id, clock: Time, id: Id, title: string)
    requires StoreValid(tasks, nextId, clock) && id in tasks && title != ""
    ensures StoreValid(tasks[id := PushSubTask(tasks[id], title, nextId, clock + 1)], nextId + 1, clock + 1)
  {
    var t := tasks[id];
    var t' := PushSubTask(t, title, nextId, clock + 1);
    assert StoredWell(t', id, nextId + 1, clock + 1) by {
      assert StoredWell(t, id, nextId, clock);
      FreshIdNotFound(t, nextId);
      PushSubTaskSound(t, title, nextId, clock + 1);
    }
    StoreTaskKeepsValid(tasks, nextId, clock, t', nextId + 1, clock + 1);
  }

  lemma UpdateSubTaskKeepsValid(tasks: map<Id, Task>, nextId: Id, clock: Time, id: Id, k: nat,
                                title: Option<string>, completed: Option<bool>)
    requires StoreValid(tasks, nextId, clock) && id in tasks && k < |tasks[id].subTasks|
    requires title != Some("")
    ensures StoreValid(tasks[id := PatchSubTask(tasks[id], k, title, completed, clock + 1)], nextId, clock + 1)
  {
    var t := tasks[id];
    var t' := PatchSubTask(t, k, title, completed, clock + 1);
    assert StoredWell(t', id, nextId, clock + 1) by {
      assert StoredWell(t, id, nextId, clock);
      PatchSubTaskSound(t, k, title, completed, clock + 1);
    }
    StoreTaskKeepsValid(tasks, nextId, clock, t', nextId, clock + 1);
  }

  lemma DeleteSubTaskKeepsValid(tasks: map<Id, Task>, nextId: Id, clock: Time, id: Id, subId: Id, k: nat)
    requires StoreValid(tasks, nextId, clock) && id in tasks
    requires IndexOf(tasks[id].subTasks, SubTaskId, subId) == Some(k)
    ensures StoreValid(tasks[id := DropSubTask(tasks[id], k, clock + 1)], nextId, clock + 1)
  {
    var t := tasks[id];
    var t' := DropSubTask(t, k, clock + 1);
    assert StoredWell(t', id, nextId, clock + 1) by {
      assert StoredWell(t, id, nextId, clock);
      DropSubTaskSound(t, subId, k, clock + 1);
    }
    StoreTaskKeepsValid(tasks, nextId, clock, t', nextId, clock + 1);
  }

  lemma AddCommentKeepsValid(tasks: map<Id, Task>, nextId: Id, clock: Time, id: Id, author: string, message: string)
    requires StoreValid(tasks, nextId, clock) && id in tasks && author != "" && message != ""
    ensures StoreValid(tasks[id := PushComment(tasks[id], author, message, nextId, clock + 1)], nextId + 1, clock + 1)
  {
    var t := tasks[id];
    var t' := PushComment(t, author, message, nextId, clock + 1);
    assert StoredWell(t', id, nextId + 1, clock + 1) by {
      assert StoredWell(t, id, nextId, clock);
      FreshIdNotFound(t, nextId);
      PushCommentSound(t, author, message, nextId, clock + 1);
    }
    StoreTaskKeepsValid(tasks, nextId, clock, t', nextId + 1, clock + 1);
  }

  lemma DeleteCommentKeepsValid(tasks: map<Id, Task>, nextId: Id, clock: Time, id: Id, commentId: Id, k: nat)
    requires StoreValid(tasks, nextId, clock) && id in tasks
    requires IndexOf(tasks[id].comments, CommentId, commentId) == Some(k)
    ensures StoreValid(tasks[id := DropComment(tasks[id], k, clock + 1)], nextId, clock + 1)
  {
    var t := tasks[id];
    var t' := DropComment(t, k, clock + 1);
    assert StoredWell(t', id, nextId, clock + 1) by {
      assert StoredWell(t, id, nextId, clock);
      DropCommentSound(t, commentId, k, clock + 1);
    }
    StoreTaskKeepsValid(tasks, nextId, clock, t', nextId, clock + 1);
  }

  /** The task collection. `nextId` hands out fresh document ids, for tasks
      and embedded documents alike; `clock` is the time of the last write. */
  class TaskStore {
    var tasks: map<Id, Task>
    var nextId: Id
    var clock: Time

    ghost predicate Valid()
      reads this
    {
      StoreValid(tasks, nextId, clock)
    }

    constructor ()
      ensures Valid()
      ensures tasks == map[] && nextId == 0 && clock == 0
    {
      tasks := map[];
      nextId := 0;
      clock := 0;
    }

    /** The result list holds every stored task that matches `f` exactly once,
        and nothing else. */
    ghost predicate ListsExactly(ts: seq<Task>, f: Filter)
      reads this
    {
      forall t :: multiset(ts)[t] == if t in tasks.Values && Matches(f, t) then 1 else 0
    }

    /** GET /tasks */
    method ListTasks(q: QueryParams, fault: Fault) returns (r: Response)
      requires Valid()
      ensures fault == ReadFault ==> r == ServerFailure
      ensures fault != ReadFault ==>
        && r.status == 200 && r.body.TaskList?
        && ListsExactly(r.body.tasks, BuildFilter(q))
        && Ordered(r.body.tasks, BuildSort(q.sort))
    {
      if fault == ReadFault {
        return ServerFailure;
      }
      var f := BuildFilter(q);
      var spec := BuildSort(q.sort);
      var ts: seq<Task> := [];
      var pending := tasks.Values;
      while pending != {}
        invariant pending <= tasks.Values
        invariant forall t :: multiset(ts)[t] == if t in tasks.Values - pending && Matches(f, t) then 1 else 0
        invariant Ordered(ts, spec)
        decreases pending
      {
        var t :| t in pending;
        if Matches(f, t) {
          InsertKeepsOrder(ts, t, spec);
          ts := Insert(ts, t, spec);
        }
        pending := pending - {t};
      }
      r := Response(200, TaskList(ts));
    }

    /** GET /tasks/:id */
    method GetTask(id: Id, fault: Fault) returns (r: Response)
      requires Valid()
      ensures fault == ReadFault ==> r == ServerFailure
      ensures fault != ReadFault && id !in tasks ==> r == Response(404, Message(TaskNotFound))
      ensures fault != ReadFault && id in tasks ==>
        r == Response(200, TaskBody(tasks[id])) && r.body.task.id == id
    {
      if fault == ReadFault {
        r := ServerFailure;
      } else if id !in tasks {
        r := Response(404, Message(TaskNotFound));
      } else {
        r := Response(200, TaskBody(tasks[id]));
      }
    }

    /** POST /tasks */
    method CreateTask(body: TaskFields, fault: Fault) returns (r: Response)
      requires Valid()
      modifies this
      ensures Valid()
      ensures
        var created := NewTask(body, old(nextId), old(clock) + 1);
        if created.None? || fault == WriteFault then
          r == InvalidFailure && unchanged(this)
        else
          && old(nextId) !in old(tasks)
          && tasks == old(tasks)[old(nextId) := created.value]
          && nextId == old(nextId) + 1 && clock == old(clock) + 1
          && r == Response(201, TaskBody(created.value))
    {
      var created := NewTask(body, nextId, clock + 1);
      if created.None? || fault == WriteFault {
        return InvalidFailure;
      }
      StoreTaskKeepsValid(tasks, nextId, clock, created.value, nextId + 1, clock + 1);
      assert StoreValid(tasks[nextId := created.value], nextId + 1, clock + 1);
      tasks, nextId, clock := tasks[nextId := created.value], nextId + 1, clock + 1;
      r := Response(201, TaskBody(created.value));
    }

    /** PUT /tasks/:id. The validators run before the storage call, so an
        invalid body gives 400 even for an unknown id. */
    method UpdateTask(id: Id, body: TaskFields, fault: Fault) returns (r: Response)
      requires Valid()
      modifies this
      ensures Valid()
      ensures
        if !GivenFieldsValid(body) || fault != NoFault then
          r == InvalidFailure && unchanged(this)
        else if id !in old(tasks) then
          r == Response(404, Message(TaskNotFound)) && unchanged(this)
        else
          && tasks == old(tasks)[id := ApplyUpdate(old(tasks)[id], body, old(clock) + 1)]
          && nextId == old(nextId) && clock == old(clock) + 1
          && r == Response(200, TaskBody(tasks[id]))
    {
      if !GivenFieldsValid(body) || fault != NoFault {
        return InvalidFailure;
      }
      if id !in tasks {
        return Response(404, Message(TaskNotFound));
      }
      var updated := ApplyUpdate(tasks[id], body, clock + 1);
      UpdateTaskKeepsValid(tasks, nextId, clock, id, body);
      assert StoreValid(tasks[id := updated], nextId, clock + 1);
      tasks, clock := tasks[id := updated], clock + 1;
      r := Response(200, TaskBody(updated));
    }

    /** DELETE /tasks/:id. The embedded sub-tasks and comments go with it. */
    method DeleteTask(id: Id, fault: Fault) returns (r: Response)
      requires Valid()
      modifies this
      ensures Valid()
      ensures
        if fault != NoFault then
          r == ServerFailure && unchanged(this)
        else if id !in old(tasks) then
          r == Response(404, Message(TaskNotFound)) && unchanged(this)
        else
          && tasks == old(tasks) - {id}
          && nextId == old(nextId) && clock == old(clock)
          && r == Response(200, Message(TaskDeleted))
    {
      if fault != NoFault {
        return ServerFailure;
      }
      if id !in tasks {
        return Response(404, Message(TaskNotFound));
      }
      tasks := tasks - {id};
      r := Response(200, Message(TaskDeleted));
    }

    /** POST /tasks/:id/subtasks. The title is checked before the lookup, so
        400 takes precedence over 404. */
    method AddSubTask(id: Id, title: Option<string>, fault: Fault) returns (r: Response)
      requires Valid()
      modifies this
      ensures Valid()
      ensures
        if !Truthy(title) then
          r == Response(400, Message(SubTaskTitleRequired)) && unchanged(this)
        else if fault == ReadFault then
          r == ServerFailure && unchanged(this)
        else if id !in old(tasks) then
          r == Response(404, Message(TaskNotFound)) && unchanged(this)
        else if fault == WriteFault then
          r == ServerFailure && unchanged(this)
        else
          && tasks == old(tasks)[id := PushSubTask(old(tasks)[id], title.value, old(nextId), old(clock) + 1)]
          && nextId == old(nextId) + 1 && clock == old(clock) + 1
          && r == Response(201, TaskBody(tasks[id]))
    {
      if !Truthy(title) {
        return Response(400, Message(SubTaskTitleRequired));
      }
      if fault == ReadFault {
        return ServerFailure;
      }
      if id !in tasks {
        return Response(404, Message(TaskNotFound));
      }
      if fault == WriteFault {
        return ServerFailure;
      }
      var t := tasks[id];
      var t' := PushSubTask(t, title.value, nextId, clock + 1);
      AddSubTaskKeepsValid(tasks, nextId, clock, id, title.value);
      assert StoreValid(tasks[id := t'], nextId + 1, clock + 1);
      tasks, nextId, clock := tasks[id := t'], nextId + 1, clock + 1;
      r := Response(201, TaskBody(t'));
    }

    /** PUT /tasks/:id/subtasks/:subId. An empty new title fails the
        sub-document's `required` validator inside `save()`, which this
        handler reports as 500. */
    method UpdateSubTask(id: Id, subId: Id, title: Option<string>, completed: Option<bool>, fault: Fault)
      returns (r: Response)
      requires Valid()
      modifies this
      ensures Valid()
      ensures
        if fault == ReadFault then
          r == ServerFailure && unchanged(this)
        else if id !in old(tasks) then
          r == Response(404, Message(TaskNotFound)) && unchanged(this)
        else if IndexOf(old(tasks)[id].subTasks, SubTaskId, subId).None? then
          r == Response(404, Message(SubTaskNotFound)) && unchanged(this)
        else if title == Some("") || fault == WriteFault then
          r == ServerFailure && unchanged(this)
        else
          var k := IndexOf(old(tasks)[id].subTasks, SubTaskId, subId).value;
          && tasks == old(tasks)[id := PatchSubTask(old(tasks)[id], k, title, completed, old(clock) + 1)]
          && nextId == old(nextId) && clock == old(clock) + 1
          && r == Response(200, TaskBody(tasks[id]))
    {
      if fault == ReadFault {
        return ServerFailure;
      }
      if id !in tasks {
        return Response(404, Message(TaskNotFound));
      }
      var t := tasks[id];
      var found := IndexOf(t.subTasks, SubTaskId, subId);
      if found.None? {
        return Response(404, Message(SubTaskNotFound));
      }
      if title == Some("") || fault == WriteFault {
        return ServerFailure;
      }
      var t' := PatchSubTask(t, found.value, title, completed, clock + 1);
      UpdateSubTaskKeepsValid(tasks, nextId, clock, id, found.value, title, completed);
      assert StoreValid(tasks[id := t'], nextId, clock + 1);
      tasks, clock := tasks[id := t'], clock + 1;
      r := Response(200, TaskBody(t'));
    }

    /** DELETE /tasks/:id/subtasks/:subId */
    method DeleteSubTask(id: Id, subId: Id, fault: Fault) returns (r: Response)
      requires Valid()
      modifies this
      ensures Valid()
      ensures
        if fault == ReadFault then
          r == ServerFailure && unchanged(this)
        else if id !in old(tasks) then
          r == Response(404, Message(TaskNotFound)) && unchanged(this)
        else if IndexOf(old(tasks)[id].subTasks, SubTaskId, subId).None? then
          r == Response(404, Message(SubTaskNotFound)) && unchanged(this)
        else if fault == WriteFault then
          r == ServerFailure && unchanged(this)
        else
          var k := IndexOf(old(tasks)[id].subTasks, SubTaskId, subId).value;
          && tasks == old(tasks)[id := DropSubTask(old(tasks)[id], k, old(clock) + 1)]
          && nextId == old(nextId) && clock == old(clock) + 1
          && r == Response(200, TaskBody(tasks[id]))
    {
      if fault == ReadFault {
        return ServerFailure;
      }
      if id !in tasks {
        return Response(404, Message(TaskNotFound));
      }
      var t := tasks[id];
      var found := IndexOf(t.subTasks, SubTaskId, subId);
      if found.None? {
        return Response(404, Message(SubTaskNotFound));
      }
      if fault == WriteFault {
        return ServerFailure;
      }
      var t' := DropSubTask(t, found.value, clock + 1);
      DeleteSubTaskKeepsValid(tasks, nextId, clock, id, subId, found.value);
      assert StoreValid(tasks[id := t'], nextId, clock + 1);
      tasks, clock := tasks[id := t'], clock + 1;
      r := Response(200, TaskBody(t'));
    }

    /** POST /tasks/:id/comments. Author and message are checked before the
        lookup, so 400 takes precedence over 404. */
    method AddComment(id: Id, author: Option<string>, message: Option<string>, fault: Fault)
      returns (r: Response)
      requires Valid()
      modifies this
      ensures Valid()
      ensures
        if !Truthy(author) || !Truthy(message) then
          r == Response(400, Message(AuthorAndMessageRequired)) && unchanged(this)
        else if fault == ReadFault then
          r == ServerFailure && unchanged(this)
        else if id !in old(tasks) then
          r == Response(404, Message(TaskNotFound)) && unchanged(this)
        else if fault == WriteFault then
          r == ServerFailure && unchanged(this)
        else
          && tasks == old(tasks)[id := PushComment(old(tasks)[id], author.value, message.value, old(nextId), old(clock) + 1)]
          && nextId == old(nextId) + 1 && clock == old(clock) + 1
          && r == Response(201, TaskBody(tasks[id]))
    {
      if !Truthy(author) || !Truthy(message) {
        return Response(400, Message(AuthorAndMessageRequired));
      }
      if fault == ReadFault {
        return ServerFailure;
      }
      if id !in tasks {
        return Response(404, Message(TaskNotFound));
      }
      if fault == WriteFault {
        return ServerFailure;
      }
      var t := tasks[id];
      var t' := PushComment(t, author.value, message.value, nextId, clock + 1);
      AddCommentKeepsValid(tasks, nextId, clock, id, author.value, message.value);
      assert StoreValid(tasks[id := t'], nextId + 1, clock + 1);
      tasks, nextId, clock := tasks[id := t'], nextId + 1, clock + 1;
      r := Response(201, TaskBody(t'));
    }

    /** DELETE /tasks/:id/comments/:commentId */
    method DeleteComment(id: Id, commentId: Id, fault: Fault) returns (r: Response)
      requires Valid()
      modifies this
      ensures Valid()
      ensures
        if fault == ReadFault then
          r == ServerFailure && unchanged(this)
        else if id !in old(tasks) then
          r == Response(404, Message(TaskNotFound)) && unchanged(this)
        else if IndexOf(old(tasks)[id].comments, CommentId, commentId).None? then
          r == Response(404, Message(CommentNotFound)) && unchanged(this)
        else if fault == WriteFault then
          r == ServerFailure && unchanged(this)
        else
          var k := IndexOf(old(tasks)[id].comments, CommentId, commentId).value;
          && tasks == old(tasks)[id := DropComment(old(tasks)[id], k, old(clock) + 1)]
          && nextId == old(nextId) && clock == old(clock) + 1
          && r == Response(200, TaskBody(tasks[id]))
    {
      if fault == ReadFault {
        return ServerFailure;
      }
      if id !in tasks {
        return Response(404, Message(TaskNotFound));
      }
      var t := tasks[id];
      var found := IndexOf(t.comments, CommentId, commentId);
      if found.None? {
        return Response(404, Message(CommentNotFound));
      }
      if fault == WriteFault {
        return ServerFailure;
      }
      var t' := DropComment(t, found.value, clock + 1);
      DeleteCommentKeepsValid(tasks, nextId, clock, id, commentId, found.value);
      assert StoreValid(tasks[id := t'], nextId, clock + 1);
      tasks, clock := tasks[id := t'], clock + 1;
      r := Response(200, TaskBody(t'));
    }
  }

  /** A client session against a fresh collection: create a task with only a
      title, add a sub-task, complete it, delete the task, then ask for the
      task and for its former sub-task. */
  method CompleteThenDeleteSession() returns (statuses: seq<int>, created: Task)
    ensures statuses == [201, 201, 200, 200, 404, 404]
    ensures created.priority == Moyenne && created.status == AFaire
    ensures created.subTasks == [] && created.comments == []
  {
    var store := new TaskStore();
    var r1 := store.CreateTask(TaskFields(Some("Buy milk"), None, None, None, None, None), NoFault);
    created := r1.body.task;
    var id := created.id;
    var r2 := store.AddSubTask(id, Some("2%"), NoFault);
    assert |r2.body.task.subTasks| == 1;
    var subId := r2.body.task.subTasks[0].id;
    var r3 := store.UpdateSubTask(id, subId, None, Some(true), NoFault);
    assert r3.body.task.subTasks[0].completed;
    var r4 := store.DeleteTask(id, NoFault);
    var r5 := store.GetTask(id, NoFault);
    var r6 := store.DeleteSubTask(id, subId, NoFault);
    statuses := [r1.status, r2.status, r3.status, r4.status, r5.status, r6.status];
  }

}
