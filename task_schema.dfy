/** The Task document and its two embedded document kinds, with the
    validators, enums and defaults their schemas declare (models/Task.js). */
module TaskSchema {
  import opened Wrappers
  import opened DocumentArray
  import opened Text

  /** An abstract clock reading; it stands for `Date.now` and for the
      automatic `createdAt` / `updatedAt` timestamps. */
  type Time = nat

  datatype Priority = Basse | Moyenne | Haute

  datatype Status = AFaire | EnCours | Terminee

  /** The strings the `priority` enum declares. */
  function PriorityName(p: Priority): string {
    match p
    case Basse => "basse"
    case Moyenne => "moyenne"
    case Haute => "haute"
  }

  /** The strings the `status` enum declares. */
  function StatusName(s: Status): string {
    match s
    case AFaire => "à faire"
    case EnCours => "en cours"
    case Terminee => "terminée"
  }

  const DefaultPriority: Priority := Moyenne
  const DefaultStatus: Status := AFaire

  /** The enum validator of `priority`: accepts exactly the declared strings. */
  function ParsePriority(s: string): (r: Option<Priority>)
    ensures forall p :: r == Some(p) <==> PriorityName(p) == s
  {
    if s == "basse" then Some(Basse)
    else if s == "moyenne" then Some(Moyenne)
    else if s == "haute" then Some(Haute)
    else None
  }

  /** The enum validator of `status`: accepts exactly the declared strings. */
  function ParseStatus(s: string): (r: Option<Status>)
    ensures forall st :: r == Some(st) <==> StatusName(st) == s
  {
    if s == "à faire" then Some(AFaire)
    else if s == "en cours" then Some(EnCours)
    else if s == "terminée" then Some(Terminee)
    else None
  }

  /** SubTaskSchema: `title` required, `completed` defaulting to false. */
  datatype SubTask = SubTask(id: Id, title: string, completed: bool)

  /** CommentSchema: `author` and `message` required, `date` defaulting to
      the time of creation. */
  datatype Comment = Comment(id: Id, author: string, message: string, date: Time)

  /** TaskSchema, with the two timestamps that the `timestamps` option adds. */
  datatype Task = Task(
    id: Id,
    title: string,
    description: Option<string>,
    dueDate: Option<int>,
    priority: Priority,
    status: Status,
    category: Option<string>,
    subTasks: seq<SubTask>,
    comments: seq<Comment>,
    createdAt: Time,
    updatedAt: Time)

  function SubTaskId(s: SubTask): Id { s.id }
  function CommentId(c: Comment): Id { c.id }

  predicate ValidSubTask(s: SubTask) {
    s.title != ""
  }

  predicate ValidComment(c: Comment) {
    c.author != "" && c.message != ""
  }

  /** What a stored task satisfies: every required field is non-empty, the
      embedded ids are distinct within their array, and the document was not
      updated before it was created. The enums are valid by construction. */
  predicate ValidTask(t: Task) {
    && t.title != ""
    && (forall i :: 0 <= i < |t.subTasks| ==> ValidSubTask(t.subTasks[i]))
    && (forall i :: 0 <= i < |t.comments| ==> ValidComment(t.comments[i]))
    && DistinctBy(t.subTasks, SubTaskId)
    && DistinctBy(t.comments, CommentId)
    && t.createdAt <= t.updatedAt
  }

  /** Every embedded id was handed out before `bound`. */
  predicate IdsBelow(t: Task, bound: Id) {
    && (forall i :: 0 <= i < |t.subTasks| ==> t.subTasks[i].id < bound)
    && (forall i :: 0 <= i < |t.comments| ==> t.comments[i].id < bound)
  }

  /** An id not yet handed out is found in neither embedded array. */
  lemma FreshIdNotFound(t: Task, bound: Id)
    requires IdsBelow(t, bound)
    ensures IndexOf(t.subTasks, SubTaskId, bound) == None
    ensures IndexOf(t.comments, CommentId, bound) == None
  {
  }

  /** The scalar fields of a request body for `POST /tasks` or `PUT /tasks/:id`;
      an absent field is `None`. Enum fields arrive as raw strings. */
  datatype TaskFields = TaskFields(
    title: Option<string>,
    description: Option<string>,
    dueDate: Option<int>,
    priority: Option<string>,
    status: Option<string>,
    category: Option<string>)

  /** The validators that run on the fields a body gives: a given title must
      be non-empty and a given enum field must hold a declared string. */
  predicate GivenFieldsValid(body: TaskFields) {
    && (body.title.Some? ==> body.title.value != "")
    && (body.priority.Some? ==> ParsePriority(body.priority.value).Some?)
    && (body.status.Some? ==> ParseStatus(body.status.value).Some?)
  }

  /** `new Task(body)` followed by `save()`: the document gets its id, its
      defaults and both timestamps, or validation fails. */
  function NewTask(body: TaskFields, id: Id, now: Time): (r: Option<Task>)
    ensures r.Some? <==> Truthy(body.title) && GivenFieldsValid(body)
    ensures r.Some? ==> ValidTask(r.value) && r.value.id == id
    ensures r.Some? ==>
      && Some(r.value.title) == body.title
      && r.value.description == body.description
      && r.value.dueDate == body.dueDate
      && r.value.category == body.category
    ensures r.Some? ==>
      && (body.priority.None? ==> r.value.priority == DefaultPriority)
      && (body.priority.Some? ==> PriorityName(r.value.priority) == body.priority.value)
      && (body.status.None? ==> r.value.status == DefaultStatus)
      && (body.status.Some? ==> StatusName(r.value.status) == body.status.value)
    ensures r.Some? ==> r.value.subTasks == [] && r.value.comments == []
    ensures r.Some? ==> r.value.createdAt == now && r.value.updatedAt == now
  {
    if !Truthy(body.title) || !GivenFieldsValid(body) then None
    else
      var priority := if body.priority.Some? then ParsePriority(body.priority.value).value else DefaultPriority;
      var status := if body.status.Some? then ParseStatus(body.status.value).value else DefaultStatus;
      Some(Task(id, body.title.value, body.description, body.dueDate, priority, status,
                body.category, [], [], now, now))
  }

  /** `findByIdAndUpdate(id, body)`: the given fields replace the stored ones,
      `updatedAt` is refreshed, and nothing else changes. */
  function ApplyUpdate(t: Task, body: TaskFields, now: Time): (r: Task)
    requires GivenFieldsValid(body)
    ensures r.id == t.id && r.createdAt == t.createdAt && r.updatedAt == now
    ensures r.subTasks == t.subTasks && r.comments == t.comments
    ensures body.title.None? ==> r.title == t.title
    ensures body.title.Some? ==> r.title == body.title.value
    ensures body.description.None? ==> r.description == t.description
    ensures body.description.Some? ==> r.description == body.description
    ensures body.dueDate.None? ==> r.dueDate == t.dueDate
    ensures body.dueDate.Some? ==> r.dueDate == body.dueDate
    ensures body.priority.None? ==> r.priority == t.priority
    ensures body.priority.Some? ==> PriorityName(r.priority) == body.priority.value
    ensures body.status.None? ==> r.status == t.status
    ensures body.status.Some? ==> StatusName(r.status) == body.status.value
    ensures body.category.None? ==> r.category == t.category
    ensures body.category.Some? ==> r.category == body.category
  {
    t.(title := if body.title.Some? then body.title.value else t.title,
       description := if body.description.Some? then body.description else t.description,
       dueDate := if body.dueDate.Some? then body.dueDate else t.dueDate,
       priority := if body.priority.Some? then ParsePriority(body.priority.value).value else t.priority,
       status := if body.status.Some? then ParseStatus(body.status.value).value else t.status,
       category := if body.category.Some? then body.category else t.category,
       updatedAt := now)
  }

  /** A valid update of a valid task is a valid task. */
  lemma ApplyUpdateKeepsValid(t: Task, body: TaskFields, now: Time)
    requires ValidTask(t) && GivenFieldsValid(body) && t.updatedAt <= now
    ensures ValidTask(ApplyUpdate(t, body, now))
  {
  }

  /** `task.subTasks.push({ title })` with the new sub-document's id, then
      `save()`, which refreshes `updatedAt`. */
  function PushSubTask(t: Task, title: string, subId: Id, now: Time): Task {
    t.(subTasks := t.subTasks + [SubTask(subId, title, false)], updatedAt := now)
  }

  /** Appending a sub-task puts exactly one new element at the end, not
      completed, findable by its fresh id; the earlier sub-tasks and every
      other task field except `updatedAt` are untouched, and the task stays
      valid. */
  lemma PushSubTaskSound(t: Task, title: string, subId: Id, now: Time)
    requires ValidTask(t) && title != "" && t.updatedAt <= now
    requires IndexOf(t.subTasks, SubTaskId, subId) == None
    ensures var r := PushSubTask(t, title, subId, now);
      && ValidTask(r)
      && |r.subTasks| == |t.subTasks| + 1
      && r.subTasks[..|t.subTasks|] == t.subTasks
      && r.subTasks[|t.subTasks|].title == title
      && !r.subTasks[|t.subTasks|].completed
      && IndexOf(r.subTasks, SubTaskId, subId) == Some(|t.subTasks|)
      && r == t.(subTasks := r.subTasks, updatedAt := now)
      && (IdsBelow(t, subId) ==> IdsBelow(r, subId + 1))
  {
    var x := SubTask(subId, title, false);
    assert SubTaskId(x) == subId;
    IndexOfPushedFresh(t.subTasks, SubTaskId, x);
    DistinctPushFresh(t.subTasks, SubTaskId, x);
  }

  /** The sub-task `t.subTasks[k]` after `if (title !== undefined)` and
      `if (completed !== undefined)` assignments, then `save()`. */
  function PatchSubTask(t: Task, k: nat, title: Option<string>, completed: Option<bool>, now: Time): Task
    requires k < |t.subTasks|
  {
    var s := t.subTasks[k];
    var s' := s.(title := if title.Some? then title.value else s.title,
                 completed := if completed.Some? then completed.value else s.completed);
    t.(subTasks := t.subTasks[k := s'], updatedAt := now)
  }

  /** A partial sub-task update touches only the matched sub-task and only the
      fields that were given; siblings, their order, the comments and every
      other task field except `updatedAt` keep their values, and the task
      stays valid when the new title is not empty. */
  lemma PatchSubTaskSound(t: Task, k: nat, title: Option<string>, completed: Option<bool>, now: Time)
    requires ValidTask(t) && k < |t.subTasks| && t.updatedAt <= now
    requires title.Some? ==> title.value != ""
    ensures var r := PatchSubTask(t, k, title, completed, now);
      && ValidTask(r)
      && |r.subTasks| == |t.subTasks|
      && (forall i :: 0 <= i < |t.subTasks| && i != k ==> r.subTasks[i] == t.subTasks[i])
      && r.subTasks[k].id == t.subTasks[k].id
      && r.subTasks[k].title == (if title.Some? then title.value else t.subTasks[k].title)
      && r.subTasks[k].completed == (if completed.Some? then completed.value else t.subTasks[k].completed)
      && r == t.(subTasks := r.subTasks, updatedAt := now)
      && IndexOf(r.subTasks, SubTaskId, t.subTasks[k].id) == Some(k)
      && (forall bound :: IdsBelow(t, bound) ==> IdsBelow(r, bound))
  {
    var r := PatchSubTask(t, k, title, completed, now);
    ReplaceSameId(t.subTasks, SubTaskId, k, r.subTasks[k]);
  }

  /** `subTask.remove()` followed by `save()`. */
  function DropSubTask(t: Task, k: nat, now: Time): Task
    requires k < |t.subTasks|
  {
    t.(subTasks := RemoveAt(t.subTasks, k), updatedAt := now)
  }

  /** Deleting the sub-task found by `subId` removes exactly that one, leaves
      every other task field except `updatedAt` as it was, and keeps the task
      valid. */
  lemma DropSubTaskSound(t: Task, subId: Id, k: nat, now: Time)
    requires ValidTask(t) && t.updatedAt <= now
    requires IndexOf(t.subTasks, SubTaskId, subId) == Some(k)
    ensures var r := DropSubTask(t, k, now);
      && ValidTask(r)
      && IndexOf(r.subTasks, SubTaskId, subId) == None
      && (forall s :: s in r.subTasks <==> s in t.subTasks && s.id != subId)
      && r == t.(subTasks := r.subTasks, updatedAt := now)
      && (forall bound :: IdsBelow(t, bound) ==> IdsBelow(r, bound))
  {
    RemoveFound(t.subTasks, SubTaskId, subId, k);
  }

  /** `task.comments.push({ author, message })` with the new sub-document's
      id and the current time as its default `date`, then `save()`. */
  function PushComment(t: Task, author: string, message: string, commentId: Id, now: Time): Task {
    t.(comments := t.comments + [Comment(commentId, author, message, now)], updatedAt := now)
  }

  /** Appending a comment puts exactly one new element at the end, dated now
      and findable by its fresh id; the rest of the task is untouched except
      `updatedAt`, and the task stays valid. */
  lemma PushCommentSound(t: Task, author: string, message: string, commentId: Id, now: Time)
    requires ValidTask(t) && author != "" && message != "" && t.updatedAt <= now
    requires IndexOf(t.comments, CommentId, commentId) == None
    ensures var r := PushComment(t, author, message, commentId, now);
      && ValidTask(r)
      && |r.comments| == |t.comments| + 1
      && r.comments[..|t.comments|] == t.comments
      && r.comments[|t.comments|] == Comment(commentId, author, message, now)
      && IndexOf(r.comments, CommentId, commentId) == Some(|t.comments|)
      && r == t.(comments := r.comments, updatedAt := now)
      && (IdsBelow(t, commentId) ==> IdsBelow(r, commentId + 1))
  {
    var x := Comment(commentId, author, message, now);
    assert CommentId(x) == commentId;
    IndexOfPushedFresh(t.comments, CommentId, x);
    DistinctPushFresh(t.comments, CommentId, x);
  }

  /** `comment.remove()` followed by `save()`. */
  function DropComment(t: Task, k: nat, now: Time): Task
    requires k < |t.comments|
  {
    t.(comments := RemoveAt(t.comments, k), updatedAt := now)
  }

  /** Deleting the comment found by `commentId` removes exactly that one,
      leaves every other task field except `updatedAt` as it was, and keeps
      the task valid. */
  lemma DropCommentSound(t: Task, commentId: Id, k: nat, now: Time)
    requires ValidTask(t) && t.updatedAt <= now
    requires IndexOf(t.comments, CommentId, commentId) == Some(k)
    ensures var r := DropComment(t, k, now);
      && ValidTask(r)
      && IndexOf(r.comments, CommentId, commentId) == None
      && (forall c :: c in r.comments <==> c in t.comments && c.id != commentId)
      && r == t.(comments := r.comments, updatedAt := now)
      && (forall bound :: IdsBelow(t, bound) ==> IdsBelow(r, bound))
  {
    RemoveFound(t.comments, CommentId, commentId, k);
  }

}
