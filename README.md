# Task management REST API: a verified model of the `/tasks` router

This project models the core of a small task-management REST API:

- the Mongoose schema of a **Task**, from `models/Task.js`. A task has a required title, a `priority` enum (`basse`, `moyenne`, `haute`, default `moyenne`) and a `status` enum (`à faire`, `en cours`, `terminée`, default `à faire`). It owns two ordered arrays of embedded documents: **SubTask** (required title, `completed` defaulting to false) and **Comment** (required author and message, `date` defaulting to the creation time). The `timestamps` option adds `createdAt` and `updatedAt`;
- the **query construction** of `GET /tasks`. The optional `status`, `priority`, `category`, `search` and `sort` parameters become a filter document and a sort document;
- the **ten route handlers** of `routes/tasks.js`. They run over a task collection held in a class. Each handler is one atomic step that returns an HTTP status and a JSON body.

Files, one module each:

| file | module | models |
|---|---|---|
| `wrappers.dfy` | `Wrappers` | `Option` |
| `text.dfy` | `Text` | JavaScript truthiness; ASCII case folding and substring containment (the `search` match); `startsWith` and `replace('-', '')` on the `sort` parameter |
| `document_array.dfy` | `DocumentArray` | Mongoose arrays of embedded documents: lookup by id (`.id()`), removal of one element (`remove()`), appending with a fresh id (`push`) |
| `task_schema.dfy` | `TaskSchema` | `models/Task.js`: datatypes, enum validators, defaults, validity, and the in-document edits the routes make |
| `task_query.dfy` | `TaskQuery` | `routes/tasks.js:9-34`: the filter, what it selects, the sort spec, and the order of the result |
| `task_routes.dfy` | `TaskRoutes` | `routes/tasks.js`: class `TaskStore`, one method per route |

How the model stands in for its environment:

- The MongoDB collection is the field `tasks: map<Id, Task>` of `TaskStore`.
- Document ids (ObjectIds) are natural numbers from one counter, `nextId`. Tasks and embedded documents share it. So a new id is never in use anywhere in the store.
- `Date.now` and the automatic timestamps are an abstract clock, `clock`. Each successful write that stores a task (every write except `DELETE /tasks/:id`) moves it forward by one. The class invariant `Valid()` keeps every `updatedAt` at or below `clock`, so each such write stamps a strictly later `updatedAt`. Deleting a whole task stamps nothing and leaves `clock` as it was.
- A failing storage call is chosen by the caller through a `Fault` argument. `ReadFault` fails `find` and `findById`. `WriteFault` fails `save`. Either fault fails `findByIdAndUpdate` and `findByIdAndDelete`, because each of these reads and writes in one call. A failed request changes nothing.
- The error text that the source adds as `error: err.message` is not modelled. `ErrorBody` carries only the fixed `message`.

Where the source and the design description disagree, the model follows the source:

- The enum strings are the French ones the schema declares (`basse`…, `à faire`…), not English names.
- `POST /tasks` and `PUT /tasks/:id` answer 400 for any failure, including a storage failure (routes/tasks.js:60-62, 77-79). They do not answer 500.
- `PUT /tasks/:id` runs its validators only on the fields the body gives. They run before the storage call. So an invalid body gives 400 even for an unknown id, and a missing title in the body is not an error.
- `PUT /tasks/:id/subtasks/:subId` with an empty `title` writes it to the sub-task. The sub-document's `required` validator then fails inside `save()`, and the handler's catch answers 500 (routes/tasks.js:132-138).
- The `sort` parameter loses its first `-` wherever that `-` stands: `sort=due-Date` sorts ascending on `dueDate`.
- An unknown `status` or `priority` value in a list query is not rejected. It selects nothing.
- `search` is a regular expression in the source; here it is a literal substring (see Left out).

## Model

| member | source | states |
|---|---|---|
| `Text.LowerIdempotent` | routes/tasks.js:19-20 | case folding a folded string changes nothing |
| `Text.ContainsIgnoreCaseFoldsPattern` | routes/tasks.js:19-20 | with the `i` option, a search pattern matches exactly the strings its lower-cased form matches |
| `Text.ContainsIgnoreCaseSelf` | routes/tasks.js:19-20 | under the literal-substring match (see Left out), every string matches itself as a search pattern |
| `Text.FirstIndex` | routes/tasks.js:27 | the index found holds the character, and no earlier index does |
| `Text.RemoveFirst` | routes/tasks.js:27 | `replace('-', '')` removes exactly the first `-`, wherever it is, and is the identity on a string without `-` |
| `DocumentArray.IndexOf` | routes/tasks.js:127 | `.id(x)` finds nothing exactly when no element has id `x`; otherwise it finds the first element with that id |
| `DocumentArray.RemoveAt` | routes/tasks.js:155 | removing one element shortens the array by one and keeps the others in their order |
| `DocumentArray.IndexOfPushedFresh` | routes/tasks.js:108 | an element pushed with an id not yet in the array is found by that id, at the end |
| `DocumentArray.DistinctPushFresh` | models/Task.js:37-39 | pushing an element with a fresh id keeps the ids within the array distinct |
| `DocumentArray.ReplaceSameId` | routes/tasks.js:132-133 | editing an element in place keeps the ids distinct, and its id still finds it at the same position |
| `DocumentArray.RemoveFound` | routes/tasks.js:150-155 | removing the element found by an id removes exactly the elements with that id: the id is no longer found, every other element remains, the ids stay distinct |
| `TaskSchema.ParsePriority` | models/Task.js:23-27 | the `priority` enum accepts exactly `basse`, `moyenne`, `haute`, and parsing inverts `PriorityName` |
| `TaskSchema.ParseStatus` | models/Task.js:29-33 | the `status` enum accepts exactly `à faire`, `en cours`, `terminée`, and parsing inverts `StatusName` |
| `TaskSchema.FreshIdNotFound` | models/Task.js:37-39 | an id not yet handed out is found in neither embedded array |
| `TaskSchema.NewTask` | models/Task.js:17-41 | creation succeeds exactly when the title is present and non-empty and every given enum value is declared; the result is valid, keeps the given fields, applies the defaults `moyenne` / `à faire`, has empty sub-task and comment arrays, and `createdAt == updatedAt == now` |
| `TaskSchema.ApplyUpdate` | routes/tasks.js:68-72 | a partial update replaces exactly the given fields, stores the given enum strings, refreshes `updatedAt`, and keeps the id, `createdAt`, sub-tasks and comments |
| `TaskSchema.ApplyUpdateKeepsValid` | routes/tasks.js:68-72 | a validated update of a valid task leaves a valid task |
| `TaskSchema.PushSubTaskSound` | routes/tasks.js:108-109 | adding a sub-task appends one element at the end, with the title and `completed = false`, findable by its fresh id; earlier sub-tasks and every other task field except `updatedAt` are unchanged; the task stays valid |
| `TaskSchema.PatchSubTaskSound` | routes/tasks.js:127-135 | a sub-task update changes only the matched sub-task, and only the given `title` / `completed`; siblings, their order and every other task field except `updatedAt` are unchanged |
| `TaskSchema.DropSubTaskSound` | routes/tasks.js:150-156 | deleting a sub-task removes exactly the one with that id, keeps every other task field except `updatedAt`, and leaves a valid task |
| `TaskSchema.PushCommentSound` | routes/tasks.js:177-178 | adding a comment appends one element at the end, dated now, findable by its fresh id; the rest is unchanged except `updatedAt`; the task stays valid |
| `TaskSchema.DropCommentSound` | routes/tasks.js:194-200 | deleting a comment removes exactly the one with that id, keeps every other task field except `updatedAt`, and leaves a valid task |
| `TaskQuery.IfTruthy` | routes/tasks.js:13-15 | a parameter enters the filter exactly when it is present and non-empty, and then unchanged |
| `TaskQuery.SelectionByParameters` | routes/tasks.js:11-22 | a task is selected exactly when it meets every constraint that a truthy parameter adds: status, priority and category equality, and the title-or-description search |
| `TaskQuery.NoParametersSelectAll` | routes/tasks.js:11-15 | with no truthy filter parameter, every task is selected |
| `TaskQuery.UnknownEnumSelectsNothing` | routes/tasks.js:13-14 | a status or priority value that is not a declared enum string selects no task |
| `TaskQuery.SearchIgnoresPatternCase` | routes/tasks.js:17-22 | the search pattern selects the same tasks as its lower-cased form |
| `TaskQuery.SearchFindsOwnTitle` | routes/tasks.js:17-22 | under the literal-substring match (see Left out), a search equal to a task's title never excludes that task |
| `TaskQuery.BuildSort` | routes/tasks.js:24-32 | a falsy `sort` gives `createdAt` descending; otherwise the direction is -1 exactly when the parameter starts with `-`, and the field is the parameter without its first `-` |
| `TaskQuery.SortPrefixRoundTrip` | routes/tasks.js:26-29 | for a field name without `-`, `sort=f` sorts ascending on `f` and `sort=-f` descending on `f` |
| `TaskQuery.InnerDashIsDropped` | routes/tasks.js:27-28 | `sort=due-Date` sorts ascending on `dueDate` |
| `TaskQuery.PrecedesTotal` | routes/tasks.js:34 | under any sort spec, of two tasks one may precede the other |
| `TaskQuery.PrecedesTransitive` | routes/tasks.js:34 | the order a sort spec asks for is transitive |
| `TaskQuery.Insert` | routes/tasks.js:34 | inserting a task into a result list adds exactly that one task |
| `TaskQuery.InsertKeepsOrder` | routes/tasks.js:34 | inserting a task into a list ordered by the sort spec leaves it ordered |
| `TaskRoutes.StoreTaskKeepsValid` | models/Task.js:17-41 | storing a valid task under its own id keeps the collection valid |
| `TaskRoutes.UpdateTaskKeepsValid` | routes/tasks.js:68-72 | a successful task update keeps the collection valid |
| `TaskRoutes.AddSubTaskKeepsValid` | routes/tasks.js:108-109 | a successful sub-task append keeps the collection valid, with the new id handed out |
| `TaskRoutes.UpdateSubTaskKeepsValid` | routes/tasks.js:132-135 | a successful sub-task update keeps the collection valid |
| `TaskRoutes.DeleteSubTaskKeepsValid` | routes/tasks.js:155-156 | a successful sub-task delete keeps the collection valid |
| `TaskRoutes.AddCommentKeepsValid` | routes/tasks.js:177-178 | a successful comment append keeps the collection valid, with the new id handed out |
| `TaskRoutes.DeleteCommentKeepsValid` | routes/tasks.js:199-200 | a successful comment delete keeps the collection valid |
| `TaskRoutes.TaskStore.ListTasks` | routes/tasks.js:7-39 | `GET /tasks`: 500 on a read failure; otherwise 200 with every stored task the filter selects exactly once, nothing else, ordered as the sort spec asks |
| `TaskRoutes.TaskStore.GetTask` | routes/tasks.js:42-52 | `GET /tasks/:id`: 500 on a read failure, 404 for an unknown id, otherwise 200 with the stored task |
| `TaskRoutes.TaskStore.CreateTask` | routes/tasks.js:55-63 | `POST /tasks`: 400 and no change on a validation or storage failure; otherwise the new task is stored under a fresh id and returned with 201 |
| `TaskRoutes.TaskStore.UpdateTask` | routes/tasks.js:66-80 | `PUT /tasks/:id`: 400 for an invalid body or a storage failure, before the lookup; then 404 for an unknown id; otherwise the merged task is stored and returned with 200 |
| `TaskRoutes.TaskStore.DeleteTask` | routes/tasks.js:83-93 | `DELETE /tasks/:id`: 500 on failure, 404 for an unknown id; otherwise the id leaves the collection, with its sub-tasks and comments, and the answer is 200 with the confirmation message |
| `TaskRoutes.TaskStore.AddSubTask` | routes/tasks.js:96-115 | `POST /tasks/:id/subtasks`: a falsy title gives 400 before any lookup; 500 on a read failure; 404 for an unknown task; 500 on a write failure; otherwise the sub-task is appended and the task returned with 201; every failure leaves the store unchanged |
| `TaskRoutes.TaskStore.UpdateSubTask` | routes/tasks.js:118-140 | `PUT /tasks/:id/subtasks/:subId`: 500 on a read failure, 404 for an unknown task, 404 for an unknown sub-task, 500 for an empty new title or a write failure; otherwise only the matched sub-task's given fields change, with 200 |
| `TaskRoutes.TaskStore.DeleteSubTask` | routes/tasks.js:143-162 | `DELETE /tasks/:id/subtasks/:subId`: 404 at either level with no change; otherwise exactly that sub-task is removed, with 200 |
| `TaskRoutes.TaskStore.AddComment` | routes/tasks.js:165-184 | `POST /tasks/:id/comments`: a falsy author or message gives 400 before any lookup; 404 for an unknown task; otherwise one comment is appended, with 201 |
| `TaskRoutes.TaskStore.DeleteComment` | routes/tasks.js:187-206 | `DELETE /tasks/:id/comments/:commentId`: 404 at either level with no change; otherwise exactly that comment is removed, with 200 |
| `TaskRoutes.CompleteThenDeleteSession` | routes/tasks.js:42-162 | create with only a title (201, defaults `moyenne` / `à faire`), add a sub-task (201), complete it (200), delete the task (200); then both the task and its former sub-task give 404 |

## Left out

- server.js and config/db.js are not part of this model: environment variables, middleware, `listen`, and the database connection with its `process.exit(1)` on failure. In server.js as given, the `/tasks` router is not even mounted.
- public/app.js is not part of this model. It is the browser client.
- Regular-expression semantics of `search`: the pattern is matched as a literal substring, so metacharacters (`$`, `^`, `.`, `(`, …) match themselves here, and `Text.ContainsIgnoreCaseSelf` and `TaskQuery.SearchFindsOwnTitle` hold only for that literal match (`search=x$` does not select a task titled `x$` in MongoDB). Case folding covers ASCII letters only, so accented capitals are not folded.
- Sort order on fields other than `createdAt`, `updatedAt` and `dueDate`: MongoDB's ordering of strings, of mixed types and of missing values is not modelled, so any order is accepted for such a field. The order among tasks with equal keys is not specified either.
- `TaskRoutes.TaskStore.ListTasks`: a query that MongoDB rejects gives 500 in the source. Two such cases are a `sort` value such as `-` alone (an empty field name) and a `search` that is not a valid regular expression, such as `(` or `?`. The model answers 200 for both.
- Values other than strings, booleans and integers in requests: `null`, arrays (repeated query parameters), numbers given for strings, non-boolean `completed`. Mongoose's type casting and its CastError for malformed ids or dates are not modelled either, and ids are abstract numbers.
- Nested `subTasks` / `comments` arrays and unknown fields in the body of `POST /tasks` or `PUT /tasks/:id`: only the six scalar fields of a task are modelled. A created task always starts with empty arrays, and an update never replaces them.
- Mongoose's skipping of `updatedAt` when `save()` finds nothing modified: every successful write here refreshes `updatedAt`.
- Whether `subdoc.remove()` exists in the installed Mongoose version: it is modelled as removing that element.
- Concurrency: between the read and the write of one request, the source can interleave other requests, and the last write wins. Each handler here is one atomic step.
- The text of underlying errors (`error: err.message`).
