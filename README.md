# Task manager API — Dafny model

This project models the core of a small Express service that keeps a list of
task records in memory and exposes five routes: GET /tasks, GET /tasks/:id,
POST /tasks, PUT /tasks/:id and DELETE /tasks/:id. The model covers the
module-level `tasks` array and the handler bodies that read and change it.
They are written as the class `TaskService.TaskStore`, with a `tasks: seq<Task>`
field that its methods change the way the service does:
- `push` on create;
- positional assignment on update;
- `splice` on delete.

Each method is proved equal to a pure reference handler in `TaskModel`
(`Create`, `Update`, `Delete`, `GetById`). Those references are built from:
- the searches `find` and `findIndex`, as `Find` and `FindIndex`;
- the identifier computation `Math.max(...ids) + 1`, as `MaxId` and `NextId`.

The properties of the service are proved about these functions. `TaskTrace`
runs whole sequences of requests and proves what holds across them.

Request bodies are `JsValue`s, so that JavaScript truthiness can be stated
exactly. `Falsy` holds of `undefined`, `null`, `false`, `0` and `""`; arrays and
objects are truthy. A field missing from the body is `Undefined`. Responses are
`Outcome`s:
- `Ok` is 200, or 201 for create;
- `NotFound` is 404 with `Task not found`;
- `BadRequest(message)` is 400 with that message.

What the code does, which the model follows:
- Create rejects with `Missing required fields` when the title is falsy, the
  description is falsy, or `completed` is undefined. Any other `completed`
  passes, including `null`, `0` and the string `"false"`.
- Create's validation does not check types and does not trim.
- Update looks the identifier up before it checks anything else. It then
  requires only that `completed` is a boolean (`Invalid data types`
  otherwise). It stores `title` and `description` unchecked, even when they
  are missing.
- Identifiers are "largest present plus one". `DeleteUndoesCreate` shows, for
  every collection, that deleting the task just created and creating again
  hands out that identifier again.

Some design documents for this service describe behaviour the code lacks:
identifiers never reused after deletes, priorities, `createdAt`, filtering,
sorting, trimming, and the messages `Title and description cannot be empty`
and `Completed must be a boolean value`. Some test cases also expect these.
The model follows the code and has none of them. What does hold is proved in
`TaskTrace.CreatedIdsIncrease`: as long as no delete intervenes, created
identifiers strictly increase.

## Model

| member | source | states |
|---|---|---|
| TaskModel.FindIndex | app.js:60 | `findIndex` by id: returns -1 exactly when no task has the id; otherwise returns the first position holding it |
| TaskModel.Find | app.js:27 | `find` by id: returns nothing exactly when no task has the id; otherwise returns a member of the collection with that id |
| TaskModel.FindAgreesWithFindIndex | app.js:27-31 | `find` returns the task at the position `findIndex` returns, so GET and PUT/DELETE pick the same (first) match |
| TaskModel.FindIndexIsOnlyMatch | app.js:60 | under unique ids, the position found is the only one holding that id |
| TaskModel.MaxId | app.js:47 | `Math.max` over the ids of a non-empty collection: the result is an id present and no id exceeds it |
| TaskModel.NextId | app.js:47 | the new id exceeds every existing id; it is 1 on an empty collection and otherwise one more than an id present (so max + 1) |
| TaskModel.RemoveAt | app.js:93 | `splice(i, 1)`: one element shorter; the elements before i are kept; the elements after i move down one place, in order |
| TaskModel.GetById | app.js:25-34 | NotFound 'Task not found' exactly when no task has the id; otherwise Ok with the task at the first matching position; never a 400 |
| TaskModel.Create | app.js:37-55 | rejects with 'Missing required fields' and no change exactly when title or description is falsy or completed is undefined; otherwise appends one task and returns it; its id is exactly `NextId` (max + 1, or 1 when empty), so it exceeds every earlier id, and its fields are the body's |
| TaskModel.Update | app.js:58-82 | NotFound 'Task not found' exactly when the id is absent, whatever the body holds; BadRequest 'Invalid data types' exactly when the id is present and completed is not a boolean; no change on either error; on success only the first matching position changes, to the body's fields under the same id, and the length is kept |
| TaskModel.Delete | app.js:85-95 | NotFound 'Task not found' and no change exactly when the id is absent; otherwise 'Task deleted successfully' and the element at the first matching position is removed |
| TaskModel.CreatePreservesIds | app.js:46-53 | a create keeps ids unique and keeps them positive |
| TaskModel.UpdatePreservesIds | app.js:74-79 | an update keeps ids unique and positive |
| TaskModel.DeletePreservesIds | app.js:87-93 | a delete keeps ids unique and positive; with unique ids, no remaining task has the deleted id |
| TaskModel.DeleteKeepsOrder | app.js:87-93 | a successful delete shortens the collection by one and leaves `ts[..i] + ts[i+1..]`, where i is the first position holding the id |
| TaskModel.RejectedRequestsChangeNothing | app.js:41-91 | a create, update or delete that does not succeed leaves the collection unchanged |
| TaskModel.DeleteUndoesCreate | app.js:47-93 | for every collection, deleting the id a successful create just assigned restores the old collection, and creating again assigns the same id (ids are reused) |
| TaskService.TaskStore.constructor | app.js:11-14 | the collection starts as the seed sequence |
| TaskService.TaskStore.List | app.js:20-22 | returns the whole collection in stored order |
| TaskService.TaskStore.GetById | app.js:25-34 | the response is the reference GetById on the current collection: a task with the requested id from the collection, or NotFound; nothing changes |
| TaskService.TaskStore.Create | app.js:37-55 | response and new collection equal the reference Create on the old collection; unique and positive ids are preserved |
| TaskService.TaskStore.Update | app.js:58-82 | response and new collection equal the reference Update on the old collection; unique and positive ids are preserved |
| TaskService.TaskStore.Delete | app.js:85-95 | response and new collection equal the reference Delete on the old collection; ids stay unique and positive; with unique ids, the deleted id is gone |
| TaskTrace.RunPreservesIds | app.js:20-95 | unique and positive ids, if true of the seed, hold after any sequence of requests |
| TaskTrace.KeepsIdsUnlessDelete | app.js:53 | no request other than a delete shortens the collection or changes any existing position's id |
| TaskTrace.CreatedIdsIncrease | app.js:47 | with no delete in a run, the ids its creates assign strictly increase, and each exceeds every id of the starting collection |

## Left out

- Express setup, the JSON and URL-encoded body parsers, and `app.listen` (app.js:1-8, 97-104). This is transport plumbing. Handlers return an `Outcome`, and the prose above gives the status codes.
- Loading the seed from `task.json` (app.js:12-17). This is file I/O and a foreign JSON parser. The constructor takes the seed as an arbitrary sequence. The read-failure fallback is not modelled; it would be the empty sequence. A seed document without a `tasks` key would leave `tasks` undefined. Then GET /tasks answers 200 with an empty body, and a POST with missing fields still answers 400 before touching `tasks`. GET /tasks/:id, PUT, DELETE and a POST that passes validation throw (app.js:27, 47, 60, 87). None of this is modelled.
- `parseInt` on the path parameter (app.js:26, 59, 86). The handlers take the id as an integer. A non-numeric parameter becomes `NaN` in the service, which equals no id, so the handler returns NotFound. That is the absent-id case already modelled.
- JavaScript numbers are doubles. The model uses unbounded integers, so it has no `NaN`, no `-0` (also falsy), no fractional ids and no loss of precision above 2^53. Non-number ids in the seed are not representable. `Math.max` converts its arguments to numbers: `"3"` counts as 3 and `null` as 0, and only an id that does not convert gives `NaN`. A string id never matches under `===` at app.js:27, 60 and 87.
- The spread `Math.max(...ids)` can exceed the engine's argument limit on very large collections. That is not modelled.
- `JsValue.Array` and `JsValue.Object` carry their contents, but no handler inspects them beyond their truthiness.
- Concurrency is not modelled. Node runs each handler to completion, and the model's methods are atomic.

