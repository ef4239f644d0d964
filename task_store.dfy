/** The service's module-level task array and its five route handlers. Each
    handler changes `tasks` in place the way the service does (push, indexed
    assignment, splice) and is proved to agree with its reference definition
    in TaskModel. */
module TaskService {
  import opened TaskModel

  class TaskStore {
    /** The in-memory collection, in insertion order. */
    var tasks: seq<Task>

    /** The collection starts as whatever the seed document held. */
    constructor (seed: seq<Task>)
      ensures tasks == seed
    {
      tasks := seed;
    }

    /** GET /tasks: the whole collection, in stored order. */
    method List() returns (r: seq<Task>)
      ensures r == tasks
    {
      r := tasks;
    }

    /** GET /tasks/:id: the first task with that identifier, or 404. */
    method GetById(id: int) returns (r: Outcome<Task>)
      ensures r == TaskModel.GetById(tasks, id)
      ensures r.Ok? ==> r.value.id == id && r.value in tasks
    {
      var found := Find(tasks, id);
      if found.None? {
        r := NotFound(TaskNotFound);
      } else {
        FindAgreesWithFindIndex(tasks, id);
        r := Ok(found.value);
      }
    }

    /** POST /tasks: validate, assign the next identifier, push. */
    method Create(b: Body) returns (r: Outcome<Task>)
      modifies this
      ensures Step(r, tasks) == TaskModel.Create(old(tasks), b)
      ensures UniqueIds(old(tasks)) ==> UniqueIds(tasks)
      ensures PositiveIds(old(tasks)) ==> PositiveIds(tasks)
    {
      CreatePreservesIds(tasks, b);
      if MissingFields(b) {
        r := BadRequest(MissingRequiredFields);
        return;
      }
      var t := Task(NextId(tasks), b.title, b.description, b.completed);
      tasks := tasks + [t];
      r := Ok(t);
    }

    /** PUT /tasks/:id: look the task up, then check the type of `completed`,
        then replace the element at that position. */
    method Update(id: int, b: Body) returns (r: Outcome<Task>)
      modifies this
      ensures Step(r, tasks) == TaskModel.Update(old(tasks), id, b)
      ensures UniqueIds(old(tasks)) ==> UniqueIds(tasks)
      ensures PositiveIds(old(tasks)) ==> PositiveIds(tasks)
    {
      UpdatePreservesIds(tasks, id, b);
      var i := FindIndex(tasks, id);
      if i == -1 {
        r := NotFound(TaskNotFound);
        return;
      }
      if !IsBoolean(b.completed) {
        r := BadRequest(InvalidDataTypes);
        return;
      }
      tasks := tasks[i := Task(id, b.title, b.description, b.completed)];
      r := Ok(tasks[i]);
    }

    /** DELETE /tasks/:id: look the task up and splice it out. */
    method Delete(id: int) returns (r: Outcome<string>)
      modifies this
      ensures Step(r, tasks) == TaskModel.Delete(old(tasks), id)
      ensures UniqueIds(old(tasks)) ==> UniqueIds(tasks) && (r.Ok? ==> !HasId(tasks, id))
      ensures PositiveIds(old(tasks)) ==> PositiveIds(tasks)
    {
      DeletePreservesIds(tasks, id);
      var i := FindIndex(tasks, id);
      if i == -1 {
        r := NotFound(TaskNotFound);
        return;
      }
      tasks := tasks[..i] + tasks[i + 1..];
      r := Ok(TaskDeleted);
    }
  }
}
