/** Values, records and the pure logic of the task service: the searches the
    handlers run over the collection, the identifier policy, and a reference
    definition of every handler as a function from the old collection to the
    response and the new collection. */
module TaskModel {

  datatype Option<T> = None | Some(value: T)

  /** A JSON value as a handler sees it after body parsing. `Undefined` is a
      field the request body does not carry. Numbers are integers here. */
  datatype JsValue =
    | Undefined
    | Null
    | Bool(b: bool)
    | Num(n: int)
    | Str(s: string)
    | Array(items: seq<JsValue>)
    | Object(fields: seq<(string, JsValue)>)

  /** JavaScript's `!v`: the falsy values are undefined, null, false, 0 and "".
      Arrays and objects are truthy even when empty. */
  predicate Falsy(v: JsValue) {
    v.Undefined? || v.Null? || v == Bool(false) || v == Num(0) || v == Str("")
  }

  /** JavaScript's `typeof v === 'boolean'`. */
  predicate IsBoolean(v: JsValue) {
    v.Bool?
  }

  /** A stored task. The handlers copy the body's fields through unchecked,
      so only `id` has a fixed type. */
  datatype Task = Task(id: int, title: JsValue, description: JsValue, completed: JsValue)

  /** The three fields the handlers destructure from the request body. */
  datatype Body = Body(title: JsValue, description: JsValue, completed: JsValue)

  /** A handler's response: 2xx with a payload, or 404 or 400 with the
      message of the error body. */
  datatype Outcome<T> = Ok(value: T) | NotFound(message: string) | BadRequest(message: string)

  /** A handler's response together with the collection it leaves behind. */
  datatype Step<T> = Step(outcome: Outcome<T>, tasks: seq<Task>)

  const TaskNotFound: string := "Task not found"
  const MissingRequiredFields: string := "Missing required fields"
  const InvalidDataTypes: string := "Invalid data types"
  const TaskDeleted: string := "Task deleted successfully"

  /** Every identifier occurs at most once in the collection. */
  ghost predicate UniqueIds(ts: seq<Task>) {
    forall i, j :: 0 <= i < j < |ts| ==> ts[i].id != ts[j].id
  }

  /** Every identifier is strictly positive. */
  ghost predicate PositiveIds(ts: seq<Task>) {
    forall i :: 0 <= i < |ts| ==> ts[i].id > 0
  }

  ghost predicate HasId(ts: seq<Task>, id: int) {
    exists i :: 0 <= i < |ts| && ts[i].id == id
  }

  /** `tasks.findIndex(t => t.id === id)`: the first matching position, or -1. */
  function FindIndex(ts: seq<Task>, id: int): (r: int)
    ensures -1 <= r < |ts|
    ensures r == -1 <==> !HasId(ts, id)
    ensures r >= 0 ==> ts[r].id == id && forall j :: 0 <= j < r ==> ts[j].id != id
  {
    if |ts| == 0 then -1
    else if ts[0].id == id then 0
    else
      var k := FindIndex(ts[1..], id);
      assert forall j :: 1 <= j < |ts| ==> ts[j] == ts[1..][j - 1];
      if k == -1 then -1 else k + 1
  }

  /** `tasks.find(t => t.id === id)`: the first matching task, if any. */
  function Find(ts: seq<Task>, id: int): (r: Option<Task>)
    ensures r.None? <==> !HasId(ts, id)
    ensures r.Some? ==> r.value in ts && r.value.id == id
  {
    if |ts| == 0 then None
    else if ts[0].id == id then Some(ts[0])
    else
      assert forall j :: 1 <= j < |ts| ==> ts[j] == ts[1..][j - 1];
      Find(ts[1..], id)
  }

  /** `Math.max(...tasks.map(t => t.id))` on a non-empty collection. */
  function MaxId(ts: seq<Task>): (r: int)
    requires |ts| > 0
    ensures HasId(ts, r)
    ensures forall i :: 0 <= i < |ts| ==> ts[i].id <= r
  {
    if |ts| == 1 then ts[0].id
    else
      var m := MaxId(ts[1..]);
      assert forall j :: 1 <= j < |ts| ==> ts[j] == ts[1..][j - 1];
      if ts[0].id > m then ts[0].id else m
  }

  /** The identifier a create assigns: one more than the largest identifier
      present, or 1 on an empty collection. */
  function NextId(ts: seq<Task>): (r: int)
    ensures forall i :: 0 <= i < |ts| ==> ts[i].id < r
    ensures |ts| == 0 ==> r == 1
    ensures |ts| > 0 ==> HasId(ts, r - 1)
  {
    if |ts| > 0 then MaxId(ts) + 1 else 1
  }

  /** The create handler's rejection test. `completed` only has to be
      present: null, 0, "false" and every other defined value pass. */
  predicate MissingFields(b: Body) {
    Falsy(b.title) || Falsy(b.description) || b.completed.Undefined?
  }

  /** `tasks` with the element at position `i` removed, as `splice(i, 1)` does. */
  function RemoveAt(ts: seq<Task>, i: nat): (r: seq<Task>)
    requires i < |ts|
    ensures |r| == |ts| - 1
    ensures forall k :: 0 <= k < i ==> r[k] == ts[k]
    ensures forall k :: i <= k < |r| ==> r[k] == ts[k + 1]
  {
    ts[..i] + ts[i + 1..]
  }

  /** GET /tasks/:id. */
  function GetById(ts: seq<Task>, id: int): (r: Outcome<Task>)
    ensures r.NotFound? <==> !HasId(ts, id)
    ensures r.NotFound? ==> r.message == TaskNotFound
    ensures r.Ok? ==> r.value == ts[FindIndex(ts, id)]
    ensures !r.BadRequest?
  {
    FindAgreesWithFindIndex(ts, id);
    match Find(ts, id)
    case Some(t) => Ok(t)
    case None => NotFound(TaskNotFound)
  }

  /** POST /tasks. */
  function Create(ts: seq<Task>, b: Body): (r: Step<Task>)
    ensures r.outcome.Ok? <==> !MissingFields(b)
    ensures !r.outcome.Ok? ==> r.outcome == BadRequest(MissingRequiredFields) && r.tasks == ts
    ensures r.outcome.Ok? ==> r.tasks == ts + [r.outcome.value]
    ensures r.outcome.Ok? ==> r.outcome.value.id == NextId(ts)
    ensures r.outcome.Ok? ==> forall i :: 0 <= i < |ts| ==> ts[i].id < r.outcome.value.id
    ensures r.outcome.Ok? ==>
      && r.outcome.value.title == b.title
      && r.outcome.value.description == b.description
      && r.outcome.value.completed == b.completed
  {
    if MissingFields(b) then Step(BadRequest(MissingRequiredFields), ts)
    else
      var t := Task(NextId(ts), b.title, b.description, b.completed);
      Step(Ok(t), ts + [t])
  }

  /** PUT /tasks/:id. The existence check comes before the type check, and
      `title` and `description` are stored without any check. */
  function Update(ts: seq<Task>, id: int, b: Body): (r: Step<Task>)
    ensures r.outcome.NotFound? <==> !HasId(ts, id)
    ensures r.outcome.NotFound? ==> r.outcome.message == TaskNotFound
    ensures r.outcome.BadRequest? <==> HasId(ts, id) && !IsBoolean(b.completed)
    ensures r.outcome.BadRequest? ==> r.outcome.message == InvalidDataTypes
    ensures !r.outcome.Ok? ==> r.tasks == ts
    ensures r.outcome.Ok? ==>
      var i := FindIndex(ts, id);
      && |r.tasks| == |ts|
      && r.tasks[i] == r.outcome.value
      && (forall k :: 0 <= k < |ts| && k != i ==> r.tasks[k] == ts[k])
      && r.outcome.value == Task(ts[i].id, b.title, b.description, b.completed)
  {
    var i := FindIndex(ts, id);
    if i == -1 then Step(NotFound(TaskNotFound), ts)
    else if !IsBoolean(b.completed) then Step(BadRequest(InvalidDataTypes), ts)
    else
      var t := Task(id, b.title, b.description, b.completed);
      Step(Ok(t), ts[i := t])
  }

  /** DELETE /tasks/:id. */
  function Delete(ts: seq<Task>, id: int): (r: Step<string>)
    ensures r.outcome.NotFound? <==> !HasId(ts, id)
    ensures !r.outcome.BadRequest?
    ensures r.outcome.NotFound? ==> r.outcome.message == TaskNotFound && r.tasks == ts
    ensures r.outcome.Ok? ==>
      && r.outcome.value == TaskDeleted
      && r.tasks == RemoveAt(ts, FindIndex(ts, id))
  {
    var i := FindIndex(ts, id);
    if i == -1 then Step(NotFound(TaskNotFound), ts)
    else Step(Ok(TaskDeleted), RemoveAt(ts, i))
  }

  // ---------------------------------------------------------------------
  // Lemmas

  /** `find` and `findIndex` agree: `find` yields the task at the first
      matching position. */
  lemma {:induction false} FindAgreesWithFindIndex(ts: seq<Task>, id: int)
    ensures Find(ts, id) == if FindIndex(ts, id) == -1 then None else Some(ts[FindIndex(ts, id)])
  {
    if |ts| > 0 && ts[0].id != id {
      FindAgreesWithFindIndex(ts[1..], id);
    }
  }

  /** Under unique identifiers, the position findIndex returns is the only
      one holding that identifier. */
  lemma FindIndexIsOnlyMatch(ts: seq<Task>, id: int, k: int)
    requires UniqueIds(ts)
    requires 0 <= k < |ts| && ts[k].id == id
    ensures FindIndex(ts, id) == k
  {
  }

  /** A successful create keeps identifiers unique and, when they were all
      positive, keeps them positive. */
  lemma CreatePreservesIds(ts: seq<Task>, b: Body)
    ensures UniqueIds(ts) ==> UniqueIds(Create(ts, b).tasks)
    ensures PositiveIds(ts) ==> PositiveIds(Create(ts, b).tasks)
  {
    var r := Create(ts, b);
    if r.outcome.Ok? && PositiveIds(ts) {
      var t := r.outcome.value;
      assert t.id == NextId(ts);
      if |ts| > 0 {
        var w :| 0 <= w < |ts| && ts[w].id == t.id - 1;
      }
      assert t.id > 0;
    }
  }

  /** An update keeps identifiers unique and positive: the replaced element
      keeps its identifier. */
  lemma UpdatePreservesIds(ts: seq<Task>, id: int, b: Body)
    ensures UniqueIds(ts) ==> UniqueIds(Update(ts, id, b).tasks)
    ensures PositiveIds(ts) ==> PositiveIds(Update(ts, id, b).tasks)
  {
    var r := Update(ts, id, b);
    if r.outcome.Ok? {
      var i := FindIndex(ts, id);
      assert forall k :: 0 <= k < |ts| ==> r.tasks[k].id == ts[k].id;
    }
  }

  /** A successful delete keeps identifiers unique and positive, and under
      unique identifiers no survivor carries the deleted identifier. */
  lemma DeletePreservesIds(ts: seq<Task>, id: int)
    ensures UniqueIds(ts) ==> UniqueIds(Delete(ts, id).tasks)
    ensures PositiveIds(ts) ==> PositiveIds(Delete(ts, id).tasks)
    ensures UniqueIds(ts) && Delete(ts, id).outcome.Ok? ==> !HasId(Delete(ts, id).tasks, id)
  {
    var r := Delete(ts, id);
    if r.outcome.Ok? {
      var i := FindIndex(ts, id);
      var s := r.tasks;
      assert forall k :: 0 <= k < |s| ==> s[k] == ts[if k < i then k else k + 1];
      if UniqueIds(ts) {
        forall p, q | 0 <= p < q < |s| ensures s[p].id != s[q].id {
          var p', q' := (if p < i then p else p + 1), (if q < i then q else q + 1);
          assert s[p] == ts[p'] && s[q] == ts[q'] && p' < q';
        }
        forall k | 0 <= k < |s| ensures s[k].id != id {
          var k' := if k < i then k else k + 1;
          assert s[k] == ts[k'] && k' != i;
        }
      }
    }
  }

  /** A successful delete drops exactly the first task with the identifier
      and keeps the order of the survivors: what is left is the collection
      before that position followed by the collection after it. */
  lemma DeleteKeepsOrder(ts: seq<Task>, id: int)
    requires Delete(ts, id).outcome.Ok?
    ensures |Delete(ts, id).tasks| == |ts| - 1
    ensures exists i :: 0 <= i < |ts| && ts[i].id == id && (forall j :: 0 <= j < i ==> ts[j].id != id)
                        && Delete(ts, id).tasks == ts[..i] + ts[i + 1..]
  {
    var i := FindIndex(ts, id);
    assert RemoveAt(ts, i) == ts[..i] + ts[i + 1..];
  }

  /** A create, update or delete that is rejected (400 or 404) leaves the
      collection as it is. */
  lemma RejectedRequestsChangeNothing(ts: seq<Task>, id: int, b: Body)
    ensures !Create(ts, b).outcome.Ok? ==> Create(ts, b).tasks == ts
    ensures !Update(ts, id, b).outcome.Ok? ==> Update(ts, id, b).tasks == ts
    ensures !Delete(ts, id).outcome.Ok? ==> Delete(ts, id).tasks == ts
  {
  }

  /** The identifier policy is "largest present plus one", not a counter:
      deleting the task a create has just added restores the collection, and
      creating again hands out the same identifier a second time. */
  lemma {:induction false} DeleteUndoesCreate(ts: seq<Task>, b: Body)
    requires Create(ts, b).outcome.Ok?
    ensures Delete(Create(ts, b).tasks, Create(ts, b).outcome.value.id).outcome.Ok?
    ensures Delete(Create(ts, b).tasks, Create(ts, b).outcome.value.id).tasks == ts
    ensures Create(Delete(Create(ts, b).tasks, Create(ts, b).outcome.value.id).tasks, b).outcome.value.id
            == Create(ts, b).outcome.value.id
  {
    var s1 := Create(ts, b).tasks;
    var id := Create(ts, b).outcome.value.id;
    assert s1[|ts|].id == id;
    assert forall k :: 0 <= k < |ts| ==> s1[k].id != id;
    assert FindIndex(s1, id) == |ts|;
    assert RemoveAt(s1, |ts|) == ts;
  }
}
