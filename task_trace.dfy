/** Sequences of requests against the collection, as the service processes
    them one after another, and what the handlers keep true across them. */
module TaskTrace {
  import opened TaskModel

  /** One request to one of the five routes. */
  datatype Request =
    | ListTasks
    | GetTask(id: int)
    | CreateTask(body: Body)
    | UpdateTask(id: int, body: Body)
    | DeleteTask(id: int)

  /** The collection after the route's handler has run. */
  function After(ts: seq<Task>, q: Request): (r: seq<Task>) {
    match q
    case ListTasks => ts
    case GetTask(_) => ts
    case CreateTask(b) => Create(ts, b).tasks
    case UpdateTask(id, b) => Update(ts, id, b).tasks
    case DeleteTask(id) => Delete(ts, id).tasks
  }

  /** The collection after every request has run, in order. */
  function Run(ts: seq<Task>, qs: seq<Request>): (r: seq<Task>)
    decreases |qs|
  {
    if qs == [] then ts else Run(After(ts, qs[0]), qs[1..])
  }

  /** The identifiers handed out by the successful creates of a run, in order. */
  function CreatedIds(ts: seq<Task>, qs: seq<Request>): (r: seq<int>)
    decreases |qs|
  {
    if qs == [] then []
    else
      var q := qs[0];
      var head := if q.CreateTask? && Create(ts, q.body).outcome.Ok?
                  then [Create(ts, q.body).outcome.value.id] else [];
      head + CreatedIds(After(ts, q), qs[1..])
  }

  predicate NoDeletes(qs: seq<Request>) {
    forall k :: 0 <= k < |qs| ==> !qs[k].DeleteTask?
  }

  predicate StrictlyIncreasing(s: seq<int>) {
    forall i, j :: 0 <= i < j < |s| ==> s[i] < s[j]
  }

  /** Unique and positive identifiers, once true of the seed, hold after any
      sequence of requests. */
  lemma {:induction false} RunPreservesIds(ts: seq<Task>, qs: seq<Request>)
    ensures UniqueIds(ts) ==> UniqueIds(Run(ts, qs))
    ensures PositiveIds(ts) ==> PositiveIds(Run(ts, qs))
    decreases |qs|
  {
    if qs != [] {
      RunPreservesIds(After(ts, qs[0]), qs[1..]);
      match qs[0]
      case ListTasks =>
      case GetTask(_) =>
      case CreateTask(b) => CreatePreservesIds(ts, b);
      case UpdateTask(id, b) => UpdatePreservesIds(ts, id, b);
      case DeleteTask(id) => DeletePreservesIds(ts, id);
    }
  }

  /** Every request other than a delete keeps each existing task's position
      and identifier, and never shortens the collection. */
  lemma KeepsIdsUnlessDelete(ts: seq<Task>, q: Request)
    requires !q.DeleteTask?
    ensures |After(ts, q)| >= |ts|
    ensures forall i :: 0 <= i < |ts| ==> After(ts, q)[i].id == ts[i].id
  {
  }

  /** Putting a smaller value in front of a strictly increasing sequence
      keeps it strictly increasing. */
  lemma ConsIncreasing(x: int, s: seq<int>)
    requires StrictlyIncreasing(s)
    requires forall k :: 0 <= k < |s| ==> x < s[k]
    ensures StrictlyIncreasing([x] + s)
  {
    var c := [x] + s;
    forall i, j | 0 <= i < j < |c| ensures c[i] < c[j] {
      assert c[j] == s[j - 1];
      if i > 0 {
        assert c[i] == s[i - 1];
      }
    }
  }

  /** Without deletes, the creates of a run hand out strictly increasing
      identifiers, each larger than every identifier of the starting
      collection. */
  lemma {:induction false} CreatedIdsIncrease(ts: seq<Task>, qs: seq<Request>)
    requires NoDeletes(qs)
    ensures StrictlyIncreasing(CreatedIds(ts, qs))
    ensures forall k, i :: 0 <= k < |CreatedIds(ts, qs)| && 0 <= i < |ts| ==> ts[i].id < CreatedIds(ts, qs)[k]
    decreases |qs|
  {
    if qs != [] {
      var q := qs[0];
      var ts' := After(ts, q);
      assert NoDeletes(qs[1..]) by {
        forall k | 0 <= k < |qs[1..]| ensures !qs[1..][k].DeleteTask? {
          assert qs[1..][k] == qs[k + 1];
        }
      }
      CreatedIdsIncrease(ts', qs[1..]);
      KeepsIdsUnlessDelete(ts, q);
      var tail := CreatedIds(ts', qs[1..]);
      assert forall k, i :: 0 <= k < |tail| && 0 <= i < |ts| ==> ts[i].id < tail[k];
      if q.CreateTask? && Create(ts, q.body).outcome.Ok? {
        var id := Create(ts, q.body).outcome.value.id;
        assert CreatedIds(ts, qs) == [id] + tail;
        assert ts'[|ts|].id == id;
        ConsIncreasing(id, tail);
      } else {
        assert CreatedIds(ts, qs) == tail;
      }
    }
  }
}
