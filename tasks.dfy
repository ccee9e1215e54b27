/** The task registry: list, get, create, update and delete, each restricted
    to the tasks owned by the identity the access token carries (`caller`). */
module Tasks {
  import opened Models
  import opened Http

  /** The JSON rendering of the task stored under `id`. */
  function View(id: int, t: Task): (v: TaskView)
    ensures v.id == id && v.title == t.title
    ensures v.description == t.description && v.completed == t.completed
  {
    TaskView(id, t.title, t.description, t.completed)
  }

  const NotFound := Reply(404, Message("Task not found"))
  const Deleted := Reply(200, Message("Task deleted"))

  /** The task `id` belongs to `owner`. */
  predicate Owns(tasks: map<int, Task>, owner: int, id: int)
  {
    id in tasks && tasks[id].userId == owner
  }

  /** `Task.query.filter_by(id=id, user_id=owner).first()`: the owner-scoped
      lookup shared by get, update and delete. */
  function FindOwned(tasks: map<int, Task>, id: int, owner: int): (r: Option<Task>)
    ensures r.Some? <==> Owns(tasks, owner, id)
    ensures r.Some? ==> r.value == tasks[id]
  {
    if id in tasks && tasks[id].userId == owner then Some(tasks[id]) else None
  }

  /** The views of the tasks of `owner` whose ids lie in [lo, hi), in id order. */
  function OwnedViews(tasks: map<int, Task>, owner: int, lo: int, hi: int): (r: seq<TaskView>)
    // every view renders a task of `owner` within the range
    ensures forall k :: 0 <= k < |r| ==>
              lo <= r[k].id < hi && Owns(tasks, owner, r[k].id) && r[k] == View(r[k].id, tasks[r[k].id])
    // every task of `owner` within the range is rendered
    ensures forall id :: lo <= id < hi && Owns(tasks, owner, id) ==> View(id, tasks[id]) in r
    // in increasing id order, so none twice
    ensures forall i, j :: 0 <= i < j < |r| ==> r[i].id < r[j].id
    decreases hi - lo
  {
    if lo >= hi then []
    else (if Owns(tasks, owner, lo) then [View(lo, tasks[lo])] else []) + OwnedViews(tasks, owner, lo + 1, hi)
  }

  /** The GET /tasks handler: `Task.query.filter_by(user_id=caller).all()`,
      projected to task views, over a table whose ids lie below `nextId`. */
  function GetTasks(tasks: map<int, Task>, nextId: int, caller: int): (r: Response)
    requires IdsBelow(tasks, nextId)
    ensures r.Reply? && r.status == 200 && r.body.TaskListJson?
    ensures forall v :: v in r.body.tasks <==> exists id :: Owns(tasks, caller, id) && v == View(id, tasks[id])
    ensures forall i, j :: 0 <= i < j < |r.body.tasks| ==> r.body.tasks[i].id != r.body.tasks[j].id
  {
    var views := OwnedViews(tasks, caller, 1, nextId);
    assert forall v :: v in views ==> Owns(tasks, caller, v.id) && v == View(v.id, tasks[v.id]) by {
      forall v | v in views ensures Owns(tasks, caller, v.id) && v == View(v.id, tasks[v.id]) {
        var k :| 0 <= k < |views| && views[k] == v;
      }
    }
    Reply(200, TaskListJson(views))
  }

  /** The GET /tasks/<id> handler. */
  function GetTask(tasks: map<int, Task>, caller: int, id: int): (r: Response)
    ensures r.Reply? && (r.status == 200 <==> Owns(tasks, caller, id))
    ensures Owns(tasks, caller, id) ==> r.body == TaskJson(View(id, tasks[id]))
    // a missing task and a task of another user look the same
    ensures !Owns(tasks, caller, id) ==> r == NotFound
  {
    match FindOwned(tasks, id, caller)
    case None => NotFound
    case Some(t) => Reply(200, TaskJson(View(id, t)))
  }

  /** The JSON body of a create request; a key may be absent. */
  datatype NewTask = NewTask(title: Option<string>, description: Option<string>, completed: Option<bool>)

  /** The task table after a request, and the response. */
  datatype Change = Change(resp: Response, tasks: map<int, Task>)

  /** The create request has a non-empty title, so the new task is stored. */
  predicate Accepted(req: NewTask)
  {
    req.title.Some? && req.title.value != ""
  }

  /** The record create builds for `caller`: the request's title and
      description, and completed false unless the request gives it. */
  function NewRecord(req: NewTask, caller: int): (t: Task)
    requires req.title.Some?
    ensures t.title == req.title.value && t.userId == caller
    ensures t.description == req.description
    ensures req.completed.None? ==> !t.completed
    ensures req.completed.Some? ==> t.completed == req.completed.value
  {
    Task(req.title.value, req.description, req.completed.GetOr(false), caller)
  }

  /** What the POST /tasks handler does to the task table whose next id is
      `nextId`. No path returns a response: a missing title raises, an empty
      title raises on an unbound name before anything is stored, and a stored
      task is followed by falling off the end of the handler. */
  function CreateStep(tasks: map<int, Task>, nextId: int, caller: int, req: NewTask): (r: Change)
    ensures r.resp.Crash?
    ensures !Accepted(req) ==> r.tasks == tasks
    ensures Accepted(req) ==> r.tasks == tasks[nextId := NewRecord(req, caller)]
  {
    if req.title.None? then Change(Crash(MissingKey("title")), tasks)
    else if req.title.value == "" then Change(Crash(UndefinedName("task")), tasks)
    else Change(Crash(NoReturnValue), tasks[nextId := NewRecord(req, caller)])
  }

  /** The POST /tasks handler. */
  method CreateTask(db: Db, caller: int, req: NewTask) returns (resp: Response)
    requires db.Valid()
    modifies db
    ensures db.Valid()
    ensures var r := CreateStep(old(db.tasks), old(db.nextTaskId), caller, req);
            resp == r.resp && db.tasks == r.tasks
    ensures db.nextTaskId == old(db.nextTaskId) + (if Accepted(req) then 1 else 0)
    ensures db.users == old(db.users) && db.nextUserId == old(db.nextUserId)
  {
    if req.title.None? {
      return Crash(MissingKey("title"));
    }
    var newTask := NewRecord(req, caller);
    if req.title.value == "" {
      return Crash(UndefinedName("task"));
    }
    var id := db.nextTaskId;
    db.tasks := db.tasks[id := newTask];
    db.nextTaskId := id + 1;
    resp := Crash(NoReturnValue);
  }

  /** The JSON body of an update request: each key may be absent; a present
      description may be null. */
  datatype TaskPatch = TaskPatch(title: Option<string>, description: Option<Option<string>>, completed: Option<bool>)

  /** `task.f = data.get('f', task.f)` for each of the three fields. */
  function Merge(t: Task, patch: TaskPatch): (m: Task)
    ensures patch.title.None? ==> m.title == t.title
    ensures patch.title.Some? ==> m.title == patch.title.value
    ensures patch.description.None? ==> m.description == t.description
    ensures patch.description.Some? ==> m.description == patch.description.value
    ensures patch.completed.None? ==> m.completed == t.completed
    ensures patch.completed.Some? ==> m.completed == patch.completed.value
    ensures m.userId == t.userId
  {
    t.(title := patch.title.GetOr(t.title),
       description := patch.description.GetOr(t.description),
       completed := patch.completed.GetOr(t.completed))
  }

  /** What the PUT /tasks/<id> handler does to the task table. Note that the
      merged record is committed before the title is examined. */
  function UpdateStep(tasks: map<int, Task>, caller: int, id: int, patch: TaskPatch): (r: Change)
    ensures !Owns(tasks, caller, id) ==> r == Change(NotFound, tasks)
    ensures Owns(tasks, caller, id) ==>
              var m := Merge(tasks[id], patch);
              && r.tasks == tasks[id := m]
              && r.resp == Reply(if m.title == "" then 400 else 200, TaskJson(View(id, m)))
  {
    match FindOwned(tasks, id, caller)
    case None => Change(NotFound, tasks)
    case Some(t) =>
      var m := Merge(t, patch);
      Change(Reply(if m.title == "" then 400 else 200, TaskJson(View(id, m))), tasks[id := m])
  }

  /** The PUT /tasks/<id> handler. The row is a value here: the three field
      assignments update a local copy, and the commit writes it back. */
  method UpdateTask(db: Db, caller: int, id: int, patch: TaskPatch) returns (resp: Response)
    requires db.Valid()
    modifies db
    ensures db.Valid()
    ensures var r := UpdateStep(old(db.tasks), caller, id, patch);
            resp == r.resp && db.tasks == r.tasks
    ensures db.nextTaskId == old(db.nextTaskId)
    ensures db.users == old(db.users) && db.nextUserId == old(db.nextUserId)
  {
    var found := FindOwned(db.tasks, id, caller);
    if found.None? {
      return NotFound;
    }
    var task := found.value;
    task := task.(title := patch.title.GetOr(task.title));
    task := task.(description := patch.description.GetOr(task.description));
    task := task.(completed := patch.completed.GetOr(task.completed));
    db.tasks := db.tasks[id := task];
    if task.title == "" {
      resp := Reply(400, TaskJson(View(id, task)));
    } else {
      resp := Reply(200, TaskJson(View(id, task)));
    }
  }

  /** What the DELETE /tasks/<id> handler does to the task table. */
  function DeleteStep(tasks: map<int, Task>, caller: int, id: int): (r: Change)
    ensures !Owns(tasks, caller, id) ==> r == Change(NotFound, tasks)
    ensures Owns(tasks, caller, id) ==> r.resp == Deleted
    // exactly the matched task goes, every other entry stays as it was
    ensures r.tasks.Keys == tasks.Keys - (if Owns(tasks, caller, id) then {id} else {})
    ensures forall k :: k in r.tasks ==> r.tasks[k] == tasks[k]
  {
    match FindOwned(tasks, id, caller)
    case None => Change(NotFound, tasks)
    case Some(_) => Change(Deleted, tasks - {id})
  }

  /** The DELETE /tasks/<id> handler. */
  method DeleteTask(db: Db, caller: int, id: int) returns (resp: Response)
    requires db.Valid()
    modifies db
    ensures db.Valid()
    ensures var r := DeleteStep(old(db.tasks), caller, id);
            resp == r.resp && db.tasks == r.tasks
    ensures db.nextTaskId == old(db.nextTaskId)
    ensures db.users == old(db.users) && db.nextUserId == old(db.nextUserId)
  {
    var found := FindOwned(db.tasks, id, caller);
    if found.None? {
      return NotFound;
    }
    db.tasks := db.tasks - {id};
    resp := Deleted;
  }
}
