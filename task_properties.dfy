/** What the task handlers guarantee about ownership, about what changes and
    what stays, and how one request's effect shows in the next. */
module TaskProperties {
  import opened Models
  import opened Http
  import opened Tasks

  /** A missing id and an id owned by someone else give the same 404 on
      get, update and delete, and neither changes the table. */
  lemma NotFoundIndistinguishable(tasks: map<int, Task>, caller: int, missing: int, foreign: int,
                                  p: TaskPatch, q: TaskPatch)
    requires missing !in tasks
    requires foreign in tasks && tasks[foreign].userId != caller
    ensures GetTask(tasks, caller, missing) == GetTask(tasks, caller, foreign) == NotFound
    ensures UpdateStep(tasks, caller, missing, p) == UpdateStep(tasks, caller, foreign, q) == Change(NotFound, tasks)
    ensures DeleteStep(tasks, caller, missing) == DeleteStep(tasks, caller, foreign) == Change(NotFound, tasks)
  {
  }

  /** A task of `owner` is invisible and untouchable for every other user:
      absent from their list, 404 on get, and update and delete leave it be. */
  lemma OwnersIsolated(tasks: map<int, Task>, nextId: int, owner: int, other: int, id: int, patch: TaskPatch)
    requires IdsBelow(tasks, nextId)
    requires owner != other && Owns(tasks, owner, id)
    ensures forall v :: v in GetTasks(tasks, nextId, other).body.tasks ==> v.id != id
    ensures GetTask(tasks, other, id) == NotFound
    ensures UpdateStep(tasks, other, id, patch).tasks == tasks
    ensures DeleteStep(tasks, other, id).tasks == tasks
  {
    var listed := GetTasks(tasks, nextId, other).body.tasks;
    forall v | v in listed ensures v.id != id {
      var k :| Owns(tasks, other, k) && v == View(k, tasks[k]);
    }
  }

  /** Update is a partial merge: the matched task keeps every field the patch
      leaves out and its owner, and every other entry is unchanged. */
  lemma UpdateIsPartialMerge(tasks: map<int, Task>, caller: int, id: int, patch: TaskPatch)
    requires Owns(tasks, caller, id)
    ensures var after := UpdateStep(tasks, caller, id, patch).tasks;
            && after.Keys == tasks.Keys
            && (forall k :: k in tasks && k != id ==> after[k] == tasks[k])
            && after[id].userId == tasks[id].userId == caller
            && (patch.title.None? ==> after[id].title == tasks[id].title)
            && (patch.description.None? ==> after[id].description == tasks[id].description)
            && (patch.completed.None? ==> after[id].completed == tasks[id].completed)
  {
  }

  /** An update to an empty title answers 400, yet the merged record, empty
      title included, is already in the table. */
  lemma EmptyTitleUpdateIsCommitted(tasks: map<int, Task>, caller: int, id: int, patch: TaskPatch)
    requires Owns(tasks, caller, id) && patch.title == Some("")
    ensures var r := UpdateStep(tasks, caller, id, patch);
            && r.resp.Reply? && r.resp.status == 400
            && r.tasks == tasks[id := Merge(tasks[id], patch)]
            && r.tasks[id].title == ""
  {
  }

  /** No stored task has an empty title. */
  ghost predicate NoEmptyTitles(tasks: map<int, Task>)
  {
    forall id :: id in tasks ==> tasks[id].title != ""
  }

  /** Update does not keep NoEmptyTitles: the failing-update request from the
      test suite, applied to a table without empty titles, stores one. */
  lemma UpdateBreaksNoEmptyTitles()
    ensures var tasks := map[1 := Task("Task", Some("Task description"), false, 1)];
            var patch := TaskPatch(Some(""), Some(Some("This update should fail")), Some(true));
            var r := UpdateStep(tasks, 1, 1, patch);
            NoEmptyTitles(tasks) && r.resp.Reply? && r.resp.status == 400 && !NoEmptyTitles(r.tasks)
  {
    var tasks := map[1 := Task("Task", Some("Task description"), false, 1)];
    var patch := TaskPatch(Some(""), Some(Some("This update should fail")), Some(true));
    assert UpdateStep(tasks, 1, 1, patch).tasks[1].title == "";
  }

  /** Create with a non-empty title adds exactly one task, under the next id,
      owned by the caller, and changes no existing task; any other request
      adds nothing. */
  lemma CreateAddsExactlyOne(tasks: map<int, Task>, nextId: int, caller: int, req: NewTask)
    requires IdsBelow(tasks, nextId)
    ensures var after := CreateStep(tasks, nextId, caller, req).tasks;
            && (forall k :: k in tasks ==> k in after && after[k] == tasks[k])
            && (Accepted(req) ==>
                  && nextId !in tasks
                  && after.Keys == tasks.Keys + {nextId}
                  && |after| == |tasks| + 1
                  && after[nextId].userId == caller
                  && after[nextId].title == req.title.value
                  && after[nextId].description == req.description
                  && (req.completed.None? ==> !after[nextId].completed))
            && (!Accepted(req) ==> after == tasks)
  {
  }

  /** The task a create stores can be read back by its owner, as created,
      appears in the owner's list, and stays hidden from everybody else. */
  lemma CreateThenGet(tasks: map<int, Task>, nextId: int, caller: int, other: int, req: NewTask)
    requires 1 <= nextId && IdsBelow(tasks, nextId) && Accepted(req) && other != caller
    ensures var after := CreateStep(tasks, nextId, caller, req).tasks;
            var view := TaskView(nextId, req.title.value, req.description, req.completed.GetOr(false));
            && GetTask(after, caller, nextId) == Reply(200, TaskJson(view))
            && view in GetTasks(after, nextId + 1, caller).body.tasks
            && GetTask(after, other, nextId) == NotFound
  {
  }

  /** After a delete of one's own task, getting it again gives 404, and every
      other task reads as before. */
  lemma DeleteThenGet(tasks: map<int, Task>, caller: int, id: int)
    requires Owns(tasks, caller, id)
    ensures var after := DeleteStep(tasks, caller, id).tasks;
            && GetTask(after, caller, id) == NotFound
            && forall user, k :: k != id ==> GetTask(after, user, k) == GetTask(tasks, user, k)
  {
  }
}
