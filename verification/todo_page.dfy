/** The TodoPage screen: the active task list, the screen's own copy of the
    completed list, and the handlers that change them. Every handler is a
    pure step from one screen state to the next. */
module TodoPage {
  import opened Optional
  import opened JsText
  import opened Tasks
  import opened Navigation

  /** The two `useState` lists of the screen. */
  datatype TodoState = TodoState(tasks: seq<Task>, completedTasks: seq<Task>)

  /** Each id is held at most once across the two lists. The code does not
      enforce this; the lemmas below say which handlers keep it. */
  predicate Consistent(s: TodoState) {
    Partitioned(s.tasks, s.completedTasks)
  }

  /** The effect on `route.params.incompleteTask`: a reopened task goes to the
      end of the active list and the relayed list replaces the completed copy
      wholesale; without such params nothing changes. */
  function ReceiveParams(s: TodoState, params: TodoParams): (r: TodoState)
    ensures params.NoParams? ==> r == s
    ensures params.Reopened? ==>
      && |r.tasks| == |s.tasks| + 1
      && r.tasks[..|s.tasks|] == s.tasks
      && r.tasks[|s.tasks|] == params.incompleteTask
      && r.completedTasks == params.updatedCompletedTasks
  {
    match params
    case NoParams => s
    case Reopened(task, updated) => TodoState(s.tasks + [task], updated)
  }

  /** `addTask`: a blank title changes nothing; otherwise exactly one new,
      not-yet-completed task with the typed (untrimmed) title and description
      is appended, and the tasks before it are untouched. */
  function AddTask(s: TodoState, newId: TaskId, title: string, description: string): (r: TodoState)
    ensures r == s <==> IsBlank(title)
    ensures r.completedTasks == s.completedTasks
    ensures !IsBlank(title) ==>
      && |r.tasks| == |s.tasks| + 1
      && r.tasks[..|s.tasks|] == s.tasks
      && r.tasks[|s.tasks|] == Task(newId, title, description, false)
  {
    if IsBlank(title) then s
    else s.(tasks := s.tasks + [Task(newId, title, description, false)])
  }

  /** `updateTask`: a blank title changes nothing; otherwise the tasks with
      the selected id get the new title and description, in place. */
  function UpdateTask(s: TodoState, selectedId: TaskId, title: string, description: string): (r: TodoState)
    ensures IsBlank(title) ==> r == s
    ensures !IsBlank(title) ==> Rewrites(s.tasks, r.tasks, selectedId, title, description)
    ensures Ids(r.tasks) == Ids(s.tasks)
    ensures r.completedTasks == s.completedTasks
  {
    if IsBlank(title) then s
    else s.(tasks := Edit(s.tasks, selectedId, title, description))
  }

  /** The result of `toggleComplete`: the new state, and the route params
      sent to the Completed screen if the handler navigated there. */
  datatype Completion = Completion(state: TodoState, relay: Option<CompletedParams>)

  /** `toggleComplete`: an unknown id changes nothing and sends nothing.
      A known id leaves the active list without any task of that id, appends
      the first task found with it, flagged completed, to the completed list,
      and sends the new completed list, exactly, to the Completed screen. */
  function ToggleComplete(s: TodoState, taskId: TaskId): (r: Completion)
    ensures taskId !in Ids(s.tasks) <==> r == Completion(s, None)
    ensures taskId in Ids(s.tasks) ==>
      && r.state.tasks == Remove(s.tasks, taskId)
      && |r.state.completedTasks| == |s.completedTasks| + 1
      && r.state.completedTasks[..|s.completedTasks|] == s.completedTasks
      && (exists i :: 0 <= i < |s.tasks| && s.tasks[i].id == taskId
                      && (forall j :: 0 <= j < i ==> s.tasks[j].id != taskId)
                      && r.state.completedTasks[|s.completedTasks|] == s.tasks[i].(completed := true))
      && r.relay == Some(CompletedParams(r.state.completedTasks))
  {
    match Find(s.tasks, taskId)
    case None => Completion(s, None)
    case Some(found) =>
      var updatedCompleted := s.completedTasks + [found.(completed := true)];
      Completion(TodoState(Remove(s.tasks, taskId), updatedCompleted), Some(CompletedParams(updatedCompleted)))
  }

  /** `deleteTask`: no task with the id is left, every other task stays, the
      completed copy is untouched, and the state changes exactly when the id
      was present. */
  function DeleteTask(s: TodoState, taskId: TaskId): (r: TodoState)
    ensures r.tasks == Remove(s.tasks, taskId)
    ensures taskId !in Ids(r.tasks)
    ensures forall t :: t in r.tasks <==> t in s.tasks && t.id != taskId
    ensures r.completedTasks == s.completedTasks
    ensures r == s <==> taskId !in Ids(s.tasks)
  {
    RemoveIsIdentityIffAbsent(s.tasks, taskId);
    s.(tasks := Remove(s.tasks, taskId))
  }

  /** Adding is refused exactly for titles made only of whitespace. */
  lemma AddTaskRefusesIffAllWhitespace(s: TodoState, newId: TaskId, title: string, description: string)
    ensures AddTask(s, newId, title, description) == s <==> AllWhitespace(title)
  {
  }

  /** Deleting a just-added task whose id was fresh restores the state. */
  lemma DeleteUndoesAdd(s: TodoState, newId: TaskId, title: string, description: string)
    requires newId !in Ids(s.tasks)
    ensures DeleteTask(AddTask(s, newId, title, description), newId) == s
  {
    if !IsBlank(title) {
      var t := Task(newId, title, description, false);
      RemoveAppend(s.tasks, [t], newId);
      RemoveIsIdentityIffAbsent(s.tasks, newId);
      assert Remove([t], newId) == [];
    }
  }

  /** Adding keeps each id in one place provided the new id is used nowhere. */
  lemma AddTaskKeepsConsistent(s: TodoState, newId: TaskId, title: string, description: string)
    requires Consistent(s)
    requires newId !in Ids(s.tasks) && newId !in Ids(s.completedTasks)
    ensures Consistent(AddTask(s, newId, title, description))
  {
    var r := AddTask(s, newId, title, description);
    if !IsBlank(title) {
      var t := Task(newId, title, description, false);
      UniqueSnoc(s.tasks, t);
      IdsAppend(s.tasks, [t]);
    }
  }

  lemma UpdateTaskKeepsConsistent(s: TodoState, selectedId: TaskId, title: string, description: string)
    requires Consistent(s)
    ensures Consistent(UpdateTask(s, selectedId, title, description))
  {
  }

  lemma DeleteTaskKeepsConsistent(s: TodoState, taskId: TaskId)
    requires Consistent(s)
    ensures Consistent(DeleteTask(s, taskId))
  {
    RemoveKeepsUniqueIds(s.tasks, taskId);
  }

  /** Completing keeps each id in one place: the task leaves the active list
      and lands, once, in the completed list. */
  lemma ToggleCompleteKeepsConsistent(s: TodoState, taskId: TaskId)
    requires Consistent(s)
    ensures Consistent(ToggleComplete(s, taskId).state)
  {
    if taskId in Ids(s.tasks) {
      var found := Find(s.tasks, taskId).value;
      var moved := found.(completed := true);
      RemoveKeepsUniqueIds(s.tasks, taskId);
      UniqueSnoc(s.completedTasks, moved);
      IdsAppend(s.completedTasks, [moved]);
    }
  }

  /** Deleting twice is deleting once. */
  lemma DeleteTaskIdempotent(s: TodoState, taskId: TaskId)
    ensures DeleteTask(DeleteTask(s, taskId), taskId) == DeleteTask(s, taskId)
  {
    RemoveIdempotent(s.tasks, taskId);
  }

  /** With unique ids, completing the task at position `i` closes the gap it
      leaves in the active list and puts it, flagged, at the end of the
      completed list. */
  lemma ToggleCompleteMovesOneTask(s: TodoState, i: nat)
    requires UniqueIds(s.tasks)
    requires i < |s.tasks|
    ensures ToggleComplete(s, s.tasks[i].id).state
         == TodoState(s.tasks[..i] + s.tasks[i + 1..],
                      s.completedTasks + [s.tasks[i].(completed := true)])
  {
    FindUnique(s.tasks, i);
    RemoveUnique(s.tasks, i);
  }

  /** Edit, then complete: the completed list receives the edited task, and
      the active list ends up as if the edit had never been made. */
  lemma EditThenComplete(s: TodoState, taskId: TaskId, title: string, description: string)
    requires taskId in Ids(s.tasks)
    requires !IsBlank(title)
    ensures var r := ToggleComplete(UpdateTask(s, taskId, title, description), taskId).state;
            && r.tasks == ToggleComplete(s, taskId).state.tasks
            && r.completedTasks == s.completedTasks
                 + [Find(s.tasks, taskId).value.(title := title, description := description, completed := true)]
  {
    FindAfterEdit(s.tasks, taskId, title, description);
    RemoveAfterEdit(s.tasks, taskId, title, description);
  }

  /** When two active tasks share an id, completing that id filters both out
      of the active list but moves only the first: one task is lost. */
  lemma CompletingSharedIdLosesTask(s: TodoState, i: nat, j: nat)
    requires i < j < |s.tasks|
    requires s.tasks[i].id == s.tasks[j].id
    ensures var r := ToggleComplete(s, s.tasks[i].id).state;
            |r.tasks| + |r.completedTasks| < |s.tasks| + |s.completedTasks|
  {
    var id := s.tasks[i].id;
    var a, b := s.tasks[..j], s.tasks[j..];
    assert s.tasks == a + b;
    assert Ids(a)[i] == id && Ids(b)[0] == id;
    RemoveAppend(a, b, id);
    RemoveShrinks(a, id);
    RemoveShrinks(b, id);
  }

}
