/** Properties of the two screens together: a task completed on TodoPage,
    reopened on the Completed screen and merged back into TodoPage. */
module Journeys {
  import opened Tasks
  import TodoPage
  import CompletedPage

  /** The TodoPage state after the Completed screen, showing `page`, reopens
      `picked` and TodoPage merges the relayed params into `s`. */
  function ReopenInto(s: TodoPage.TodoState, page: seq<Task>, picked: Task): TodoPage.TodoState {
    TodoPage.ReceiveParams(s, CompletedPage.MarkIncomplete(page, picked).relay)
  }

  /** Whatever list the Completed screen shows, reopening a task of it puts the
      task, flagged not completed, at the end of TodoPage's active list, and
      TodoPage's completed copy becomes that list without the task's id. */
  lemma ReopenAppendsToActive(s: TodoPage.TodoState, page: seq<Task>, picked: Task)
    ensures var r := ReopenInto(s, page, picked);
            && r.tasks == s.tasks + [picked.(completed := false)]
            && r.completedTasks == Remove(page, picked.id)
            && picked.id !in Ids(r.completedTasks)
  {
    var r := ReopenInto(s, page, picked);
    assert r.tasks == r.tasks[..|s.tasks|] + [r.tasks[|s.tasks|]];
  }

  /** Complete, then reopen on the Completed screen showing the relayed
      snapshot, then merge back. The moved task is the first one with the id,
      it ends up last in the active list with its completion flag cleared,
      the other active tasks keep their order, and no completed entry with
      that id survives. */
  lemma {:induction false} CompleteThenReopen(s: TodoPage.TodoState, taskId: TaskId)
    requires taskId in Ids(s.tasks)
    ensures var c := TodoPage.ToggleComplete(s, taskId);
            var page := c.relay.value.completedTasks;
            var r := ReopenInto(c.state, page, page[|page| - 1]);
            && r.tasks == Remove(s.tasks, taskId) + [Find(s.tasks, taskId).value.(completed := false)]
            && r.completedTasks == Remove(s.completedTasks, taskId)
            && taskId !in Ids(r.completedTasks)
  {
    var found := Find(s.tasks, taskId).value;
    var moved := found.(completed := true);
    var c := TodoPage.ToggleComplete(s, taskId);
    var page := c.relay.value.completedTasks;
    assert page == s.completedTasks + [moved];
    ReopenAppendsToActive(c.state, page, page[|page| - 1]);
    RemoveAppend(s.completedTasks, [moved], taskId);
    assert Remove([moved], taskId) == [];
  }

  /** The round trip from a consistent state, for a task that was not flagged
      completed: the state comes back except that the task has moved from
      its position to the end of the active list, and it is consistent. */
  lemma CompleteThenReopenRestores(s: TodoPage.TodoState, i: nat)
    requires TodoPage.Consistent(s)
    requires i < |s.tasks| && !s.tasks[i].completed
    ensures var t := s.tasks[i];
            var c := TodoPage.ToggleComplete(s, t.id);
            var page := c.relay.value.completedTasks;
            var r := ReopenInto(c.state, page, page[|page| - 1]);
            && r == TodoPage.TodoState(s.tasks[..i] + s.tasks[i + 1..] + [t], s.completedTasks)
            && TodoPage.Consistent(r)
  {
    var t := s.tasks[i];
    assert Ids(s.tasks)[i] == t.id;
    CompleteThenReopen(s, t.id);
    FindUnique(s.tasks, i);
    RemoveUnique(s.tasks, i);
    RemoveIsIdentityIffAbsent(s.completedTasks, t.id);
    var rest := s.tasks[..i] + s.tasks[i + 1..];
    assert t.(completed := false) == t;
    RemoveKeepsUniqueIds(s.tasks, t.id);
    UniqueSnoc(rest, t);
    IdsAppend(rest, [t]);
  }

  /** The Completed screen keeps no record of a reopen and the server is not
      told, so when it shows the same task again (after a fresh load from the
      server, which still lists it) and the user reopens it again, TodoPage
      holds two tasks with the same id. */
  lemma ReopenTwiceDuplicatesId(s: TodoPage.TodoState, page: seq<Task>, picked: Task)
    ensures var twice := ReopenInto(ReopenInto(s, page, picked), page, picked);
            !UniqueIds(twice.tasks)
  {
    var once := ReopenInto(s, page, picked);
    var twice := ReopenInto(once, page, picked);
    ReopenAppendsToActive(s, page, picked);
    ReopenAppendsToActive(once, page, picked);
    var n := |s.tasks|;
    assert twice.tasks[n] == twice.tasks[n + 1];
    assert Ids(twice.tasks)[n] == Ids(twice.tasks)[n + 1];
  }

}
