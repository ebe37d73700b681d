/** The route parameters the two screens pass each other through
    `navigation.navigate`; they are the only channel between them. */
module Navigation {
  import opened Tasks

  /** What TodoPage reads from `route.params`: nothing, or a task reopened on
      the Completed screen together with that screen's new list. */
  datatype TodoParams =
    | NoParams
    | Reopened(incompleteTask: Task, updatedCompletedTasks: seq<Task>)

  /** What TodoPage hands the Completed screen: `{ completedTasks }`. */
  datatype CompletedParams = CompletedParams(completedTasks: seq<Task>)

}
