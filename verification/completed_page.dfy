/** The Completed screen: its own list of completed tasks, the two
    server-gated handlers (refresh and delete), the local edit, and
    `markIncomplete`, which hands a task back to TodoPage. */
module CompletedPage {
  import opened Optional
  import opened JsText
  import opened Tasks
  import opened Server
  import opened Navigation

  /** The JSON body of the completed-tasks listing. */
  datatype ListBody = ListBody(success: bool, completedTasks: seq<Task>)

  /** The JSON body of the delete call. */
  datatype DeleteBody = DeleteBody(success: bool)

  /** What the screen tells the user: nothing, the delete confirmation, the
      server's own error, or the "could not connect" error of the `catch`
      block, which also covers a non-JSON or unparseable reply. */
  datatype Notice = NoNotice | DeletedNotice | ServerErrorNotice | ConnectionErrorNotice

  datatype Outcome = Outcome(completedTasks: seq<Task>, notice: Notice)

  /** `fetchCompletedTasks` once the request has settled. Only a JSON reply
      with `success` set changes the list, and then it is replaced wholesale
      by the server's list, in the server's order; every other outcome keeps
      the list as it was. */
  function FetchCompletedTasks(list: seq<Task>, response: Response<ListBody>): (r: Outcome)
    ensures r.notice == NoNotice <==> Decode(response).Parsed? && Decode(response).value.success
    ensures r.notice == NoNotice ==> r.completedTasks == response.body.value.completedTasks
    ensures r.notice != NoNotice ==> r.completedTasks == list
    ensures r.notice == ServerErrorNotice <==> Decode(response).Parsed? && !Decode(response).value.success
    ensures Decode(response).Failed? <==> r.notice == ConnectionErrorNotice
  {
    match Decode(response)
    case Failed(_) => Outcome(list, ConnectionErrorNotice)
    case Parsed(data) =>
      if data.success then Outcome(data.completedTasks, NoNotice)
      else Outcome(list, ServerErrorNotice)
  }

  /** `updateTask`: a blank title changes nothing; otherwise the tasks with
      the selected id get the new title and description, in place. */
  function UpdateTask(list: seq<Task>, selectedId: TaskId, title: string, description: string): (r: seq<Task>)
    ensures IsBlank(title) ==> r == list
    ensures !IsBlank(title) ==> Rewrites(list, r, selectedId, title, description)
    ensures Ids(r) == Ids(list)
  {
    if IsBlank(title) then list else Edit(list, selectedId, title, description)
  }

  /** `deleteTask` once the request has settled. The list changes only on a
      JSON reply with `success` set, and then exactly the tasks with the id
      are gone, the others staying in order; on any other outcome the list,
      and so the task, stays as it was. */
  function DeleteTask(list: seq<Task>, taskId: TaskId, response: Response<DeleteBody>): (r: Outcome)
    ensures r.notice == DeletedNotice <==> Decode(response).Parsed? && Decode(response).value.success
    ensures r.notice == DeletedNotice ==> r.completedTasks == Remove(list, taskId) && taskId !in Ids(r.completedTasks)
    ensures r.notice != DeletedNotice ==> r.completedTasks == list
    ensures r.notice == ServerErrorNotice <==> Decode(response).Parsed? && !Decode(response).value.success
    ensures Decode(response).Failed? <==> r.notice == ConnectionErrorNotice
  {
    match Decode(response)
    case Failed(_) => Outcome(list, ConnectionErrorNotice)
    case Parsed(result) =>
      if result.success then Outcome(Remove(list, taskId), DeletedNotice)
      else Outcome(list, ServerErrorNotice)
  }

  /** The result of `markIncomplete`: the screen's new list and the route
      params sent to TodoPage. */
  datatype Reopening = Reopening(completedTasks: seq<Task>, relay: TodoParams)

  /** `markIncomplete(task)`: every entry with the task's id leaves the list,
      the others keeping their order, and TodoPage receives the same task
      with only its completion flag cleared, together with the new list.
      The task need not be in the list, and the server is not told. */
  function MarkIncomplete(list: seq<Task>, task: Task): (r: Reopening)
    ensures r.completedTasks == Remove(list, task.id)
    ensures task.id !in Ids(r.completedTasks)
    ensures r.relay.Reopened?
    ensures r.relay.incompleteTask == Task(task.id, task.title, task.description, false)
    ensures r.relay.updatedCompletedTasks == r.completedTasks
  {
    var updated := Remove(list, task.id);
    Reopening(updated, Reopened(task.(completed := false), updated))
  }

  /** Refreshing twice with the same reply is refreshing once. */
  lemma FetchIdempotent(list: seq<Task>, response: Response<ListBody>)
    ensures var once := FetchCompletedTasks(list, response);
            FetchCompletedTasks(once.completedTasks, response) == once
  {
  }

  /** A reply that is not declared as JSON, such as an HTML error page, never
      reaches the parser and never changes the list; the user sees the same
      error as for a lost connection. */
  lemma NonJsonReplyKeepsList(list: seq<Task>, contentType: Option<string>, body: Option<ListBody>)
    requires !IsJsonContentType(contentType)
    ensures FetchCompletedTasks(list, Reply(contentType, body)) == Outcome(list, ConnectionErrorNotice)
  {
  }

  /** Applying the same successful delete twice equals applying it once. */
  lemma DeleteIdempotent(list: seq<Task>, taskId: TaskId, response: Response<DeleteBody>)
    ensures var once := DeleteTask(list, taskId, response);
            DeleteTask(once.completedTasks, taskId, response) == once
  {
    RemoveIdempotent(list, taskId);
  }

  /** A delete that does not succeed on the server leaves the task on screen. */
  lemma FailedDeleteKeepsTask(list: seq<Task>, taskId: TaskId, response: Response<DeleteBody>)
    requires taskId in Ids(list)
    requires !(Decode(response).Parsed? && Decode(response).value.success)
    ensures taskId in Ids(DeleteTask(list, taskId, response).completedTasks)
  {
  }

}
