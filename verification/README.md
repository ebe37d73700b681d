# Task lists of the to-do client, in Dafny

This project models the task-list logic of the mobile to-do client's two
screens, TodoPage (the active list) and CompletedPage (the completed list),
and proves properties of it. A task is `{id, title, description, completed}`.
Each screen keeps its lists in React state. The model lifts every handler
into a pure function over `seq<Task>`:

- TodoPage: add a task behind the blank-title guard, edit by id, complete a
  task (moving it to the completed list and relaying that list to the
  Completed screen), delete by id, and merge a task reopened on the Completed
  screen.
- CompletedPage: refresh from the server, edit by id, server-gated delete,
  and mark a task incomplete (relaying it and the new list back to TodoPage).

The JavaScript primitives the handlers rely on are written out: `trim`
(ECMAScript WhiteSpace and LineTerminator code points), `includes` (the
content-type check) and the decimal `toString` of `Date.now()` (client ids).
Task ids compare as JavaScript's `===` does: a string id never equals a
numeric one.

Modules, leaf first: `Optional`, `JsText`, `Tasks` (the entity, plus
`filter`, `map` and `find` by id), `Navigation` (route params), `Server`
(response decoding), `TodoPage`, `CompletedPage`, and `Journeys` (the
cross-screen round trip).

The model follows the code as written. In particular:
- Completing and reopening a task never contact the server. Only the
  Completed screen's refresh and delete do.
- `markIncomplete` does not check that the task is in the list.
- A reply that is not declared as JSON ends in the same `catch` block as a
  lost connection. The user sees the same "could not connect" error for both.
- Ids are not guaranteed unique. Uniqueness (`TodoPage.Consistent`) is a
  precondition wherever a lemma needs it. The lemmas show which handlers keep
  it. `Journeys.ReopenTwiceDuplicatesId` and
  `TodoPage.CompletingSharedIdLosesTask` show how it breaks and what that
  costs.
- CompletedPage takes only `navigation` and never reads `route.params`
  (completed.js:15). Its list comes from the mount-time refresh. So the
  snapshot TodoPage relays after completing a task is sent but not consumed.
  The round-trip lemmas therefore come in two forms:
  - `Journeys.ReopenAppendsToActive` holds for whatever list the Completed
    screen shows;
  - `Journeys.CompleteThenReopen` and `Journeys.CompleteThenReopenRestores`
    take that list to be the relayed snapshot.

## Model

| member | source | states |
|---|---|---|
| JsText.SkipLeading | todoList/ToDo/components/todopage.js:34 | the scan stops at the first non-whitespace character at or after its start, or at the end, having passed only whitespace |
| JsText.SkipTrailing | todoList/ToDo/components/todopage.js:34 | the backward scan stops just after the last non-whitespace character before its start, or at 0, having passed only whitespace |
| JsText.TrimStart | todoList/ToDo/components/todopage.js:34 | the result is a suffix of the input, the cut prefix is all whitespace, and the result does not start with whitespace |
| JsText.TrimEnd | todoList/ToDo/components/todopage.js:34 | the result is a prefix of the input, the cut suffix is all whitespace, and the result does not end with whitespace |
| JsText.Trim | todoList/ToDo/components/todopage.js:34 | `trim` returns a middle slice of the title with only whitespace cut off on either side, and neither end of the result is whitespace |
| JsText.IsBlank | todoList/ToDo/components/todopage.js:34 | the guard `if (title.trim())` fails exactly when every character of the title is whitespace, the empty title included |
| JsText.TrimEmptyIffAllWhitespace | todoList/ToDo/components/completed.js:59 | `trim` yields the empty string exactly for an all-whitespace input |
| JsText.Includes | todoList/ToDo/components/completed.js:28 | `includes` holds exactly when the pattern occurs as a slice of the string at some position |
| JsText.Decimal | todoList/ToDo/components/todopage.js:36 | the printed clock value is a non-empty string of digits, exactly "0" for zero and without a leading zero otherwise |
| JsText.ParseDecimalInvertsDecimal | todoList/ToDo/components/todopage.js:36 | reading the printed clock value back yields the value |
| JsText.DecimalInjective | todoList/ToDo/components/todopage.js:36 | two clock values print the same exactly when they are equal |
| Tasks.ClientId | todoList/ToDo/components/todopage.js:36 | a client-minted id is a string id made of decimal digits, "0" or without a leading zero, that reads back as the clock value |
| Tasks.ClientIdsCollideIffSameMillisecond | todoList/ToDo/components/todopage.js:36 | two client-minted ids are equal exactly when minted in the same millisecond |
| Tasks.Remove | todoList/ToDo/components/todopage.js:71 | the filter by id keeps exactly the tasks with another id: none with the id remain, no other is dropped, nothing new appears |
| Tasks.RemoveAppend | todoList/ToDo/components/todopage.js:71 | the filter distributes over concatenation, so the survivors keep their relative order |
| Tasks.RemoveIsIdentityIffAbsent | todoList/ToDo/components/todopage.js:88 | the filter leaves a list unchanged exactly when no task in it has the id |
| Tasks.RemoveShrinks | todoList/ToDo/components/todopage.js:71 | filtering out an id that is present makes the list strictly shorter |
| Tasks.RemoveIdempotent | todoList/ToDo/components/todopage.js:88 | filtering by an id twice is filtering once |
| Tasks.RemoveCommutes | todoList/ToDo/components/completed.js:93 | deleting two ids gives the same list in either order |
| Tasks.RemoveUnique | todoList/ToDo/components/todopage.js:71 | with unique ids, filtering out the id at position i removes exactly that task and closes the gap |
| Tasks.RemoveSolePosition | todoList/ToDo/components/todopage.js:71 | when only the task at position i carries its id, filtering that id removes exactly that task and keeps the tasks before and after it in order |
| Tasks.RemoveKeepsUniqueIds | todoList/ToDo/components/todopage.js:88 | filtering never introduces a repeated id |
| Tasks.UniqueSnoc | todoList/ToDo/components/todopage.js:41 | appending a task keeps ids unique exactly when its id is new to the list |
| Tasks.Edit | todoList/ToDo/components/todopage.js:57-61 | the map rewrites title and description of exactly the tasks with the id, keeps their id and completed flag, and leaves every other task and the order as they were |
| Tasks.EditIdempotent | todoList/ToDo/components/todopage.js:57-61 | repeating the same edit changes nothing more |
| Tasks.EditAbsentIsIdentity | todoList/ToDo/components/todopage.js:57-61 | an edit of an id no task has leaves the list unchanged |
| Tasks.RemoveAfterEdit | todoList/ToDo/components/todopage.js:71 | removing an id discards any edit made to tasks with that id |
| Tasks.Find | todoList/ToDo/components/todopage.js:68 | `find` returns nothing exactly when no task has the id, and otherwise the first task that has it |
| Tasks.FindUnique | todoList/ToDo/components/todopage.js:68 | with unique ids, `find` returns the task at the id's only position |
| Tasks.FindAfterEdit | todoList/ToDo/components/todopage.js:68 | after an edit of an id, `find` returns the edited form of the task it found before |
| Server.IsJsonContentType | todoList/ToDo/components/completed.js:28 | the header check passes exactly when a header is present and the media type occurs in it at some position, which needs a header at least as long as the media type |
| Server.Decode | todoList/ToDo/components/completed.js:26-33 | a reply is parsed only when it is declared JSON and its body parses; a reply not declared JSON fails as not-JSON, and a failed fetch fails as a lost connection |
| Server.MediaTypePrefixAccepted | todoList/ToDo/components/completed.js:28 | every header that starts with `application/json`, whatever parameters follow, passes the check |
| Server.MediaTypeAnywhereAccepted | todoList/ToDo/components/completed.js:84 | every header that contains `application/json` anywhere passes the check |
| Server.CharsetParameterAccepted | todoList/ToDo/components/completed.js:28 | `application/json; charset=utf-8` passes the content-type check |
| Server.HtmlRejected | todoList/ToDo/components/completed.js:28 | `text/html` fails the content-type check |
| Server.NonJsonBodyIgnored | todoList/ToDo/components/completed.js:28-31 | for a reply not declared JSON the body is never looked at: any two bodies give the same not-JSON failure |
| Server.JsonReplyFailsOnlyOnBody | todoList/ToDo/components/completed.js:28-33 | a reply declared JSON is parsed when its body parses and otherwise fails as malformed, never as not-JSON |
| TodoPage.ReceiveParams | todoList/ToDo/components/todopage.js:26-31 | a reopened task is appended after the unchanged active tasks and the relayed list replaces the completed copy; with no params nothing changes |
| TodoPage.AddTask | todoList/ToDo/components/todopage.js:33-46 | the state is unchanged exactly when the title is blank; otherwise one task with the typed title and description and `completed = false` is appended after the unchanged earlier tasks |
| TodoPage.AddTaskRefusesIffAllWhitespace | todoList/ToDo/components/todopage.js:34 | adding is refused exactly when the title consists only of whitespace |
| TodoPage.DeleteUndoesAdd | todoList/ToDo/components/todopage.js:35-41 | deleting a task just added under a fresh id restores the previous state |
| TodoPage.AddTaskKeepsConsistent | todoList/ToDo/components/todopage.js:35-41 | adding under an id used in neither list keeps every id in exactly one place |
| TodoPage.UpdateTask | todoList/ToDo/components/todopage.js:55-65 | a blank title changes nothing; otherwise the active list is rewritten on the selected id only, with the id sequence and the completed copy unchanged |
| TodoPage.UpdateTaskKeepsConsistent | todoList/ToDo/components/todopage.js:56-62 | editing keeps every id in exactly one place |
| TodoPage.ToggleComplete | todoList/ToDo/components/todopage.js:67-85 | an unknown id changes nothing and relays nothing; a known id is filtered out of the active list, the first task found with it is appended with `completed = true` to the completed list, which grows by exactly one, and the relayed snapshot equals the new completed list |
| TodoPage.ToggleCompleteKeepsConsistent | todoList/ToDo/components/todopage.js:68-77 | completing keeps every id in exactly one place |
| TodoPage.ToggleCompleteMovesOneTask | todoList/ToDo/components/todopage.js:68-77 | with unique ids, completing the task at position i removes it from there and appends it, flagged, to the completed list |
| TodoPage.EditThenComplete | todoList/ToDo/components/todopage.js:55-85 | editing then completing a task moves the edited task, and the active list ends as if the edit had not been made |
| TodoPage.CompletingSharedIdLosesTask | todoList/ToDo/components/todopage.js:68-77 | when two active tasks share an id, completing it drops the total number of tasks held |
| TodoPage.DeleteTask | todoList/ToDo/components/todopage.js:87-91 | the active list becomes the filter by id, so the survivors keep their order; no task with the id remains, every other active task stays, the completed copy is untouched, and the state changes exactly when the id was present |
| TodoPage.DeleteTaskIdempotent | todoList/ToDo/components/todopage.js:88 | deleting twice equals deleting once |
| TodoPage.DeleteTaskKeepsConsistent | todoList/ToDo/components/todopage.js:88 | deleting keeps every id in exactly one place |
| CompletedPage.FetchCompletedTasks | todoList/ToDo/components/completed.js:22-45 | only a JSON reply with `success` replaces the list, wholesale and in server order; a reply with `success` false keeps the list and shows the server error; a failed fetch, a non-JSON or an unparseable reply keeps the list and shows the connection error |
| CompletedPage.FetchIdempotent | todoList/ToDo/components/completed.js:35-36 | refreshing twice with the same reply equals refreshing once |
| CompletedPage.NonJsonReplyKeepsList | todoList/ToDo/components/completed.js:27-31 | a reply not declared JSON keeps the list and reports the connection error |
| CompletedPage.UpdateTask | todoList/ToDo/components/completed.js:58-68 | a blank title changes nothing; otherwise the list is rewritten on the selected id only, with the id sequence unchanged |
| CompletedPage.DeleteTask | todoList/ToDo/components/completed.js:70-103 | the list changes only on a JSON reply with `success`, and then exactly the tasks with the id are filtered out; every other outcome keeps the list, with the notice telling which failure occurred |
| CompletedPage.DeleteIdempotent | todoList/ToDo/components/completed.js:91-94 | applying the same delete reply twice equals applying it once |
| CompletedPage.FailedDeleteKeepsTask | todoList/ToDo/components/completed.js:96-102 | when the delete does not succeed on the server, the task stays in the list |
| CompletedPage.MarkIncomplete | todoList/ToDo/components/completed.js:105-117 | every entry with the task's id leaves the list in order; the relayed task is the input with only `completed` set to false; the relayed list equals the new list |
| Journeys.ReopenAppendsToActive | todoList/ToDo/components/todopage.js:26-31 | reopening any task of the Completed screen's list appends it, not completed, to TodoPage's active list, and TodoPage's completed copy is that list without the task's id |
| Journeys.CompleteThenReopen | todoList/ToDo/components/todopage.js:67-85 | complete, reopen from the relayed snapshot, merge back: the first task with the id is last in the active list, not completed, the others keep their order, and no completed entry has the id |
| Journeys.CompleteThenReopenRestores | todoList/ToDo/components/todopage.js:67-85 | from a consistent state, the round trip returns the same state except that the task moved from its position to the end of the active list, and the result is consistent |
| Journeys.ReopenTwiceDuplicatesId | todoList/ToDo/components/completed.js:105-117 | reopening the same task twice, which the server-loaded Completed screen allows, leaves two active tasks with the same id |

## Left out

- HTTP: `fetch`, the URLs, the request bodies, `response.text()` and `response.json()`. A reply is reduced to whether the fetch failed, its declared content type, and whether the body parses into the expected shape.
- `Alert.alert` and `console.error`. Only which kind of notice the user gets is kept, not its text (`data.error || ...`).
- React state hooks, the modal visibility flags, the input-field resets after adding (todopage.js:42-44), and all rendering.
- `openEditModal`: the selected task, and its id, is a parameter of the edit, complete, delete and reopen handlers.
- `Date.now()`: the clock reading is a parameter. `TodoPage.AddTask` takes the new id as a parameter. `Tasks.ClientId` states what the code mints from that reading.
- JsText.Decimal: models `toString` for non-negative integers only, which covers every `Date.now()` value; exponent notation for very large numbers is not modelled.
- Numeric task ids are integers; fractional and NaN ids are not modelled.
- The body shapes are fixed: a successful list reply always carries `completedTasks`, and a reopen relay always carries both fields.
- Timing: the handlers are modelled as steps applied when a request settles. The stale list captured by the async delete handler, and late replies after leaving the screen, are not modelled.
- The effect on `route.params?.incompleteTask` fires once per new task object. It is modelled as one `TodoPage.ReceiveParams` call per relay.
- `selectedTask?.id` being undefined when no task is selected is not modelled.
- `navigateToCompleted` and `navigateToProfile` (todopage.js:93-99) only navigate. The first relays the completed copy unchanged, and the Completed screen does not read it.
- The initial empty lists (`useState([])`, todopage.js:15 and :23, completed.js:20) are not a separate constant: every handler and lemma holds for any state, the empty one included.
- The sign-in, sign-up and profile screens, the style sheets and the navigator registration in App.js: network calls, session storage, presentation and wiring, with no list logic.
