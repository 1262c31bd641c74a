# Task list state of the todo app's Home screen

This project models the state manager inside the `Home` screen of a small
React Native to-do app. The screen keeps two pieces of state: `tasks`, an
ordered list of `{id, text, completed}` records with the newest first, and
`text`, what the input box holds. Four handlers overwrite that state:

- `addTask` trims the input and ignores it when nothing is left. Otherwise it
  prepends a new incomplete task and clears the box.
- `toggleTask` looks the id up. An unknown id does nothing. Otherwise the
  entries with that id get the negation of the first match's flag.
- `deleteTask` filters out every entry with the id.
- `loadTasks` replaces the list with the stored one, but only when storage
  returned a non-empty value and it decoded.

The header shows how many tasks are not completed.

Files:

- `JsString.dfy` (module `JsString`): ECMAScript's `String.prototype.trim`.
  It strips leading and trailing WhiteSpace and LineTerminator code points.
- `Tasks.dfy` (module `Tasks`): the `Task` record and the pure list
  functions behind each handler (`Added`, `Find`, `SetCompleted`, `Toggled`,
  `ToggleEvent`, `Deleted`, `Pending`, `PendingCount`, `Loaded`). It also
  holds the lemmas about them.
- `Home.dfy` (module `Home`): the class `TaskStore`, whose fields `tasks`
  and `text` are the screen's two state variables. Each handler is a method
  whose ensures give the new list as the matching function's result. It returns the alert the
  screen would show as an `Event` value.

External effects become parameters:

- The `Date.now()` id is the argument `freshId`. Id uniqueness is proved
  only under the hypothesis that this id is not already in use. The source
  itself checks nothing, so the methods do not require it.
- Storage's answer for the key is an `Option<string>`. `None` stands for
  the `null` that `getItem` returns when nothing is stored. It also stands
  for a `getItem` that rejects: the `catch` only logs, so the list stays as
  it was, exactly as for a missing key.
- `JSON.parse` is a caller-supplied function `string -> Option<seq<Task>>`.
  `None` stands for a parse that throws.

Three behaviours of the code a reader might not expect:

- A stored value that is missing, empty or fails to decode leaves the list as
  it was; it does not reset the list to empty. On first mount the list is
  already empty, so the two agree there.
- `toggleTask` does not flip each matching entry separately. It gives all of
  them `!first.completed`. The two differ only when two entries share the
  toggled id and carry different flags. With distinct ids they agree
  (`ToggleFlipsOne`). `ToggleTwiceWithDuplicateIds` shows two entries with the same id for which
  toggling twice does not restore the list.
- `deleteTask` raises its alert even when no entry had the id.

## Model

| member | source | states |
|---|---|---|
| JsString.Trim | todo/src/screens/Home.js:52 | trimmed input is empty exactly when every code point is trim white space; a non-empty result neither starts nor ends with white space |
| JsString.TrimSlice | todo/src/screens/Home.js:56 | the trimmed text is a contiguous slice of the input with only white space before and after it |
| JsString.TrimIdempotent | todo/src/screens/Home.js:56 | trimming the stored text again changes nothing |
| Tasks.Added | todo/src/screens/Home.js:51-61 | blank input leaves the list unchanged; otherwise the list grows by one, its head is `{freshId, trim(text), false}` with non-empty trimmed text, and its tail is exactly the old list |
| Tasks.AddKeepsIdsUnique | todo/src/screens/Home.js:55-60 | prepending a task whose id is unused keeps all ids distinct and keeps every old entry |
| Tasks.AddRaisesPendingCount | todo/src/screens/Home.js:57-60 | a real add raises the pending count by one; a blank add leaves it alone |
| Tasks.Find | todo/src/screens/Home.js:66-67 | no result exactly when no entry has the id; a result is an entry of the list with that id |
| Tasks.FindFirst | todo/src/screens/Home.js:66 | the result is the entry at the first position carrying the id |
| Tasks.FindUnique | todo/src/screens/Home.js:66 | with distinct ids the result is the one entry with that id |
| Tasks.SetCompleted | todo/src/screens/Home.js:77-79 | the map keeps the length; entries with the id get the new flag and everything else in them, and all other entries are untouched |
| Tasks.Toggled | todo/src/screens/Home.js:65-79 | same length; unknown id leaves the list unchanged; ids and texts stay at every position; other ids untouched; every matching entry gets the negation of the first match's flag |
| Tasks.ToggleEvent | todo/src/screens/Home.js:67-75 | no alert exactly when the id is unknown; otherwise "completed" exactly when the new flag is true, else "pending" |
| Tasks.ToggleFlipsOne | todo/src/screens/Home.js:69-79 | with distinct ids, toggling a present id replaces exactly that entry in place by its flipped copy, and the alert reports the flag it now has |
| Tasks.ToggleKeepsIdsUnique | todo/src/screens/Home.js:77-79 | toggling keeps ids distinct |
| Tasks.ToggleTwice | todo/src/screens/Home.js:65-79 | with distinct ids, toggling the same id twice restores the original list |
| Tasks.ToggleTwiceWithDuplicateIds | todo/src/screens/Home.js:66-79 | with a repeated id, toggling twice does not restore the list: both entries end up false |
| Tasks.Deleted | todo/src/screens/Home.js:83 | the filtered list is never longer than the original |
| Tasks.DeleteMembers | todo/src/screens/Home.js:83 | the survivors are exactly the old entries whose id differs, so no entry with the id remains |
| Tasks.DeleteConcat | todo/src/screens/Home.js:83 | deleting from a concatenation deletes from each part, so survivors keep their relative order |
| Tasks.DeleteAbsent | todo/src/screens/Home.js:83 | deleting an id no entry has returns the same list |
| Tasks.DeletePresentShrinks | todo/src/screens/Home.js:83 | deleting a present id makes the list strictly shorter |
| Tasks.DeleteUnique | todo/src/screens/Home.js:83 | with distinct ids, deleting the id at position k yields the list without position k, one shorter |
| Tasks.DeleteKeepsIdsUnique | todo/src/screens/Home.js:83 | deletion keeps ids distinct |
| Tasks.Pending | todo/src/screens/Home.js:93 | the not-completed filter is never longer than the list; with PendingConcat it works piecewise over a concatenation |
| Tasks.PendingCount | todo/src/screens/Home.js:93 | the pending count is at most the number of tasks |
| Tasks.PendingConcat | todo/src/screens/Home.js:93 | the pending filter works piecewise over a concatenation |
| Tasks.PendingCountIsCount | todo/src/screens/Home.js:93 | the pending count equals the number of positions whose task is not completed |
| Tasks.ToggleMovesPendingCount | todo/src/screens/Home.js:69-79 | with distinct ids, toggling a pending task lowers the pending count by one and toggling a completed task raises it by one |
| Tasks.Loaded | todo/src/screens/Home.js:32-41 | the list changes only to the decoded value of a non-empty stored value; a non-empty value that decodes always replaces it; an absent or empty value or a decode failure leaves it unchanged |
| Tasks.LoadAfterSave | todo/src/screens/Home.js:43-45 | only instantiates `Loaded` under an assumed codec round-trip: when the decoder inverts the encoder and encodings are non-empty, loading what was saved gives back the saved list |
| Home.TaskStore.constructor | todo/src/screens/Home.js:21-22 | the screen starts with no tasks and an empty input |
| Home.TaskStore.ChangeText | todo/src/screens/Home.js:124 | typing replaces the input and leaves the tasks alone |
| Home.TaskStore.AddTask | todo/src/screens/Home.js:51-63 | the new list is `Added` of the old one; blank input leaves the input and raises no alert; otherwise the input is cleared and the success alert raised; a fresh id keeps ids distinct |
| Home.TaskStore.ToggleTask | todo/src/screens/Home.js:65-80 | the new list is `Toggled` of the old one with the input unchanged; the alert is `ToggleEvent`; an unknown id changes nothing and raises nothing; distinct ids stay distinct |
| Home.TaskStore.DeleteTask | todo/src/screens/Home.js:82-85 | the new list is `Deleted` of the old one with the input unchanged; the deletion alert is always raised; an unknown id leaves the list as it was; distinct ids stay distinct |
| Home.TaskStore.LoadTasks | todo/src/screens/Home.js:32-41 | the new list is `Loaded` of the old one with the input unchanged; an absent or empty stored value changes nothing |
| Home.BuyMilkSession | todo/src/screens/Home.js:51-85 | add "Buy milk" on a fresh screen (one pending task), toggle it (completed, none pending), delete it: the list ends empty |

## Left out

- AsyncStorage `getItem` and `setItem` are not modelled, nor their `async`/`await` timing. Their outcome is a parameter, because they are external asynchronous I/O.
- `JSON.parse` and `JSON.stringify` are abstract functions, because they are library codecs. A stored value that parses to something other than a task list (such as `"null"`) counts as a decode failure here. The source would store that value as its list.
- The `useEffect` hooks that load once on mount and save after every change to `tasks` are not modelled, because they are React scheduling. `saveTasks` appears only in `LoadAfterSave`, as the encoder whose output a later load reads.
- `Date.now().toString()` is not modelled, because it reads the clock. It is the `freshId` parameter, and nothing guarantees that it is unused.
- `Alert.alert` dialogs and `console.error` logging are not modelled, because they are UI side effects. The alerts are returned as `Event` values; the logging is dropped.
- The JSX layout, `StyleSheet` and `TaskItem` are not modelled, because they are presentation that only forwards a task's id to the handlers.
