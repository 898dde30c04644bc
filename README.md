# To-do list screen: task-list state and persistence

This project models the logic of a single-screen React Native to-do app (`App.js`).
The `App` component keeps an ordered list of `{id, task}` records. It lets the user add
a task from a text input, edit a task's text in a modal dialog, and delete a task. After
every change it saves the whole list under the storage key `'tasks'`, and on mount it
loads the list back from that key.

The model has four modules:

- `Wrappers` (`wrappers.dfy`): an `Option` type. `None` stands for the component's `null` edit id.
- `JsString` (`js_string.dfy`): the whitespace set of ECMAScript's `String.prototype.trim` and `Trim` itself. `addTask` uses `trim` only to test for a blank input.
- `TaskList` (`task_list.dfy`): the `Task` record and the three list computations as pure functions, with lemmas about them:
  - the spread-append of `addTask` (`AddEntry`);
  - the `map` of `saveEditTask` (`EditEntries`);
  - the `filter` of `deleteTask` (`RemoveId`).
- `TaskApp` (`task_app.dfy`): the class `App`. Its fields are the component's `useState` hooks (`task`, `tasks`, `editTaskId`, `editTaskText`, `modalVisible`) plus `storage`, the device's key-value store as a `map`. Each handler is a method whose postcondition states the new state; for the list-changing handlers (`AddTask`, `SaveEditTask`, `DeleteTask`) it does so in terms of the `TaskList` functions. `Restart` is a remount followed by the load that the mount effect runs. `BlankEntrySession`, `AddSession`, `EditSession` and `SecondSession` are client methods that walk through concrete sessions.

Behaviour of the code worth knowing:

- Saving an edit for an id that no entry has is not an error. The `map` changes nothing, and the unchanged list is still saved. The same happens when the edit id is `null`.
- A stored list replaces the in-memory list only when the key is present. A failed read or parse leaves the list as it was; the code does not reset it to empty. That path is not modelled (see below).
- Ids are not guaranteed unique by the code. Every list-changing handler (`AddTask`, `SaveEditTask`, `DeleteTask`) states what it does to `DistinctIds` as a conditional postcondition, backed by a lemma. `AddTask` keeps ids distinct only when the caller's id is fresh. `LoadTasks` installs whatever list is stored, so after a load the ids are as distinct as they were when that list was saved.
- `addTask` stores the untrimmed input. Only the blank test uses `trim`. `saveEditTask` performs no blank test at all.

## Model

| member | source | states |
|---|---|---|
| `JsString.TrimStart` | App.js:38 | the result is the suffix of the input left after dropping leading whitespace; every dropped character is whitespace and the result does not start with whitespace |
| `JsString.TrimEnd` | App.js:38 | the result is the prefix of the input left after dropping trailing whitespace; every dropped character is whitespace and the result does not end with whitespace |
| `JsString.Trim` | App.js:38 | the result is the input with its leading and trailing whitespace removed (a contiguous piece of it); `task.trim() === ''` holds exactly when every character of the input is whitespace; a non-empty result neither starts nor ends with whitespace |
| `TaskList.AddEntry` | App.js:42-43 | appending keeps every earlier entry in place, puts the new `{id, task}` last, and the ids present afterwards are the old ones plus the new id |
| `TaskList.EditEntries` | App.js:58-60 | the edit keeps the length and every position's id; an entry whose id equals the edit id takes the new text, and every other entry keeps its text (a null edit id matches nothing) |
| `TaskList.RemoveId` | App.js:70 | an entry survives deletion exactly when its id differs from the deleted id, so no entry with that id remains, and the list does not grow |
| `TaskList.EditEntriesUnknownId` | App.js:58-60 | saving an edit whose id no entry has, or with a null id, returns the list unchanged |
| `TaskList.EditEntriesIdempotent` | App.js:58-60 | saving the same edit twice equals saving it once |
| `TaskList.EditEntriesKeepsIds` | App.js:58-60 | editing keeps the sequence of ids, hence keeps distinct ids distinct |
| `TaskList.RemoveIdAbsent` | App.js:70 | deleting an id no entry has leaves the list unchanged |
| `TaskList.RemoveIdIdempotent` | App.js:70 | deleting the same id twice equals deleting it once |
| `TaskList.RemoveIdSubsequence` | App.js:70 | the surviving entries keep their relative order: the result is a subsequence of the input |
| `TaskList.RemoveIdConcat` | App.js:70 | deletion is entry by entry: it distributes over concatenation |
| `TaskList.RemoveIdPresent` | App.js:70 | with distinct ids, deleting a present id removes exactly one entry |
| `TaskList.RemoveIdKeepsDistinct` | App.js:70 | deletion keeps distinct ids distinct |
| `TaskList.AddEntryKeepsDistinct` | App.js:42-43 | appending under an id no entry has keeps the ids distinct |
| `TaskList.RemoveAddedEntry` | App.js:42-43 | deleting a freshly added entry by its id restores the list as it was before the add |
| `TaskApp.App.constructor` | App.js:6-10 | the initial state: empty input, empty list, null edit id, empty edit text, dialog hidden |
| `TaskApp.App.LoadTasks` | App.js:18-25 | a list stored under `'tasks'` replaces the in-memory list, after which memory and storage agree; with nothing stored the list is unchanged |
| `TaskApp.App.SaveTasks` | App.js:28-34 | the given list is written under `'tasks'` and no other key changes |
| `TaskApp.App.ChangeTask` | App.js:99 | typing sets the input text |
| `TaskApp.App.AddTask` | App.js:37-47 | a blank input raises the "Task cannot be empty" alert and changes nothing; otherwise the untrimmed input is appended under the given id, exactly that list is saved, the input is cleared, the dialog state is untouched, and distinct ids stay distinct when the id is fresh |
| `TaskApp.App.OpenEditModal` | App.js:50-54 | the dialog opens for the given id and text, and the list, input and storage are untouched |
| `TaskApp.App.ChangeEditTaskText` | App.js:122 | typing in the dialog sets the edit text |
| `TaskApp.App.SaveEditTask` | App.js:57-66 | the list becomes the edit of the old list, with length, ids and order kept and an unknown or null id a no-op; exactly that list is saved; the dialog ends hidden with a null id and empty text |
| `TaskApp.App.Cancel` | App.js:125 | Cancel (and the dialog's close request, App.js:113) hides the dialog and changes nothing else, the edit id and text included |
| `TaskApp.App.DeleteTask` | App.js:69-73 | the list becomes the filter of the old list: no entry with the id remains, the survivors keep their order, an absent id changes nothing, with distinct ids a present id removes exactly one entry, and exactly that list is saved |
| `TaskApp.Restart` | App.js:13-21 | a remount over the same storage followed by the mount-time load shows the same list whenever the last state was saved, with the input, edit id, edit text and dialog back at their initial values |

## Left out

- Rendering is not modelled because it is view code. This covers `renderItem`, `FlatList`, the `Modal` presentation and the `StyleSheet` (App.js:76-156).
- `Alert.alert` is not modelled as a UI call. `AddTask` returns the alert's message instead.
- `AsyncStorage` is modelled as a synchronous map. In the app, `loadTasks` runs asynchronously from `useEffect` (App.js:13-21): when a list is already stored under `'tasks'`, an add, edit or delete made before `getItem` resolves is then overwritten in memory by the older stored list, while storage keeps the newer one. `Restart` runs the load before any handler, so the model cannot show this race. The model has no `async`/`await`, no interleaving of overlapping writes, and no read or write failures logged by `console.error` (App.js:18-34). A failed write leaves memory and storage out of step; the model does not capture this.
- `JSON.stringify`/`JSON.parse` are abstracted away: the stored value is the list itself. The model assumes a parsed image equals the list that was saved. A corrupt image cannot be expressed. A stored value is always a JSON array text, so it is never the empty string. "A truthy stored value" is therefore modelled as "the key is present".
- `Date.now().toString()` is not modelled because it reads a clock. The id is a parameter of `AddTask`.
- `useEffect` is not modelled as a lifecycle. Only its effect on mount is modelled, as `Restart` (a new `App` followed by `LoadTasks`).
- The batching of React state setters is not modelled. Each handler's setters take effect together when the handler returns. `saveTasks` receives the same list the handler installs, so the batching changes nothing that the model observes.
- Duplicate ids are not modelled as a problem for `keyExtractor` (App.js:104), which is view code.
