# Task manager state model

A Dafny model of the `TaskManager` object of a browser to-do list
(`app.js`). The object holds an ordered list of tasks, newest first. Each task
has an `id`, a `text`, a `completed` flag and a `createdAt` string. Five
methods change the list:

- `addTask` ignores input that trims to nothing. Otherwise it puts a new,
  unticked task with the trimmed text in front.
- `toggleTask` flips the flag of the tasks with a given id.
- `deleteTask` drops the tasks with a given id.
- `clearCompleted` drops the ticked tasks.
- `clearAll` empties the list once the user confirms.

Every change is written to browser storage. `render` shows two counters: the
number of tasks and the number completed.

The project has four modules:

- `Text` (`text.dfy`) models `String.prototype.trim`. It gives a reference
  characterisation: the trimmed text, padded with whitespace only, gives back
  the input.
- `Seqs` (`seqs.dfy`) models `Array.prototype.map` and `filter` over
  sequences. It also defines counting and subsequences. `FilterUnique` proves
  that a filter is the only order-preserving selection of the matching
  elements.
- `Tasks` (`tasks.dfy`) defines the `Task` record and the new list each
  method computes. It also defines the two counters and the lemmas about
  them: toggle twice, delete removes one, clearCompleted is idempotent, and
  the invariants are kept.
- `TaskManager` (`manager.dfy`) is the object as a state machine
  `Manager(tasks, stored, saves)`. `stored` is what `saveTasks` last wrote
  to storage, and `saves` counts the writes. A method that returns before
  `saveTasks` (blank input, or a declined `clearAll`) therefore leaves the
  whole state unchanged. A method that saves brings storage in line with
  the list and adds one write. `Run` folds a sequence of user intents.

Values from outside the object are parameters:

- the clock reading `Date.now()` becomes the `now` argument of `AddTask`;
- the formatted time `toLocaleString('zh-CN')` becomes the `createdAt`
  argument;
- the answer to `confirm(...)` becomes the `confirmed` argument of
  `ClearAll`.

Three behaviours of `app.js` shape the model:

- `clearAll` asks the user for confirmation itself (app.js:60). The answer
  is therefore a parameter.
- Ids are readings of the millisecond clock (app.js:24). Nothing makes them
  unique, and `deleteTask` removes every task whose id matches (app.js:46).
  The model removes every match. Uniqueness is proved only when each
  creation reads the clock above all existing ids (`RunKeepsIdsUnique`).
  `SameClockReadingSharesId` shows what happens without that.
- `loadTasks` passes stored data to `JSON.parse` unguarded (app.js:11), so
  corrupt data makes it throw. Loading is not modelled.

## Model

| member | source | states |
|---|---|---|
| Text.Trim | app.js:25 | the result has no whitespace at either end, and it is empty exactly when the input is all whitespace |
| Text.TrimSlice | app.js:25 | the input is the trimmed text padded with whitespace only: the trimmed text is a contiguous piece of the input, and everything before and after it is whitespace |
| Text.TrimOfPadded | app.js:25 | trim is determined by that decomposition: a trimmed string padded with whitespace on both sides trims back to itself |
| Text.TrimmedTextIsKept | app.js:21-25 | a non-empty text with no whitespace at either end passes the blank test and is stored as it is |
| Text.TrimIdempotent | app.js:25 | trimming a trimmed text changes nothing, so stored texts are fixed points of trim |
| Seqs.Map | app.js:37-39 | map keeps the length and applies the callback position by position |
| Seqs.Filter | app.js:46 | filter returns a subsequence (original order) holding every matching element, no non-matching one, and exactly as many elements as match |
| Seqs.FilterUnique | app.js:46 | any order-preserving selection of the matching elements that is as long as their number is the filter result |
| Seqs.FilterIdempotent | app.js:53 | filtering twice with the same callback is filtering once |
| Tasks.TotalCount | app.js:74 | the total counter is the number of tasks, which is the completed ones plus the active ones |
| Tasks.CompletedCount | app.js:75 | the completed counter is the number of completed tasks; it is 0 exactly when no task is completed, and equals the length exactly when all are |
| Tasks.Add | app.js:20-30 | blank input leaves the list unchanged (iff); otherwise one task goes in front of the untouched old list, with the given id and creation time, completed false, and the input minus the whitespace around it as its text |
| Tasks.Toggle | app.js:37-39 | same length and order; id, text and createdAt kept at every position; the flag changes exactly where the id matches; an unknown id leaves the list unchanged |
| Tasks.Delete | app.js:46 | the result is an ordered subsequence with no task carrying the id; every other task is kept; the length drops by the number of matches; an unknown id leaves the list unchanged |
| Tasks.ClearCompleted | app.js:53 | the result is an ordered subsequence with no completed task; every task that was not completed is kept; the length drops by the completed count |
| Tasks.ToggleTwice | app.js:37-39 | toggling the same id twice gives back the original list |
| Tasks.ToggleCompletedCount | app.js:37-39 | with unique ids, toggling the task at one position changes only that task, and the completed counter moves by exactly one |
| Tasks.DeleteRemovesOne | app.js:46 | with unique ids, deleting a present id removes exactly one task and deleting an absent id removes none |
| Tasks.DeleteCharacterized | app.js:46 | any ordered subsequence without the id and of the right length is the result of Delete |
| Tasks.ClearCompletedCharacterized | app.js:53 | any ordered subsequence without completed tasks and of the right length is the result of ClearCompleted |
| Tasks.ClearCompletedIdempotent | app.js:53 | clearing completed tasks twice is clearing them once, and afterwards the completed counter is 0 |
| Tasks.Counters | app.js:74-75 | the completed count never exceeds the total; non-blank addTask raises the total by one and keeps the completed count |
| Tasks.AddPreservesInvariants | app.js:23-30 | addTask keeps every text non-empty and trimmed, and keeps ids unique when the new id is not already in use |
| Tasks.TogglePreservesInvariants | app.js:37-39 | toggleTask keeps texts well formed and ids unique |
| Tasks.DeletePreservesInvariants | app.js:46 | deleteTask keeps texts well formed and ids unique |
| Tasks.ClearCompletedPreservesInvariants | app.js:53 | clearCompleted keeps texts well formed and ids unique |
| TaskManager.SaveTasks | app.js:15-17 | storage afterwards holds exactly the in-memory list, written once more |
| TaskManager.AddTask | app.js:20-33 | blank input changes nothing, storage and write count included; other input computes the new list and saves it once |
| TaskManager.ToggleTask | app.js:36-42 | the list is toggled and saved once, even for an unknown id |
| TaskManager.DeleteTask | app.js:45-49 | the matching tasks are dropped and the list is saved once, even for an unknown id |
| TaskManager.ClearCompletedTasks | app.js:52-56 | the completed tasks are dropped and the list is saved once |
| TaskManager.ClearAll | app.js:59-65 | when confirmed, the list is empty and saved once; when declined, nothing changes and nothing is saved |
| TaskManager.StepPreservesInvariant | app.js:20-65 | every method keeps the texts well formed and storage equal to the list |
| TaskManager.RunPreservesInvariant | app.js:20-65 | any sequence of method calls keeps the texts well formed and storage equal to the list |
| TaskManager.StepKeepsIdsUnique | app.js:24 | one call keeps ids unique and below the next clock bound, given that a creation reads the clock at or above the current bound |
| TaskManager.RunKeepsIdsUnique | app.js:24 | ids stay unique over any sequence of calls, provided clock readings at creation strictly increase and start above the existing ids |
| TaskManager.SameClockReadingSharesId | app.js:24 | two creations at the same clock reading give two tasks with one id, and deleting that id removes both |
| TaskManager.RunOfAdds | app.js:20-33 | after only addTask calls, the list is the created tasks, newest first, in front of the old list, and it grew by the number of non-blank inputs |
| TaskManager.SessionAddAndTick | app.js:20-42 | from the empty list, adding a text and ticking it gives one completed task: total 1, and the completed count goes from 0 to 1 |
| TaskManager.SessionAddAndClear | app.js:20-56 | adding a second text puts it in front of the ticked one; clearCompleted then leaves only the new task, with total 1, completed 0 and storage in sync |
| TaskManager.Session | app.js:20-56 | the whole add, tick, add, clear-completed session ends with only the second task, nothing completed, and storage written four times |

## Left out

- `loadTasks` and the constructor (app.js:3-12) are not modelled. They read
  browser storage and call `JSON.parse`, and neither is visible here. The
  model's states start from any list.
- `saveTasks` (app.js:15-17) is modelled as copying the list into `stored`.
  `JSON.stringify` and `localStorage.setItem` are foreign calls. The JSON
  round trip is taken to be exact.
- TaskManager.SaveTasks assumes every write to storage succeeds.
  `localStorage.setItem` (app.js:16) can throw, for example when the quota
  is exceeded or storage is disabled. It throws after the method has already
  replaced `this.tasks` (app.js:30, 37, 46, 53, 61). The program then keeps
  the new list in memory, storage keeps the old one, and no re-render
  happens. The `Synced` half of `StepPreservesInvariant` and
  `RunPreservesInvariant` holds only under this assumption.
- `render` (app.js:68-102) is left out except for its two counters
  (`TotalCount`, `CompletedCount`). The HTML templating and DOM access are
  not modelled, and neither is the re-render after each change.
- The global `addTask`, `clearCompleted` and `clearAll` functions and the
  event listeners (app.js:106-134) are UI glue and are not modelled.
- `Date.now()` and `toLocaleString('zh-CN')` (app.js:24, app.js:27) are
  parameters, not modelled clocks.
- Text.IsWhitespace lists the ECMAScript WhiteSpace and LineTerminator code
  points. No proof depends on that set. Strings are sequences of Unicode
  scalar values, not UTF-16 code units; every trimmed code point lies in the
  Basic Multilingual Plane, so trimming is the same either way.
- Ids are JavaScript numbers compared with `===`. They are modelled as
  unbounded integers, which is exact for millisecond clock readings.
