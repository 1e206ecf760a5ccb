# A Dafny model of the react-todo task list

This project models the logic of a small browser to-do application written in
React and TypeScript. It proves properties of that model.

- **The to-do store** is the `useTodos` hook. It holds an ordered list of task
  records (`id`, `text`, `completed`, `createdAt`, `completedAt`) and a filter
  mode. Its four operations are:
  - `addTodo` puts a new record in front;
  - `toggleTodo` flips completion;
  - `deleteTodo` removes by id;
  - `updateTodo` replaces the text.

  It derives two values: the filtered view and the count of active tasks.
- **The Russian plural selector** `getTaskWord` picks the word that follows
  the active count in the header.
- **The two dialog controllers.** The edit dialog's `useModal` state and
  App's delete-request state each hold zero or one pending `{ id, text }` task.
- **The two form guards.** The new-task form and the edit dialog are the only
  places where text is trimmed and blank text is refused.

Layout, one module per file:

| file | module | models |
|---|---|---|
| `option.dfy` | `Optional` | the `T \| null` values |
| `seqs.dfy` | `Seqs` | `Array.prototype.filter` / `map`, as `Filter` / `Map` |
| `text.dfy` | `Text` | `String.prototype.trim` with ECMAScript's white-space set |
| `todos.dfy` | `Todos` | the to-do record and the pure list transforms of `useTodos` |
| `store.dfy` | `Store` | class `TodoStore`: the hook's state and operations |
| `plural.dfy` | `Plural` | `getTaskWord` |
| `modal.dfy` | `Modal` | class `ModalState`: `useModal` |
| `forms.dfy` | `Forms` | class `TodoForm`, class `EditModal` and their guards |
| `app.dfy` | `App` | class `App`: the delete-request controller and the wiring of callbacks |

Modelling choices:

- Each store operation is one atomic state change of `TodoStore`. Each method
  is specified by a pure function over `seq<Todo>` (`Add`, `Toggle`, `Delete`,
  `Update`), and the properties are proved about those functions.
- Two values the store cannot compute itself are passed in as parameters:
  - `now` is the value `new Date()` gives, in milliseconds (one value per
    operation; see `Todos.Toggle` under Left out);
  - `id` is the string that `Math.random().toString(36).substring(7)` would give.
- The code never makes ids unique. Every lemma about unique ids is therefore
  conditional ("if ids were unique before and the new id is fresh, they stay
  unique").
- A callback prop is modelled by what the calling handler returns: the
  arguments of the call, or `None` when no call is made. `App` then does the
  wiring: `onAdd={addTodo}`, `onSave={updateTodo}`, `onClose={closeModal}`,
  `onConfirm={handleConfirmDelete}`.
- `getTaskWord` takes a JavaScript number. It is modelled on `int`, using
  JavaScript's truncating `%` (`JsRem`).

Two points of behaviour that are easy to misread:

- `addTodo` stores its text exactly as given; only `TodoForm.handleSubmit`
  trims and refuses blank text (`Todos.Add` versus `Forms.AddRequest`,
  `App.App.SubmitNewTask`).
- `JSON.parse` is called without `try`, so malformed stored data throws;
  loading is not modelled.

## Model

| member | source | states |
|---|---|---|
| `Seqs.Filter` | src/hooks/useTodos.ts:42 | `filter` keeps, in order, exactly the elements that pass: the result is a subsequence, holds x iff x is in the input and passes, and holds each passing element as often as the input does |
| `Seqs.Map` | src/hooks/useTodos.ts:29-37 | `map` keeps the length and transforms each element in place |
| `Seqs.FilterUnique` | src/hooks/useTodos.ts:42 | Filter's contract determines its result: any subsequence with those multiplicities is the filter result |
| `Seqs.FilterKeepsAll` | src/hooks/useTodos.ts:57 | when every element passes (the `default: return true` case), filtering returns the list unchanged |
| `Seqs.FilterIdempotent` | src/hooks/useTodos.ts:42 | filtering twice by one predicate is filtering once |
| `Seqs.FilterPartition` | src/hooks/useTodos.ts:55-56 | a predicate's filter and its negation's filter have lengths that add up to the list's length |
| `Text.IsWhitespace` | src/components/TodoForm.tsx:12 | the characters `trim()` strips: ECMAScript's WhiteSpace (TAB, VT, FF, ZWNBSP, the Zs space separators) and LineTerminator (LF, CR, U+2028, U+2029) |
| `Text.SkipLeading` | src/components/TodoForm.tsx:12 | the leading white space of `s[from..]` ends at the returned index: everything before it is white space, and the character there is not |
| `Text.SkipTrailing` | src/components/TodoForm.tsx:12 | the trailing white space before `upto` starts at the returned index: everything from it on is white space, and the character before it is not |
| `Text.Trim` | src/components/TodoForm.tsx:12-13 | `trim()` is empty iff the text is blank; otherwise it starts and ends with non-white space |
| `Text.TrimIsSlice` | src/components/TodoForm.tsx:13 | `trim()` is the slice of the text between a blank prefix and a blank suffix |
| `Text.TrimIdempotent` | src/components/TodoForm.tsx:13 | trimming twice is trimming once |
| `Todos.Add` | src/hooks/useTodos.ts:16-25 | the list grows by one; the new record is at index 0 with the given id, the text verbatim, not completed, no completion time, created `now`; the old list is the tail |
| `Todos.Toggled` | src/hooks/useTodos.ts:31-35 | the spread copy keeps id, text and createdAt, flips `completed`, and has a completion time, equal to `now`, exactly when it is completed |
| `Todos.Toggle` | src/hooks/useTodos.ts:27-39 | records with other ids are unchanged; a matching record flips `completed` and has completion time `now` iff it became completed, else null; the length and order are kept |
| `Todos.Delete` | src/hooks/useTodos.ts:41-43 | the result is the order-preserving subsequence of records whose id differs, each as often as before; no record with the id remains |
| `Todos.Update` | src/hooks/useTodos.ts:45-51 | the length and order are kept; matching records get the text verbatim; id, completed, createdAt and completedAt are unchanged on every record |
| `Todos.Shows` | src/hooks/useTodos.ts:54-58 | the `switch` of the filter callback: 'active' shows uncompleted records, 'completed' completed ones, and the default shows every record |
| `Todos.Filtered` | src/hooks/useTodos.ts:53-59 | the view is a subsequence holding each shown record exactly as often as the list does: Active holds exactly the uncompleted records, Completed exactly the completed ones, All the whole list |
| `Todos.ActiveCount` | src/hooks/useTodos.ts:61 | activeCount is at most the list length |
| `Todos.ActiveCountIsFilterLength` | src/hooks/useTodos.ts:61 | the record-by-record count equals the length of `todos.filter(todo => !todo.completed)` |
| `Todos.ActiveCountIsActiveView` | src/hooks/useTodos.ts:53-61 | activeCount equals the length of the Active view, and activeCount plus the length of the Completed view equals the list length |
| `Todos.AddActiveCount` | src/hooks/useTodos.ts:16-25 | adding a task raises activeCount by exactly one |
| `Todos.AddKeepsInvariants` | src/hooks/useTodos.ts:17-24 | adding keeps "completedAt set iff completed", and keeps ids unique when the new id is fresh |
| `Todos.AddThenDelete` | src/hooks/useTodos.ts:16-43 | deleting the id of a record just added with a fresh id gives back the old list |
| `Todos.ToggleMissing` | src/hooks/useTodos.ts:27-39 | toggling an absent id changes nothing |
| `Todos.ToggleKeepsInvariants` | src/hooks/useTodos.ts:30-36 | toggling keeps "completedAt set iff completed" and keeps ids unique |
| `Todos.ToggleTwice` | src/hooks/useTodos.ts:33-34 | toggling twice restores every `completed` and leaves records with another id unchanged; a matching record that started uncompleted ends with no completion time |
| `Todos.ToggleTwiceRestores` | src/hooks/useTodos.ts:33-34 | if the records are consistent and every matching record starts uncompleted, toggling twice restores the exact list |
| `Todos.ToggleActiveCount` | src/hooks/useTodos.ts:27-39 | toggling the only record with an id moves activeCount by one: up if it was completed, down if not |
| `Todos.DeleteMissing` | src/hooks/useTodos.ts:41-43 | deleting an absent id changes nothing |
| `Todos.DeleteIdempotent` | src/hooks/useTodos.ts:41-43 | deleting twice is deleting once |
| `Todos.DeleteKeepsConsistent` | src/hooks/useTodos.ts:42 | deleting keeps "completedAt set iff completed" |
| `Todos.DeleteKeepsUniqueIds` | src/hooks/useTodos.ts:42 | deleting keeps ids unique |
| `Todos.DeleteRemovesOne` | src/hooks/useTodos.ts:42 | with unique ids, deleting a present id removes exactly one record |
| `Todos.UpdateMissing` | src/hooks/useTodos.ts:45-51 | updating an absent id changes nothing |
| `Todos.UpdateTwice` | src/hooks/useTodos.ts:45-51 | when one id is updated twice, the later text wins |
| `Todos.UpdateKeepsInvariants` | src/hooks/useTodos.ts:47-49 | updating keeps "completedAt set iff completed" and keeps ids unique |
| `Todos.UpdateActiveCount` | src/hooks/useTodos.ts:45-51 | updating text leaves activeCount unchanged |
| `Todos.LifeOfATask` | src/hooks/useTodos.ts:16-61 | starting from an empty list: add "Buy milk" (one active task), toggle it (completed at that time, none active), rename it (completion kept), delete it (empty list) |
| `Store.TodoStore.constructor` | src/hooks/useTodos.ts:5-10 | the store starts with the stored list and the filter 'all' |
| `Store.TodoStore.AddTodo` | src/hooks/useTodos.ts:16-25 | the new list is `Add` of the old one, so the invariants carry over by `AddKeepsInvariants`; the filter is kept; activeCount rises by one |
| `Store.TodoStore.ToggleTodo` | src/hooks/useTodos.ts:27-39 | the new list is `Toggle` of the old one, so the invariants carry over by `ToggleKeepsInvariants`; the filter is kept |
| `Store.TodoStore.DeleteTodo` | src/hooks/useTodos.ts:41-43 | the new list is `Delete` of the old one, so the invariants carry over by `DeleteKeepsConsistent` and `DeleteKeepsUniqueIds`; the filter is kept |
| `Store.TodoStore.UpdateTodo` | src/hooks/useTodos.ts:45-51 | the new list is `Update` of the old one, so the invariants carry over by `UpdateKeepsInvariants`; the filter and activeCount are kept |
| `Store.TodoStore.SetFilter` | src/hooks/useTodos.ts:10 | it sets the mode and leaves the list and activeCount unchanged |
| `Store.TodoStore.FilteredTodos` | src/hooks/useTodos.ts:53-64 | the visible list is a subsequence of the list holding exactly the records the mode shows, each as often as the list does |
| `Store.TodoStore.ActiveCount` | src/hooks/useTodos.ts:61 | it counts the whole list; under Active it equals the visible list's length |
| `Plural.JsRem` | src/App.tsx:47-48 | JavaScript `%` equals Dafny's for non-negative dividends, and lies in (-m, 0] for negative dividends |
| `Plural.JsRemNegate` | src/App.tsx:47-48 | negating the dividend negates the truncating remainder |
| `Plural.GetTaskWord` | src/App.tsx:46-63 | the result is always one of "задача", "задачи", "задач" |
| `Plural.TaskWordTeens` | src/App.tsx:50-52 | counts whose last two digits are 11-19 give "задач" |
| `Plural.TaskWordLastDigit` | src/App.tsx:54-62 | otherwise a last digit of 1 gives "задача", 2-4 give "задачи", and any other digit gives "задач" |
| `Plural.TaskWordIsRussianPlural` | src/App.tsx:46-63 | for every count n >= 0 the word follows Russian's rule: "one" when n ends in 1 but not 11, "few" when it ends in 2-4 but not 12-14, "many" otherwise |
| `Plural.TaskWordPeriodic` | src/App.tsx:46-63 | getTaskWord(n) == getTaskWord(n % 100) for n >= 0 |
| `Plural.TaskWordNegative` | src/App.tsx:46-63 | every negative count gives "задач" |
| `Plural.TaskWordExamples` | src/App.tsx:46-63 | the words for 0, 1, 3, 5, 11, 14, 21, 22 and 111 |
| `Modal.ModalState.constructor` | src/hooks/useModal.ts:4-5 | the modal starts closed with no task, and the invariant "open iff a task is set" holds |
| `Modal.ModalState.OpenModal` | src/hooks/useModal.ts:7-10 | the modal is open on the given task, replacing any earlier one, and the invariant holds |
| `Modal.ModalState.CloseModal` | src/hooks/useModal.ts:12-15 | the modal is closed with no task whatever the state before, which makes closing idempotent; the invariant holds |
| `Forms.AddRequest` | src/components/TodoForm.tsx:12-13 | `onAdd` is called iff the text is not blank, with the trimmed text, which is non-empty and has no white space at either end |
| `Forms.AddRequestIsTrimmed` | src/components/TodoForm.tsx:13 | trimming what `onAdd` receives changes nothing |
| `Forms.BlankSubmissionAddsNothing` | src/components/TodoForm.tsx:12 | blank text never reaches `onAdd` |
| `Forms.TodoForm.constructor` | src/components/TodoForm.tsx:8 | the input starts empty |
| `Forms.TodoForm.Change` | src/components/TodoForm.tsx:24 | typing replaces the input's value |
| `Forms.TodoForm.HandleSubmit` | src/components/TodoForm.tsx:10-16 | it calls `onAdd` as AddRequest says, and clears the input only when it calls `onAdd` |
| `Forms.SaveRequest` | src/components/EditModal.tsx:40-41 | `onSave` is called iff there is a task and the text is not blank, with the item's id and the trimmed, non-empty text |
| `Forms.SubmitEnabled` | src/components/EditModal.tsx:88 | the save button is enabled iff the text is not blank |
| `Forms.SubmitEnabledMatchesGuard` | src/components/EditModal.tsx:38-88 | when a task is set, the button is enabled iff submitting would save |
| `Forms.EditModal.constructor` | src/components/EditModal.tsx:12 | the buffer starts empty |
| `Forms.EditModal.Change` | src/components/EditModal.tsx:73 | typing replaces the buffer |
| `Forms.EditModal.SyncWithProps` | src/components/EditModal.tsx:15-20 | when the dialog is open on a task, the buffer becomes the item's text; otherwise it is kept |
| `Forms.EditModal.HandleSubmit` | src/components/EditModal.tsx:38-44 | it calls `onSave` as SaveRequest says, and calls `onClose` iff it called `onSave` |
| `App.App.constructor` | src/App.tsx:10-23 | everything starts empty or closed, and the store holds the stored list |
| `App.App.ConfirmOpen` | src/App.tsx:115 | `Boolean(todoToDelete)`: the confirm dialog is open exactly when a deletion is pending |
| `App.App.HandleDeleteRequest` | src/App.tsx:25-27 | the pending task is set, so the confirm dialog is open (`isOpen={Boolean(todoToDelete)}`, line 115); the list is untouched |
| `App.App.HandleConfirmDelete` | src/App.tsx:29-34 | with a pending task, the list becomes `Delete` of its id and the request is cleared; with none, nothing changes |
| `App.App.HandleCancelDelete` | src/App.tsx:36-38 | the request is cleared and the list is untouched |
| `App.App.HandleEditRequest` | src/App.tsx:103-112 | `openModal` followed by the dialog's effect: the modal is open on the item and the buffer holds the item's text |
| `App.App.SubmitNewTask` | src/App.tsx:75 | blank input leaves the list and the input unchanged; other input adds one task holding the trimmed text and clears the input |
| `App.App.SubmitEdit` | src/App.tsx:107-112 | when the guard passes, the list becomes `Update` with the dialog task's id and the trimmed text, then the modal closes; otherwise nothing changes |

## Left out

- Local-storage persistence (src/hooks/useTodos.ts:5-8, 12-14). This is I/O.
  `TodoStore`'s constructor takes the already-parsed list. Serialising the list,
  parsing it (which throws on malformed data), and turning `Date`s into
  strings on reload are not modelled.
- `new Date()` and `Math.random()` are calls into the runtime. They are passed
  in as `now` and `id`. The model does not pick the id and cannot say whether
  ids collide.
- React's scheduling is not modelled: batched `setState`, re-rendering, effects
  that run after render, and the functional-updater form of `setTodos`. Each
  handler is one atomic step. The edit dialog's text effect is called right
  after `openModal` (`App.App.HandleEditRequest`).
- `Todos.Toggle`: uses a single time `now` for every record sharing the id. The
  source calls `new Date()` once per matching record inside `map`
  (src/hooks/useTodos.ts:34), so with duplicate ids their completion times may
  differ by a few milliseconds; the model stamps them all alike.
- `Plural.GetTaskWord`: a fractional, `NaN` or infinite count is left out, since
  those are floating-point values. Integers are modelled exactly, including
  negative ones.
- `Text.IsWhitespace` uses the fixed set of characters that ECMAScript's `trim`
  removes in current Unicode. A later Unicode revision could add to the Zs
  category; that is not modelled.
- EditModal's focus `setTimeout`, its Escape-key listener, its backdrop click and
  the `document.body.style` changes (src/components/EditModal.tsx:18, 22-36,
  46-50). These are DOM event plumbing.
- src/components/TodoItem.tsx, TodoList.tsx and ConfirmModal.tsx. They are
  presentation only: markup, portals, and locale-dependent date formatting.
- The filter buttons' labels and the static markup of App.tsx.
- src/types/todo.ts is not part of this model. The fields of the `Todo`
  record and the three filter modes come from how useTodos.ts builds and
  matches them. Dates are modelled as integer milliseconds.
