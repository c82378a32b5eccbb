# Todos Listos — task-list state machine in Dafny

This project models the `TodoApp` component of `src/App.jsx`, a single-page
to-do list. The list is a flat, ordered sequence of tasks `{id, text,
category, completed}`. Around it sit five more pieces of state:

- the two input buffers of the add form (`taskText`, `categoryText`);
- the show-completed flag;
- the edit session (`editTaskId`, `editTaskText`).

Every event handler is modelled as one atomic, pure transition on an immutable
`State` record:

- add (ignored when the text trims to empty);
- remove by id;
- toggle `completed` by id;
- begin, save and cancel an edit;
- negate the show-completed flag.

The filtered view the component renders is modelled as a pure function of
the state, so computing it cannot change the stored list.

Modules:

- `Seqs` (seqs.dfy): `Filter`, the order-preserving selection of
  `Array.prototype.filter`. It comes with an independent description: a
  subsequence holding every kept element with its multiplicity and nothing
  else (`FilterCounts`, `FilterIsSubsequence`). The lemma
  `FilterCharacterized` proves that this description determines the result.
- `Text` (text.dfy): the ECMAScript whitespace set and `String.prototype.trim`.
  It also proves that the trimmed text is empty exactly when no character is
  non-whitespace (`TrimEmptyIff`, with `HasContent` as the reference).
- `Tasks` (tasks.dfy): the `Task` record and the list transformations of the
  handlers:
  - `FindFirst` is `find`;
  - `WithoutId` and `Pending` are the two filters;
  - `ToggleWhere` and `RetextWhere` are the two maps.
- `TodoApp` (app.dfy): the component state, the handlers, the view, the edit
  mode `Idle | Editing(id)`, and the user events with `Step`/`Run`. It also
  holds the invariant kept along every run the rendered UI can produce.

Behaviour the model keeps from the code:

- Ids are compared with `===`, so duplicate ids behave as the code makes them
  behave. Toggle, remove and save act on every task with the id. Begin-edit
  copies the text of the first such task (`find`).
- An add whose text has content stores the raw, untrimmed text.
- Save applies no emptiness check, so an empty draft blanks the text.
- Begin-edit on an id that no task carries changes nothing, and any earlier
  session stays active.
- Save with no active session leaves the list alone: no id equals `null`.
- Removing the task being edited leaves the session dangling. A later save
  then only clears it.

Three more facts about the code the model respects:

- The flag handler negates the flag (line 216). There is no
  set-to-a-value operation.
- Ids are not guaranteed unique, because they come from `Date.now()`
  (line 153). Unique
  ids are proved as an invariant only for runs whose new ids are fresh (see
  `Enabled`).
- The stored list is loaded with `JSON.parse` and no fallback (line 141). A malformed
  stored value would throw rather than yield an empty list. Persistence is
  not modelled (see below).

## Model

| member | source | states |
|---|---|---|
| Text.TrimIsCore | src/App.jsx:152 | `trim()` yields a slice of the input with only whitespace outside it and non-whitespace at both ends |
| Text.TrimEmptyIff | src/App.jsx:152 | the trimmed text is empty iff no character of the input is non-whitespace |
| Seqs.FilterCounts | src/App.jsx:160 | `filter` keeps each kept element with its full multiplicity and nothing else |
| Seqs.FilterIsSubsequence | src/App.jsx:160 | `filter` keeps the order of its input |
| Seqs.FilterKeepsAll | src/App.jsx:160 | `filter` returns its input, or equally a list as long as its input, iff every element is kept |
| Seqs.FilterIsUnique | src/App.jsx:160 | any subsequence of the input made of kept elements and as long as the filter result is that result, so the three facts above determine `filter` |
| Seqs.FilterCharacterized | src/App.jsx:160 | any subsequence of the input holding each kept element with its full multiplicity and nothing else is the filter result |
| Seqs.FilterAppend | src/App.jsx:160 | filtering a concatenation is concatenating the filtered parts |
| Tasks.FindFirst | src/App.jsx:172 | `find` returns the position of the first task with the id, and none exactly when no task carries it |
| Tasks.WithoutId | src/App.jsx:160 | the remove filter is the order-preserving subsequence of the tasks with another id; the id is gone afterwards; the list is unchanged iff the id was absent, and shorter iff it was present |
| Tasks.Pending | src/App.jsx:193 | the hide-completed filter is the order-preserving subsequence of the tasks not completed, and equals the list iff none is completed |
| Tasks.ToggleWhere | src/App.jsx:165-167 | the toggle map keeps length, ids, texts and categories, and flips `completed` exactly on the tasks with the id |
| Tasks.RetextWhere | src/App.jsx:180-182 | the save map keeps length, ids, categories and flags, and sets the text exactly on the tasks with the id |
| Tasks.ToggleTwice | src/App.jsx:164-169 | toggling twice with the same id restores the list |
| Tasks.ToggleAbsent | src/App.jsx:165-167 | the toggle map leaves the list unchanged when no task carries the id |
| Tasks.RetextAbsent | src/App.jsx:180-182 | the save map leaves the list unchanged when no task carries the id |
| Tasks.RetextWithOwnText | src/App.jsx:172-181 | with unique ids, writing back the text `find` returned changes nothing |
| Tasks.RemoveAppended | src/App.jsx:153-160 | removing the id of a task just appended under a fresh id gives back the earlier list |
| Tasks.FilterKeepsIdsUnique | src/App.jsx:160 | removing tasks cannot create duplicate ids |
| TodoApp.AddTask | src/App.jsx:151-157 | blank text leaves the whole state unchanged; otherwise exactly one task (given id, raw text, category, not completed) is appended after the unchanged earlier tasks and both buffers are cleared |
| TodoApp.RemoveTask | src/App.jsx:159-162 | only the list changes; it becomes the order-preserving subsequence of tasks with another id; it is unchanged iff the id is absent; it never grows |
| TodoApp.ToggleCompleted | src/App.jsx:164-169 | only the list changes; length, order, ids, texts and categories are kept; `completed` flips exactly where the id matches |
| TodoApp.BeginEdit | src/App.jsx:171-177 | if a task has the id, the session switches to it with the first such task's text as draft, replacing any earlier session; otherwise nothing changes; the list is never touched |
| TodoApp.SaveEdit | src/App.jsx:179-186 | the tasks with the session's id take the draft (blank or not), all other fields and tasks are kept, and the session ends idle with an empty draft |
| TodoApp.CancelEdit | src/App.jsx:188-191 | the session ends idle with an empty draft and nothing else changes |
| TodoApp.ToggleShowCompleted | src/App.jsx:216 | the checkbox negates the flag and changes nothing else |
| TodoApp.VisibleTasks | src/App.jsx:193 | with the flag set the view is the whole list; otherwise it is the order-preserving subsequence of the tasks not completed |
| TodoApp.Step | src/App.jsx:204-243 | the event wiring (input setters at 204, 210, 229; add at 213; flag checkbox at 216; per-task controls at 223, 232-233, 239, 243): only add, remove, completed and save change the list, only the flag checkbox changes the flag, and typing changes exactly the buffer typed into |
| TodoApp.Enabled | src/App.jsx:219-245 | the controls rendered: completed, edit and remove only for stored (visible) tasks, edit only in a row not being edited, the edit field with save and cancel only during a session on a stored task; add is taken with a fresh id |
| TodoApp.InitialState | src/App.jsx:133-138 | the component starts with nothing visible, the flag set, no session, and consistent |
| TodoApp.StepKeepsConsistent | src/App.jsx:151-243 | every event the rendered UI offers keeps ids unique (given a fresh id on add) and keeps an idle session's draft empty |
| TodoApp.RunKeepsConsistent | src/App.jsx:151-243 | the same holds along every run of offered events |
| TodoApp.RunAppend | src/App.jsx:151-191 | the handlers compose: running two event sequences in turn is running their concatenation |
| TodoApp.AddThenRemove | src/App.jsx:151-162 | adding under a fresh id and removing that id leaves the list as it was |
| TodoApp.ToggleCompletedTwice | src/App.jsx:164-169 | clicking a task's checkbox twice restores the state |
| TodoApp.ToggleCompletedAbsent | src/App.jsx:164-169 | toggling an absent id changes nothing |
| TodoApp.ShowCompletedTwice | src/App.jsx:216 | clicking the show-completed checkbox twice restores the state |
| TodoApp.BeginThenCancel | src/App.jsx:171-191 | begin followed by cancel leaves every task unchanged and the session idle |
| TodoApp.BeginThenSave | src/App.jsx:171-186 | with unique ids, beginning an edit of an existing task and saving the untouched draft leaves the list unchanged |
| TodoApp.BeginThenSaveWithDuplicateIds | src/App.jsx:171-186 | with two tasks sharing an id, the same round trip overwrites the second text with the first |
| TodoApp.EditRoundTrip | src/App.jsx:171-186 | edit click, typing a text (possibly empty) and save set exactly the tasks with that id to the text and leave the session idle |
| TodoApp.SaveAfterRemovingEdited | src/App.jsx:159-186 | after the task being edited is removed, a save changes no task |
| TodoApp.EditModeTransitions | src/App.jsx:171-191 | the session moves Idle/Editing(id) to Editing(id') only by an edit click on an existing task, to Idle only by save or cancel, and no other event moves it |
| TodoApp.SubmitOne | src/App.jsx:151-157 | typing a text and a category then clicking add appends the task exactly when the text has content |
| TodoApp.SubmitAll | src/App.jsx:151-157 | a series of form submissions appends, in order, one task per submission whose text has content and nothing for the others |
| TodoApp.CreatedCount | src/App.jsx:151-157 | the number of tasks created equals the number of submissions whose text has content |
| TodoApp.BuyMilk | src/App.jsx:151-193 | adding "Buy milk" in "Shopping", completing it and hiding completed tasks shows nothing |

## Left out

- Persistence (src/App.jsx:140-149). Loading from and saving to
  `localStorage` through JSON is browser I/O. The model's state is the
  in-memory list only, so no save-then-reload round trip is stated.
- Id generation (src/App.jsx:153). `Date.now()` is a clock read. The new id is
  a parameter of `AddTask` and of the `AddClick` event. Freshness is an
  assumption of `Enabled`, not a property of the code.
- React scheduling (`useState` batching, effect ordering). Each handler is one
  atomic transition on the state of the render it closes over.
- Styling and rendering (src/App.jsx:5-130, 195-249). These are presentation
  only. From the JSX, the model keeps only which controls are offered
  (`Enabled`) and the input `onChange` setters (the `TaskInput`,
  `CategoryInput` and `DraftInput` events).
- Character model. JavaScript strings are UTF-16 code units and Dafny's `char`
  is a Unicode scalar value. Every character `trim` removes is in the Basic
  Multilingual Plane, so the emptiness check is unaffected.
