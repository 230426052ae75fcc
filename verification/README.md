# Todo manager core in Dafny

This project models the in-memory state machine of the to-do manager in `app.js`. The state record holds:

- the todo list;
- the filter and sort settings;
- the edit marker and edit buffer;
- the history panel and its per-todo cursors;
- the id counter.

Every user action is a pure transition `State -> State`. The list shown on screen is a pure function of the todos and the settings.

The modules follow the parts of the program:

- `Model` (model.dfy): the records and the store invariant `Valid`. The invariant says:
  - ids are distinct;
  - every id is below the counter;
  - every todo's revision log starts with a `created` entry and ends with its current fields.
- `Store` (store.dfy): `addTodo`, `updateTodo`, `deleteTodo` and `toggleTodoStatus`. Adding, updating and toggling append to the affected todo's log; deleting removes the todo together with its log.
- `Query` (query.dfy): `getFilteredTodos`. This is three filters applied one after another, then a stable sort by due date or by lower-cased title, ascending or descending.
- `HistoryCursor` (history.dfy): `showHistory`, `navigateHistory` and `closeHistory`. The cursor is clamped, never wrapped.
- `Session` (session.dfy):
  - `setFilter` and `setSort`;
  - `startEditing` and `cancelEditing`;
  - the counter recomputation done when a saved session is loaded.
- Support modules:
  - `Text` (text.dfy): `String.prototype.trim`, ASCII `toLowerCase`, `includes`, and string order.
  - `Seqs` (seqs.dfy): `Array.prototype.filter`.
  - `Dates` (dates.dfy): ISO dates compared as strings are compared by calendar.
- `Scenarios` (scenarios.dfy): worked examples, stated as lemmas about concrete inputs.

Mapping from the source to the model:

| In the source | In the model |
|---|---|
| `null` | `None` |
| the empty edit buffer `{}` | `None` |
| the clock `new Date().toISOString()` | a `now` parameter |
| the answer to `confirm(...)` | a `confirmed` parameter |

## Model

| member | source | states |
|---|---|---|
| Store.AddTodo | app.js:44-74 | A title that trims to nothing leaves the state unchanged. Otherwise exactly one todo is appended at the end. It takes the old counter as its id and has the trimmed title and description, status incomplete and one `created` log entry mirroring its fields. The counter goes up by one, the edit buffer is emptied, and nothing else changes. |
| Store.UpdateTodo | app.js:76-96 | The list keeps its length and order, and todos with other ids are untouched. A todo with the id gets the old fields overridden by the updates, and its log grows by one `updated` entry holding the merged fields. An absent id leaves the list as it was. `editingId` is cleared either way, and nothing else (including the edit buffer) changes. |
| Store.DeleteTodo | app.js:98-105 | Without confirmation the state is unchanged. With confirmation the result holds exactly the todos whose id differs, no todo has the id, the history panel is closed whichever todo it showed, and nothing else changes. |
| Store.DeleteRemovesExactlyOne | app.js:98-101 | With distinct ids, deleting a present id removes exactly that todo and keeps every other one in its original relative order. |
| Store.DeleteAbsentKeepsTodos | app.js:98-101 | Deleting an id that no todo has leaves the list as it was. |
| Store.ToggleTodoStatus | app.js:107-118 | An unknown id is a no-op, and even `editingId` is kept. Otherwise the new status is the flip of the first matching todo's status, and that todo stays at the same position. Every todo with that id keeps its id and creation time, takes that same new status with its other visible fields kept, and gains one log entry holding its new fields. Todos with other ids are untouched, `editingId` is cleared, and nothing else in the state changes. |
| Model.IndexOf | app.js:108 | The position found holds the id and no earlier position does. It is `None` exactly when no todo has the id. |
| Model.Find | app.js:136 | The todo found is the first stored todo with the id: no earlier todo has it. It is `None` exactly when no todo has the id. |
| Store.ToggleTwice | app.js:107-118 | Toggling twice restores the todo's status and all its visible fields. Its log grows by exactly two entries, the old log is a prefix of the new one, and the first new entry records the flipped status. |
| Store.AddPreservesValid | app.js:44-74 | Adding keeps ids distinct and below the counter and keeps every log well formed. The new id was not in use before. |
| Store.UpdatePreservesValid | app.js:76-96 | Updating keeps the store invariant. The last log entry is again the todo's current fields. |
| Store.DeletePreservesValid | app.js:98-105 | Deleting keeps the store invariant. |
| Store.TogglePreservesValid | app.js:107-118 | Toggling keeps the store invariant. |
| Text.Trim | app.js:45-50 | The trimmed string occurs in the input between two runs of whitespace. It neither starts nor ends with whitespace, and it is empty exactly when the input is all whitespace. |
| Text.TrimIdempotent | app.js:45-50 | Trimming twice is trimming once. |
| Text.IncludesIffOccurs | app.js:221-222 | `includes` holds exactly when the search text occurs at some position. |
| Query.FilterPassesIsConjunction | app.js:214-234 | The three filter passes, applied in turn, equal one pass with the conjunction of the text, status and category conditions. |
| Query.View | app.js:214-252 | The shown list contains exactly the todos that pass all three filters, each as often as in the store. It is a permutation of the filtered list and is sorted by the chosen key and direction. |
| Query.Compare | app.js:247-249 | The comparator returns -1, 0 or 1. It is 0 exactly when the keys tie, and negative exactly when `b` may not come before `a`. |
| Query.Sort | app.js:236-250 | The result is sorted by the chosen key and direction and is a permutation of the input. |
| Query.CompareMeaning | app.js:247-249 | The comparator is at most 0 exactly when the pair is in order, and exactly 0 when the keys tie. It is antisymmetric, and descending negates ascending. |
| Query.DueOrderIsTotalPreorder | app.js:239-241 | The due-date order is total and transitive, and a present date precedes a missing one. |
| Query.SortIsStable | app.js:236-250 | Sorting keeps, for every key value, the todos with that key in their input order. |
| Query.ViewKeepsTiesInStoreOrder | app.js:214-252 | In the shown list, todos with equal keys appear in store order among the filtered ones. |
| Model.CompletedCount | app.js:272-274 | The count is at most the list length. It is 0 exactly when no todo is complete, and the full length exactly when every todo is. That it counts exactly the complete todos is stated by Query.CompletedCountIsCompleteView. |
| Query.CompletedCountIsCompleteView | app.js:272-274 | The completed count is the length of the view filtered to status "complete". |
| Query.SourceDueCompareIsInconsistent | app.js:236-250 | The comparator as written ties a missing date with each of two distinct dates that do not tie with each other. |
| Dates.IsoOrderIsCalendarOrder | app.js:239-241 | For `YYYY-MM-DD` strings, string order is year, then month, then day order. |
| Dates.DigitOrderIsNumericOrder | app.js:239-241 | Digit strings of one length compare as strings exactly as their numbers compare. |
| HistoryCursor.ShowHistory | app.js:147-154 | The panel shows the id. For an existing todo its cursor points at the newest log entry. All other cursors are unchanged. |
| HistoryCursor.NavigateHistory | app.js:156-168 | An unknown id changes nothing. Otherwise the stored index (0 when unset) plus the step is clamped into the log: an in-range target is kept, a target at or below 0 gives 0, and one at or past the end gives the last index. On an empty log the stored index is -1 whatever the step. Other cursors are unchanged. |
| HistoryCursor.CloseHistory | app.js:170-173 | The panel is closed, the cursors are kept, and nothing else changes. |
| HistoryCursor.NavigateAfterShow | app.js:147-168 | After opening the panel, a forward step stays on the newest entry and a backward step reaches the one before it. |
| HistoryCursor.CursorSurvivesUpdate | app.js:76-96 | An update leaves every cursor in place, and the entry a cursor pointed at is unchanged. |
| Session.SetFilter | app.js:120-123 | Exactly the named filter takes the value. The other filters and the rest of the state are unchanged. |
| Session.SetFilterLastWins | app.js:120-123 | A second write to the same filter overrides the first, and writes to different filters commute. |
| Session.SetSort | app.js:125-132 | Choosing the current key reverses the direction. Choosing another key sorts ascending by it. Nothing else changes. |
| Session.SetSortTwice | app.js:125-132 | Choosing the current key twice restores the state. Choosing a new key twice sorts descending by it. |
| Session.StartEditing | app.js:134-139 | The edit marker is the id even when no todo has it. The buffer holds the first stored todo with that id (no earlier todo has it), and it is empty exactly when no todo has it. |
| Session.CancelEditing | app.js:141-145 | The edit marker and the buffer are cleared, and nothing else changes. |
| Session.EditThenCancelKeepsTodos | app.js:134-145 | Starting an edit and cancelling it leaves the state as it was, except that the edit marker and the buffer are cleared. |
| Session.MaxId | app.js:35 | The maximum is a stored id and bounds every stored id. |
| Session.ReloadNextId | app.js:34-36 | With stored todos the counter is one past a stored id and above every stored id. Without stored todos the saved counter is kept. |
| Session.Reload | app.js:34-36 | Only the counter may change. It is kept when there are no todos. Otherwise it becomes one past a stored id and lies above every stored id. |
| Session.ReloadRestoresValid | app.js:29-36 | A loaded session with distinct ids and well-formed logs satisfies the store invariant, and the next todo created gets an id above every stored one. |
| Scenarios.TitleDescendingExample | app.js:236-250 | "banana", "Apple", "cherry" sorted by title descending give cherry, banana, Apple. |
| Scenarios.BuyMilkScenario | app.js:44-118 | Creating "Buy milk" and toggling it gives one complete todo with two log entries, and a completed count of one. |
| Scenarios.ClampExample | app.js:156-166 | On a three-entry log, from a cursor that is unset or inside the log, steps of -100 and +100 land on entries 0 and 2. |
| Scenarios.StatusAndCategoryFilterIsConjunctive | app.js:226-234 | Filtering by status "complete" and category "work" keeps exactly the todos with both. |

## Left out

- Rendering (`rerenderUI`), `formatDate` and `isOverdue`: HTML assembly and locale- or clock-dependent date display; they do not change the state. Only the completed count is modelled (`Model.CompletedCount`).
- `playCompletionSound` and `showCompletionAnimation`: Web Audio, floating point, DOM and timers; they do not change the state.
- `localStorage`, `JSON.parse` and `JSON.stringify`, and the spread merge of the saved state: I/O and serialisation. Only the counter recomputation over the loaded todos is modelled (`Session.Reload`).
- The periodic autosave, the `DOMContentLoaded` wiring, and the form handlers `handleAddTodo` and `handleUpdateTodo`: event plumbing that only reads form data and calls the core.
- `confirm(...)` is a boolean parameter of `Store.DeleteTodo`.
- The clock is a `now` parameter. `addTodo` reads the clock twice, for `createdAt` and for the log entry, and the model uses one reading for both.
- Text.Lower: folds ASCII letters only; full Unicode `toLowerCase` is not modelled.
- Text.StrLe: compares characters as Dafny `char` values (code points), whereas JavaScript compares UTF-16 code units. The two differ only for characters beyond the Basic Multilingual Plane.
- Store.UpdateTodo: the log entry holds the five visible fields (title, description, category, due date, status). The source copies the whole merged record, including id, creation time and the previous log.
- Store.Updates: carries only the five visible fields. An update that overrides `id`, `createdAt` or `history` is not modelled, because the two callers never pass one.
- A todo without a `history` array (the source's `todo.history || []` and `!todo.history` guards) is not modelled: every todo has a log, possibly empty.
- Model.State: a sort key other than due date or title is not modelled, because `setSort` is only called with those two.
- Filter values are kept as strings with the sentinel "all", as in the source. Status values other than "complete" and "incomplete" match no todo.
- Query.DueLe: due dates that are not ISO `YYYY-MM-DD` strings are ordered as strings rather than by `new Date` parsing. A missing date counts as later than every date, so undated todos come last in ascending order and first in descending order (see Findings).
- Query.View: on lists where the source's order is well defined, the output can still differ from it. For example, sort ascending by due date a list with an undated todo before dated todos that all share one date. The source ties them all and its stable sort keeps the input order, while the model moves the undated todo last.
- Dates.IsIsoDate: checks only the `YYYY-MM-DD` shape. A month or day out of range (such as "2024-13-01") is an invalid date for `new Date` and ties with everything in the source; the model orders it as a string.

## Findings

| source | as written | input that shows it | evidently intended | confidence | as-written member | corrected member |
|---|---|---|---|---|---|---|
| app.js:236-250 | For the due-date key, a missing date becomes an invalid `Date`. Both `<` and `>` are then false, so the comparator returns 0 against every todo. | Due dates "2024-02-01", "" and "2024-01-01": the first and second tie, the second and third tie, and the first and third do not. The comparator is inconsistent and the sort order is implementation-defined. | A total order on due dates, with undated todos in one consistent place (here: a missing date counts as later than every date, so undated todos come last ascending and first descending). | not executed | Query.SourceDueCompareIsInconsistent | Query.DueOrderIsTotalPreorder |
