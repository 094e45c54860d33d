# To-do list core, modelled in Dafny

This project models the logic of a React Native to-do list app. The home
screen (`App.js`) holds a list of items `{id, text, done}` and a filter value.
It changes the list in four ways: toggle, add, delete and edit. It renders the
part of the list that the filter selects. The add dialog
(`components/AddTodo.js`) keeps a text buffer. It forwards the buffer to the
screen only when `text.trim()` is non-empty.

Modules, one per concern:

- `JsArray` (`js_array.dfy`): `Array.prototype.map` and
  `Array.prototype.filter`, the two operations every list update is made of.
  It proves that a filter keeps order (`IsSubsequence`), keeps multiplicities,
  distributes over concatenation, and splits a list in two when it is paired
  with its negation.
- `JsString` (`js_string.dfy`): `String.prototype.trim`. `IsWhitespace` is the
  full set of WhiteSpace (section 12.2 of ECMA-262, including every Unicode
  `Zs` code point) and LineTerminator (section 12.3) code points.
- `TodoList` (`todo_list.dfy`): the `Todo` datatype and the list updates as
  functions, from the old list to the new one. The lemmas cover lengths, id
  order, which fields change, involution, absent ids, id uniqueness and the
  filter partition.
- `HomeScreen` (`home_screen.dfy`): class `HomeState` with the `todos` and
  `filter` state fields. Each handler replaces `todos` with the result of the
  pure function, as `setTodos` does.
- `AddTodo` (`add_todo.dfy`): class `AddDialog` with the `text` buffer and a
  log `fired` of the callbacks (`onAdd`, `onClose`) in the order they fire.
  Its invariant `Valid()` says that every `onAdd` carries a non-blank text and
  is followed at once by `onClose`.

Notes on the code that the model follows:

- `addTodo` (App.js:55-58) accepts any text. The blank check lives only in the
  dialog's `handleAdd` (components/AddTodo.js:10-11), and the dialog forwards
  the untrimmed buffer.
- `toggleTodo`, `handleEdit` and `deleteTodo` use `map` and `filter`, so they
  act on every item with the given id, and do nothing when no item has it.
  Uniqueness of ids is proved to carry over only when each add uses an id
  that is not already present.
- The filter is a string. `'done'` and `'not_done'` select by the `done`
  flag, and every other value, `'all'` included, shows everything.

## Model

| member | source | states |
|---|---|---|
| JsArray.Map | App.js:49-51 | `map` gives one result per element, in order: same length, and element `i` is `f` of element `i` |
| JsArray.Filter | App.js:61 | `filter` never lengthens the array, and every element it returns passes the predicate |
| JsArray.FilterIsSubsequence | App.js:61 | the filter result is a subsequence of its argument: the kept elements stay in their original order |
| JsArray.FilterMultiset | App.js:61 | an element that passes is kept exactly as often as it occurs; an element that fails does not occur at all |
| JsArray.FilterMembers | App.js:72-77 | an element is in the filter result if and only if it is in the argument and passes the predicate |
| JsArray.FilterPartition | App.js:74-75 | filtering by a predicate and by its negation splits the array: the lengths add up and the multisets sum to the original |
| JsString.IsWhitespace | components/AddTodo.js:10 | the characters `trim()` strips: the WhiteSpace and LineTerminator code points, all of U+2000 to U+200A among them, none outside the Basic Multilingual Plane |
| JsString.SkipStart | components/AddTodo.js:10 | finds where the trimmed text starts: every character skipped is whitespace, and the one it stops at (if any) is not |
| JsString.SkipEnd | components/AddTodo.js:10 | finds where the trimmed text ends: every character dropped from the end is whitespace, and the last one kept (if any) is not |
| JsString.Trim | components/AddTodo.js:10 | `trim()` is never longer than its input and neither starts nor ends with whitespace |
| JsString.TrimSlice | components/AddTodo.js:10 | `trim()` is the contiguous slice of the input left between a whitespace-only prefix and a whitespace-only suffix |
| JsString.TrimEmptyIff | components/AddTodo.js:10 | `trim()` is empty if and only if every character is WhiteSpace or LineTerminator |
| JsString.TrimIdempotent | components/AddTodo.js:10 | trimming an already trimmed string changes nothing |
| TodoList.Toggle | App.js:47-53 | same length and same ids in the same order; `done` is flipped exactly on items whose id matches and `text` is kept; every other item is identical |
| TodoList.ToggleTwice | App.js:49-51 | toggling the same id twice returns the original list |
| TodoList.ToggleAbsent | App.js:49-51 | toggling an id that no item has leaves the list unchanged |
| TodoList.Add | App.js:55-58 | the result is the old list followed by exactly one new item `{id, text, done: false}` |
| TodoList.AddUnique | App.js:56-57 | after an add the ids are unique if and only if they were unique before and the new id was not already present |
| TodoList.Delete | App.js:60-62 | length never grows, and no item with the deleted id remains |
| TodoList.DeleteKeepsOthers | App.js:61 | delete keeps exactly the items whose id differs, each as often as before, in their original order |
| TodoList.DeleteAbsent | App.js:61 | deleting an id that no item has leaves the list unchanged |
| TodoList.DeleteIdempotent | App.js:61 | deleting the same id twice is the same as deleting it once |
| TodoList.DeleteIdsSubset | App.js:61 | delete never introduces an id that was not in the list |
| TodoList.DeleteUnique | App.js:61 | delete keeps a list with unique ids unique |
| TodoList.DeleteCount | App.js:61 | on a list with unique ids, delete removes exactly one item when the id is present and none when it is absent |
| TodoList.Edit | App.js:64-70 | same length, order, ids and `done` flags; `text` becomes `newText` exactly on matching items, with no emptiness check on `newText`; every other item is identical |
| TodoList.EditAbsent | App.js:66-68 | editing an id that no item has leaves the list unchanged |
| TodoList.EditOverwrite | App.js:66-68 | of two edits of the same id, the later one wins |
| TodoList.EditToggleCommute | App.js:47-70 | edit and toggle change different fields, so applying them in either order gives the same list |
| TodoList.Shows | App.js:72-77 | the filter callback: `'done'` selects exactly the done items, `'not_done'` exactly the not-done items, and every other value selects every item |
| TodoList.FilteredTodos | App.js:72-77 | the view never grows the list; under `'done'` every shown item is done, under `'not_done'` every shown item is not done |
| TodoList.FilteredMembers | App.js:72-77 | an item is shown if and only if it is in the list and the filter selects it, and the view keeps list order |
| TodoList.FilterShowsAll | App.js:73-76 | `'all'` and every unrecognised filter value show the whole list |
| TodoList.FilterDonePartition | App.js:74-75 | the `'done'` and `'not_done'` views partition the list: the lengths add up and every item is in exactly one view |
| TodoList.FilteredConcat | App.js:72-77 | the view of a concatenation is the concatenation of the views |
| TodoList.AddThenToggle | App.js:47-58 | adding with a fresh id and then toggling that id puts the new item, done, at the end of the `'done'` view and leaves the `'not_done'` view as it was |
| TodoList.Apply | App.js:47-70 | the handler an intent calls: an add appends its id to the ids, toggle and edit keep the ids, and a delete removes its id and introduces none |
| TodoList.Run | App.js:47-70 | the handlers applied one at a time: every id of the final list was there at the start or was introduced by one of the adds |
| TodoList.RunKeepsUnique | App.js:47-70 | after any sequence of toggles, adds, edits and deletes whose adds use fresh ids, the ids are still unique |
| HomeScreen.HomeState.constructor | App.js:14-18 | the screen starts with an empty list and the `'all'` filter |
| HomeScreen.HomeState.ToggleTodo | App.js:47-53 | `todos` becomes the toggled list, the filter is untouched, the ids are the same and uniqueness is kept |
| HomeScreen.HomeState.AddTodo | App.js:55-58 | `todos` becomes the old list plus the new item; the filter is untouched; the ids are unique afterwards if and only if they were unique before and `id` was fresh |
| HomeScreen.HomeState.DeleteTodo | App.js:60-62 | `todos` becomes the filtered list; no item with the id is left; uniqueness is kept |
| HomeScreen.HomeState.HandleEdit | App.js:64-70 | `todos` becomes the edited list; the filter is untouched; the ids are the same |
| HomeScreen.HomeState.SetFilter | App.js:82-98 | the filter becomes the chosen value and `todos` is untouched |
| HomeScreen.HomeState.FilteredView | App.js:72-77 | the rendered view is the filtered list of the current state; it holds exactly the items the current filter selects, in list order; it is the whole list unless the filter is `'done'` or `'not_done'`; reading it changes no state |
| AddTodo.Accepts | components/AddTodo.js:10 | the guard `text.trim()` accepts a buffer if and only if it holds a character that is not whitespace, so empty and whitespace-only buffers are rejected |
| AddTodo.AddStepWellFormed | components/AddTodo.js:10-13 | an accepted add records `onAdd` with a non-blank text, followed at once by `onClose`, and so keeps the callback log well formed |
| AddTodo.CloseStepWellFormed | components/AddTodo.js:36 | a lone `onClose` keeps the callback log well formed |
| AddTodo.AddDialog.constructor | components/AddTodo.js:7 | the buffer starts as `''` and no callback has fired |
| AddTodo.AddDialog.ChangeText | components/AddTodo.js:31 | typing replaces the buffer and fires nothing |
| AddTodo.AddDialog.HandleAdd | components/AddTodo.js:9-15 | on a blank buffer nothing changes and nothing fires; otherwise `onAdd` gets the untrimmed buffer, then the buffer is reset to `''` and `onClose` fires exactly once; every `onAdd` ever fired carries a non-blank text and is followed by `onClose` |
| AddTodo.AddDialog.Close | components/AddTodo.js:36 | only `onClose` fires; the buffer is not reset and `onAdd` is not called |

## Left out

- Loading from and saving to AsyncStorage (App.js:20-45): asynchronous I/O through a foreign library, whose errors are only logged.
- The `JSON.stringify` / `JSON.parse` round trip (App.js:26, 39): library code that is not part of this model.
- Id generation with `Date.now().toString()` (App.js:56): it reads a clock. The id is a parameter of `Add` and `HomeState.AddTodo`, and uniqueness is proved only when that id is fresh.
- `addTodo` reads `todos` from its closure rather than through an updater (App.js:57). React's batching and re-render timing are left out too. The model applies each handler to the current state, one at a time.
- components/EditTodo.js is not part of this model. It only forwards `todo.id` and its buffer to `handleEdit` and closes; `TodoList.Edit` covers the missing emptiness check.
- Layout, modals, the `FlatList`, navigation and styles: presentation only.
- JavaScript strings are sequences of UTF-16 code units, while Dafny `char` is a Unicode scalar value. A JavaScript string that holds an unpaired surrogate has no counterpart in the model. On every other string `trim` behaves the same in both, because no whitespace code point lies outside the Basic Multilingual Plane (`JsString.IsWhitespace`).
