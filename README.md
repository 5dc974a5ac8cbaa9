# ToDo task store, modelled in Dafny

This project models the state logic of the `ToDo` React component in
`src/ToDo/ToDo.jsx`. The component holds four pieces of state:

- the ordered list of tasks `{id, text, completed}`;
- the pending input text `newTask`;
- the "Total Tasks" counter `totalTasks`;
- the "Completed Tasks" counter `cmpTask`.

Its handlers are add, delete, move up, move down, complete (flip and then
stable-partition), delete all, reset completed, and input change. Each one
updates that state.

The model has four modules:

- `Seqs` (`seqs.dfy`): `Filter`, which is `Array.prototype.filter`, and
  `SwapAdjacent`, which is the destructuring swap of two neighbouring slots.
  Each comes with the lemmas the store needs.
- `Text` (`text.dfy`): `String.prototype.trim` over ECMAScript's white-space
  and line-terminator characters. `addNewTask` uses it to decide whether the
  input is blank.
- `Tasks` (`tasks.dfy`): the `Task` record, the six seed tasks, and the pure
  list transforms the handlers apply:
  - `IndexOf` is `findIndex`;
  - `WithoutId` is the delete filter;
  - `Toggled` is the flag flip;
  - `Reorder` is `reorderTasks`;
  - `Cleared` is the reset map;
  - `MovedUp` and `MovedDown` are the moves.

  This module also holds the properties of these transforms: stable
  partition, permutation, round trips, and invariants kept.
- `Component` (`component.dfy`): the component as a class `ToDo`. Its four
  fields are the four state variables, and its methods are the handlers. Each
  handler is one atomic update and is proved against the `Tasks` functions.
  The class invariant `Valid()` has four parts:
  - `totalTasks` is the list's length;
  - `cmpTask` is the number of completed tasks;
  - ids are unique;
  - no text is blank.

  The constructor establishes `Valid()` and every event handler keeps it.
  `ReorderTasks` is the one exception. The source calls `reorderTasks` only
  from `completeTask` and never binds it to an event. On its own it changes
  the list without touching the counters, so it neither requires nor keeps
  `Valid()`; `CompleteTask` re-establishes the invariant after calling it.

## Model

| member | source | states |
|---|---|---|
| Seqs.Filter | src/ToDo/ToDo.jsx:45 | the filtered list is no longer than the input and holds exactly the input's elements that pass the test |
| Seqs.FilterAppend | src/ToDo/ToDo.jsx:80-82 | filtering a concatenation is filtering each part and concatenating, so a filter keeps relative order |
| Seqs.FilterAll | src/ToDo/ToDo.jsx:45 | when every element passes, the filter returns the sequence unchanged |
| Seqs.FilterNone | src/ToDo/ToDo.jsx:76 | when no element passes, the filter returns the empty sequence |
| Seqs.FilterDropOne | src/ToDo/ToDo.jsx:45 | a filter that rejects one element and accepts all the others removes exactly that element, in place |
| Seqs.FilterReplaceLength | src/ToDo/ToDo.jsx:70-76 | replacing one element changes a filter's count only by what the old and new element contribute |
| Seqs.FilterTwice | src/ToDo/ToDo.jsx:80-81 | filtering twice by the same test is the same as filtering once |
| Seqs.FilterSplitMultiset | src/ToDo/ToDo.jsx:80-82 | the two filters by a test and by its negation together hold the input's multiset |
| Seqs.MultisetSameMembers | src/ToDo/ToDo.jsx:82 | sequences that are permutations of each other have the same members |
| Seqs.SwapAdjacent | src/ToDo/ToDo.jsx:55 | slots k and k+1 are exchanged and every other slot is unchanged |
| Seqs.SwapAdjacentTwice | src/ToDo/ToDo.jsx:54-64 | performing the same adjacent swap twice restores the sequence |
| Seqs.SwapAdjacentMultiset | src/ToDo/ToDo.jsx:55 | a swap is a permutation |
| Seqs.SwapAdjacentFilterLength | src/ToDo/ToDo.jsx:55 | a swap keeps the number of elements that pass any test |
| Text.TrimStart | src/ToDo/ToDo.jsx:37 | the result is a suffix of the input that does not start with white space, and what it drops is all white space |
| Text.TrimEnd | src/ToDo/ToDo.jsx:37 | the result is a prefix of the input that does not end with white space, and what it drops is all white space |
| Text.WhiteSpaceInBmp | src/ToDo/ToDo.jsx:37 | every character of `IsWhiteSpace`, the set `trim` strips (ECMAScript WhiteSpace and LineTerminator), is in the Basic Multilingual Plane |
| Text.Trim | src/ToDo/ToDo.jsx:37 | the trimmed string is no longer than the input and neither starts nor ends with white space |
| Text.TrimIsSlice | src/ToDo/ToDo.jsx:37 | the trimmed string is a contiguous slice of the input, and everything before and after it is white space |
| Text.BetweenBlanks | src/ToDo/ToDo.jsx:37 | a suffix behind a blank prefix, cut before a blank suffix, is a slice of the original with white space only on either side |
| Text.TrimStartBlank | src/ToDo/ToDo.jsx:37 | a blank string trims to the empty string |
| Text.TrimEmptyIffBlank | src/ToDo/ToDo.jsx:37 | `trim()` gives `""` exactly when every character is white space |
| Tasks.SeedValid | src/ToDo/ToDo.jsx:8-15 | the seed list `Seed` (the six tasks of lines 9-14) has unique ids and non-blank texts, and none of its tasks is completed |
| Tasks.SeedUniqueIds | src/ToDo/ToDo.jsx:9-14 | the seed ids 1 to 6 are pairwise distinct |
| Tasks.SeedTexts | src/ToDo/ToDo.jsx:9-14 | no seed text is blank |
| Tasks.Completed | src/ToDo/ToDo.jsx:76 | the completed tasks (the filter at lines 48, 76 and 81) are no more than the list's tasks, and every one of them is completed |
| Tasks.Incomplete | src/ToDo/ToDo.jsx:80 | the incomplete tasks are no more than the list's tasks, and none of them is completed |
| Tasks.CompletedMembers | src/ToDo/ToDo.jsx:80-81 | a task is among the completed ones exactly when it is in the list and completed, and among the incomplete ones exactly when it is in the list and not completed |
| Tasks.IdsAppend | src/ToDo/ToDo.jsx:38 | the ids of a concatenation are the union of the ids of its parts |
| Tasks.UniqueIdsCons | src/ToDo/ToDo.jsx:38 | prepending a task gives unique ids if and only if the tail has unique ids and lacks the new id |
| Tasks.UniqueIdsConsTail | src/ToDo/ToDo.jsx:38 | a list with unique ids has a tail with unique ids that lacks the head's id |
| Tasks.UniqueIdsConsBuild | src/ToDo/ToDo.jsx:38 | a fresh id prepended to a list with unique ids gives unique ids |
| Tasks.UniqueIdsFilter | src/ToDo/ToDo.jsx:80-81 | any filter of a list with unique ids has unique ids |
| Tasks.UniqueIdsAppend | src/ToDo/ToDo.jsx:82 | two lists with unique ids and no shared id concatenate to unique ids |
| Tasks.SameMembers | src/ToDo/ToDo.jsx:82 | lists with the same members have the same ids, and one has non-blank texts if and only if the other has |
| Tasks.UniqueIdsSameTask | src/ToDo/ToDo.jsx:80-82 | in a list with unique ids, an id picks out at most one task |
| Tasks.SameIdsAndTexts | src/ToDo/ToDo.jsx:92 | lists that agree slot by slot on ids and texts have the same ids, and agree on unique ids and on non-blank texts |
| Tasks.IndexOf | src/ToDo/ToDo.jsx:52 | the result is -1 exactly when no task has the id; otherwise it is the first slot holding the id |
| Tasks.IndexOfUnique | src/ToDo/ToDo.jsx:61 | with unique ids, the slot holding the id is the one `findIndex` returns |
| Tasks.WithoutId | src/ToDo/ToDo.jsx:45 | the filter by the arrow function `task => task.id !== id` (`OtherId`): the result lacks the id and holds exactly the input's tasks with another id |
| Tasks.DeleteAbsent | src/ToDo/ToDo.jsx:44-46 | deleting an absent id leaves the list as it was |
| Tasks.DeletePresent | src/ToDo/ToDo.jsx:44-47 | with unique ids, deleting a present id removes exactly its slot, keeps the rest in order, and shortens the list by one |
| Tasks.DeleteAt | src/ToDo/ToDo.jsx:45 | with unique ids, the filter removes exactly the slot holding the id |
| Tasks.Toggled | src/ToDo/ToDo.jsx:70-72 | the map whose matching branch is the spread `{ ...task, completed: !task.completed }` at line 71 (`Flip`): slot by slot, id and text are kept, and the flag is flipped exactly where the id matches |
| Tasks.ToggleAbsent | src/ToDo/ToDo.jsx:70-72 | flipping an absent id changes no task |
| Tasks.ToggleCount | src/ToDo/ToDo.jsx:70-76 | with unique ids, exactly the id's slot is flipped, and the completed count moves by one in the direction of the flip |
| Tasks.ToggledAt | src/ToDo/ToDo.jsx:70-72 | with unique ids, the flipped list differs from the input only at the id's slot |
| Tasks.Reorder | src/ToDo/ToDo.jsx:79-82 | the reordered list has the input's length |
| Tasks.ReorderPartitioned | src/ToDo/ToDo.jsx:79-82 | every incomplete task comes before every completed one |
| Tasks.ReorderStable | src/ToDo/ToDo.jsx:80-82 | the incomplete and the completed tasks each keep their relative order |
| Tasks.ReorderPermutation | src/ToDo/ToDo.jsx:79-82 | the reordered list is a permutation of the input |
| Tasks.PartitionedSplit | src/ToDo/ToDo.jsx:80-82 | a partitioned list is its incomplete tasks followed by its completed ones |
| Tasks.ReorderUnique | src/ToDo/ToDo.jsx:79-82 | the stable partition is unique: any partitioned list with the same two groups in the same order is `Reorder`'s result |
| Tasks.ReorderPartitionedNoop | src/ToDo/ToDo.jsx:79-82 | reordering an already partitioned list changes nothing |
| Tasks.ReorderKeepsInvariant | src/ToDo/ToDo.jsx:79-82 | reordering keeps the ids, their uniqueness, and non-blank texts |
| Tasks.CompleteKeepsInvariant | src/ToDo/ToDo.jsx:69-82 | flip then reorder keeps ids unique and texts non-blank, partitions the list, and keeps the flipped list's completed tasks |
| Tasks.Cleared | src/ToDo/ToDo.jsx:92 | slot by slot, id and text are kept, and no task is completed |
| Tasks.ClearedNoneCompleted | src/ToDo/ToDo.jsx:92-94 | after a reset no task is completed (so 0 is the right count) and the list is partitioned |
| Tasks.MovedUp | src/ToDo/ToDo.jsx:51-57 | moveUp's list: a permutation of the same length; unchanged when the task is first or absent; otherwise the task and its predecessor trade places and every other slot is kept (further properties: `MoveUpKeepsInvariant`, `MoveUpThenDown`, `MoveUpThenDownAtTop`, `MoveDownThenUpAtBottom`) |
| Tasks.MovedDown | src/ToDo/ToDo.jsx:60-66 | moveDown's list for a present id: a permutation of the same length; unchanged when the task is last; otherwise the task and its successor trade places and every other slot is kept (further properties: `MoveDownKeepsInvariant`, `MoveDownThenUp`, `MoveDownThenUpAtBottom`) |
| Tasks.SwapKeepsInvariant | src/ToDo/ToDo.jsx:54-64 | a swap keeps the multiset, the ids, their uniqueness, non-blank texts, and the completed count |
| Tasks.SwapKeepsInvariantIds | src/ToDo/ToDo.jsx:54-64 | a swap keeps the ids and their uniqueness |
| Tasks.MoveUpKeepsInvariant | src/ToDo/ToDo.jsx:51-57 | moveUp keeps the multiset, the length, the ids, their uniqueness, non-blank texts, and the completed count |
| Tasks.MoveDownKeepsInvariant | src/ToDo/ToDo.jsx:60-66 | moveDown of a present id keeps the same facts as moveUp |
| Tasks.MoveDownThenUp | src/ToDo/ToDo.jsx:51-66 | with unique ids, moving a task that is not last down and then up restores the list |
| Tasks.MoveUpThenDown | src/ToDo/ToDo.jsx:51-66 | for any list, moving a task that is not first up and then down restores the list; uniqueness of ids is not needed |
| Tasks.MoveUpThenDownAtTop | src/ToDo/ToDo.jsx:53-64 | for the first task, moveUp is a no-op, so moveUp followed by moveDown does not restore the list |
| Tasks.MoveDownThenUpAtBottom | src/ToDo/ToDo.jsx:53-64 | for the last task, moveDown is a no-op, so moveDown followed by moveUp swaps it with its predecessor and does not restore the list |
| Tasks.CompleteMiddleOfThree | src/ToDo/ToDo.jsx:69-82 | completing the middle of three incomplete tasks moves it to the end, leaving one task completed |
| Tasks.ToggleMiddleOfThree | src/ToDo/ToDo.jsx:70-72 | with three distinct ids, flipping the middle id flips only the middle task |
| Tasks.MoveUpThenDownOfTwo | src/ToDo/ToDo.jsx:51-66 | with two tasks, moving the second up swaps them and moving it back down restores them |
| Component.SwappedCopy | src/ToDo/ToDo.jsx:54-64 | swapping two neighbouring slots of an array copy gives `SwapAdjacent` of the list |
| Component.ToDo.constructor | src/ToDo/ToDo.jsx:8-18 | the six seed tasks, an empty input, counters at 6 and 0, and `Valid()` |
| Component.ToDo.HandleInputChange | src/ToDo/ToDo.jsx:32-34 | the pending text becomes the given value, and the invariant is kept |
| Component.ToDo.AddNewTask | src/ToDo/ToDo.jsx:36-42 | blank input changes nothing; otherwise one incomplete task is prepended, the input is cleared, the total goes up by one, and the invariant is kept |
| Component.ToDo.DeleteTask | src/ToDo/ToDo.jsx:44-49 | the list is the id-filtered list and the counters are recomputed; an absent id changes nothing, and a present id lowers the total by one |
| Component.ToDo.MoveUp | src/ToDo/ToDo.jsx:51-58 | the list becomes `MovedUp`, a permutation, with counters unchanged and the invariant kept |
| Component.ToDo.MoveDown | src/ToDo/ToDo.jsx:60-67 | for a present id, the list becomes `MovedDown`, a permutation, with counters unchanged and the invariant kept |
| Component.ToDo.CompleteTask | src/ToDo/ToDo.jsx:69-77 | the list is the reorder of the flipped list, it is partitioned, the completed count moves by one for a present id, and the invariant is kept |
| Component.ToDo.ReorderTasks | src/ToDo/ToDo.jsx:79-83 | the list becomes the stable partition of the given list; only the list changes (called from `CompleteTask` only, so it does not keep `Valid()` by itself) |
| Component.ToDo.DeleteAll | src/ToDo/ToDo.jsx:85-89 | the list is empty, both counters are 0, and the invariant is kept |
| Component.ToDo.ResetCmp | src/ToDo/ToDo.jsx:91-95 | every task is kept in place but incomplete, the completed counter is 0, and the invariant is kept |

## Left out

- Rendering is not modelled: the JSX, CSS module classes, FontAwesome icons and `useAutoAnimate` are presentation only (src/ToDo/ToDo.jsx:2-5, 19, 97-174).
- The date header (`new Date()`, `toLocaleString`, src/ToDo/ToDo.jsx:21-30) is not modelled. It depends on the clock and locale and feeds no logic.
- `Date.now()` is not modelled as a clock. `Component.ToDo.AddNewTask` takes the new id as a parameter and requires it to be unused when a task is added. The source itself does not ensure unique ids.
- React's `useState` mechanics are not modelled. This covers batching, deferred updates and stale closures. Each handler is one atomic sequential update of the four fields.
- Component.ToDo.CompleteTask: the source calls `setTasks` twice (src/ToDo/ToDo.jsx:74-75). The model performs both writes in order, and only the partitioned list survives. This is also what React ends up rendering.
- Component.ToDo.MoveDown requires that the id is present. With an absent id on a non-empty list, `findIndex` gives -1, the test at line 62 passes, and lines 63-64 write `undefined` into slot 0 and set a non-index property `-1`; the model does not represent that. The rendered list only offers ids it holds.
- Tasks.MovedDown has the same precondition, for the same reason.
- `handleInputChange` is modelled only as setting the pending text. The browser event object is replaced by its value.
- Strings are sequences of Unicode scalar values, while JavaScript strings are sequences of UTF-16 code units and may hold lone surrogates. The blank test is unaffected, because every character `trim` strips lies in the Basic Multilingual Plane (`Text.WhiteSpaceInBmp`). The model does not carry a task's text as UTF-16.
- Arrays are modelled as values. `SwappedCopy` performs its swap on a fresh array, as the source swaps on a fresh copy. The other handlers build new lists, as the source does. There is no aliasing to model, because the source never mutates the list it reads.

## Notes on the source's behaviour

- `completeTask` with an id that no task holds still partitions the list (src/ToDo/ToDo.jsx:75). A list that a move has left out of partition order is therefore reordered even though no flag changes.
- `moveDown` with an absent id on a non-empty list writes `undefined` into slot 0 (src/ToDo/ToDo.jsx:61-64). On an empty list the test `-1 < tasks.length - 1` fails and nothing happens. The model requires a present id, as noted under "Left out".
- `totalTasks` is incremented on add (src/ToDo/ToDo.jsx:40) rather than recomputed, and moves leave both counters alone (src/ToDo/ToDo.jsx:51-67). `Valid()` shows that the counters never drift from the list.
- `moveUp` and `moveDown` undo each other only away from the list's ends. `Tasks.MoveDownThenUp` and `Tasks.MoveUpThenDown` carry that condition. `Tasks.MoveUpThenDownAtTop` shows the failure at the top, and `Tasks.MoveDownThenUpAtBottom` at the bottom.
