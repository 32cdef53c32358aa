# Task board core in Dafny

This project models a kanban-style task manager. The board is an ordered
sequence of **groups** (status lanes). Each group owns an ordered sequence of
root **tasks**, and every task owns an ordered sequence of **subtasks**, nested
to any depth.

The model covers these parts of the source:

- The types in `src/types/task.ts`.
- The task hook `src/hooks/useTasks.ts`. It holds the groups as state, and
  each operation replaces them with a rebuilt copy: add, attach a subtask,
  update, delete, expand or collapse, reorder, and move a task from anywhere
  to a lane's top level.
- The drop handler of `src/components/TaskBoard.tsx`. It turns a finished
  drag into one of the hook's calls.
- The rules of one task row in `src/components/TaskItem.tsx`: the drop
  indicator, committing a title edit, and indentation.
- The add-task input state machine of `src/components/AddTaskInput.tsx`.

Modules, one file each:

- `TaskTypes` (`task_types.dfy`): `Task`, `TaskGroup`, `Status`.
- `Forest` (`forest.dfy`): the specification vocabulary. It defines:
  - `Ids`: every id in a forest;
  - `Size`: the number of nodes;
  - `Unique`: no id occurs twice;
  - `Find`: the pre-order first node with an id;
  - `AllTasks`: the root tasks of all lanes;
  - `WellFormed`: distinct lane ids and unique task ids across the board;
  - `Flat`: the pre-order listing of nodes.
- `Splice` (`splice.dfy`): JavaScript `Array.prototype.splice` as used for
  "remove at start, insert at end". The start index must name an element;
  the end index is clamped as section 23.1.3.31 of ECMA-262 prescribes.
  There is also an in-place array version.
- `TaskTree` (`task_tree.dfy`): the recursive rebuilds. These are
  `addSubtaskRecursive`, `updateRecursive`, `toggleRecursive`,
  `deleteRecursive`, `reorderRecursive` and `findAndRemoveTask`.
- `Text` (`text.dfy`): `String.prototype.trim`.
- `UseTasks` (`use_tasks.dfy`): the hook itself. The class `TaskStore` holds
  `groups`, and its methods replace it. `LaneOp`/`OnLane` describe "apply this
  rebuild to the lanes with this id". The initial state and the defaults are
  also here.
- `TaskBoard` (`task_board.dfy`): `handleDragEnd` as a decision function
  (`DragEndCall`) and a method that dispatches the chosen call on a
  `TaskStore`.
- `TaskItem` (`task_item.dfy`) and `AddTaskInput` (`add_task_input.dfy`): the
  two components' local state, as classes, and their pure rules.

The central invariant is `WellFormed`: lane ids are distinct, and no task id
occurs twice in the whole board. Every `TaskStore` method preserves it. The
two methods that insert a new task need the fresh id to be unused.
On a well-formed board, `MoveTaskToGroup` keeps the set of ids and the node
count unchanged whenever the target lane exists.

## Model

| member | source | states |
|---|---|---|
| Forest.FindFound | src/hooks/useTasks.ts:248-276 | The search finds a task exactly when its id occurs in the trees; the task found has that id, and its subtree lies within the trees |
| Forest.PermutationInvariant | src/hooks/useTasks.ts:207-209 | Rearranging the roots of a forest changes neither its ids, nor its node count, nor whether its ids are unique |
| Forest.UniqueSizeIsIdCount | src/types/task.ts:3-10 | In a forest without repeated ids, the node count equals the number of distinct ids |
| Forest.FlatSize | src/types/task.ts:3-10 | The pre-order listing has one entry per node |
| Forest.FlatPermutes | src/hooks/useTasks.ts:207-209 | Rearranging the roots of a forest rearranges its pre-order listing: the multiset of nodes, with their fields and child ids, is kept |
| Forest.ReplaceTasksWellFormed | src/hooks/useTasks.ts:132-138 | Replacing one lane's roots by unique trees that bring no id found in another lane keeps the board well formed, with ids and count adjusted by that lane alone |
| Splice.ClampIndex | src/hooks/useTasks.ts:209 | A splice index is clamped into 0..length, and an index already in range is kept |
| Splice.RemoveAt | src/hooks/useTasks.ts:208 | `splice(i, 1)` removes exactly element i and shifts the later ones down |
| Splice.InsertAt | src/hooks/useTasks.ts:299 | `splice(i, 0, x)` puts x at the clamped index, keeps the elements before it and shifts the rest up by one |
| Splice.InsertAtPermutes | src/hooks/useTasks.ts:299 | Inserting adds exactly one copy of x to the multiset of elements |
| Splice.Reorder | src/hooks/useTasks.ts:207-209 | Remove-then-insert keeps the length and puts the start element at the landing position, the end index clamped to the last position |
| Splice.ReorderMoves | src/hooks/useTasks.ts:207-209 | Remove-then-insert puts the start element at the clamped end index and shifts exactly the elements between the two positions by one |
| Splice.ReorderPermutes | src/hooks/useTasks.ts:207-209 | A reorder keeps the length and the multiset of elements |
| Splice.ReorderInPlace | src/components/TaskBoard.tsx:34 | Moving an element to its own index changes nothing |
| Splice.ReorderRoundTrip | src/hooks/useTasks.ts:207-209 | Moving from a to b and then back from b to a restores the sequence |
| Splice.SpliceMove | src/hooks/useTasks.ts:207-209 | The in-place pair of splices leaves the array equal to the reorder of its old contents |
| TaskTree.AddSubtaskRecursive | src/hooks/useTasks.ts:114-130 | The rebuild keeps the number and ids of the roots at every level |
| TaskTree.AddSubtaskAbsent | src/hooks/useTasks.ts:114-130 | With no path and no task with the parent id, nothing changes |
| TaskTree.AddSubtaskPathMiss | src/hooks/useTasks.ts:119-128 | A path whose first id names no task changes nothing |
| TaskTree.AddSubtaskFinds | src/hooks/useTasks.ts:116-117 | With no path, the parent found afterwards is the parent found before, with the child appended to its subtasks and expanded |
| TaskTree.AddSubtaskOnlyParent | src/hooks/useTasks.ts:114-130 | With no path, every node other than the parent and the new child's nodes keeps its fields and its child ids, in the same multiplicity |
| TaskTree.AddSubtaskIds | src/hooks/useTasks.ts:114-130 | With no path, the trees gain the child's ids exactly when the parent is present, and no other id changes |
| TaskTree.AttachesNeedsParent | src/hooks/useTasks.ts:116-128 | The child can only be attached where a task with the parent id exists |
| TaskTree.AddSubtaskGrows | src/hooks/useTasks.ts:114-130 | For any path, the trees gain exactly the child's ids when the child is attached somewhere, and nothing otherwise |
| TaskTree.AddSubtaskUnique | src/hooks/useTasks.ts:104-139 | A fresh child keeps ids unique, whatever the path and however many places it is attached |
| TaskTree.AddSubtaskSize | src/hooks/useTasks.ts:114-130 | Under a present parent with unique ids, the node count grows by exactly the child's size |
| TaskTree.ApplyUpdate | src/hooks/useTasks.ts:145 | Merging an update keeps the id, the subtasks and the creation date, and an empty update changes nothing |
| TaskTree.UpdateRecursive | src/hooks/useTasks.ts:142-149 | The rebuild keeps the number of roots and the id at each position |
| TaskTree.UpdateStopsAtMatch | src/hooks/useTasks.ts:144-147 | A root with the id is merged and its subtasks are not searched: they are kept as they were |
| TaskTree.EditAll | src/hooks/useTasks.ts:142-149 | Reference edit of the pre-order listing: each entry with the id is edited, and every other entry is kept |
| TaskTree.EditAllAppend | src/hooks/useTasks.ts:142-149 | The reference edit distributes over concatenation |
| TaskTree.EditAllAbsent | src/hooks/useTasks.ts:142-149 | The reference edit of a forest without the id changes nothing |
| TaskTree.UpdateAbsent | src/hooks/useTasks.ts:142-149 | Updating an absent id changes nothing |
| TaskTree.UpdateKeepsIds | src/hooks/useTasks.ts:141-158 | An update keeps the ids, the node count and uniqueness |
| TaskTree.UpdateOnlyTarget | src/hooks/useTasks.ts:144-147 | With unique ids, the update merges the fields into the one node with the id and changes nothing else, in pre-order: every other node keeps its fields and its child ids |
| TaskTree.UpdateFinds | src/hooks/useTasks.ts:144-145 | The task found afterwards is the task found before with the given fields merged in |
| TaskTree.UpdateIdempotent | src/hooks/useTasks.ts:141-158 | Applying the same update twice is the same as applying it once |
| TaskTree.ToggleRecursive | src/hooks/useTasks.ts:177-184 | The rebuild keeps the number of roots and the id at each position |
| TaskTree.ToggleInvolution | src/hooks/useTasks.ts:176-193 | Toggling the same task twice restores the trees |
| TaskTree.ToggleKeepsIds | src/hooks/useTasks.ts:176-193 | A toggle keeps the ids, the node count and uniqueness |
| TaskTree.ToggleOnlyTarget | src/hooks/useTasks.ts:179-182 | With unique ids, exactly the one node with the id flips its expansion flag; every other node keeps its fields and its child ids, in pre-order |
| TaskTree.DeleteRecursive | src/hooks/useTasks.ts:161-165 | Deletion never lengthens a list of roots |
| TaskTree.DeleteAbsent | src/hooks/useTasks.ts:161-165 | Deleting an absent id changes nothing |
| TaskTree.DeleteRemoves | src/hooks/useTasks.ts:160-174 | The id is gone afterwards, no id is added, and uniqueness is kept |
| TaskTree.DeleteIdempotent | src/hooks/useTasks.ts:160-174 | Deleting twice is the same as deleting once |
| TaskTree.DeleteRemovesSubtree | src/hooks/useTasks.ts:161-165 | With unique ids, deleting removes exactly the found task's subtree: its ids and its node count |
| TaskTree.ReorderRecursive | src/hooks/useTasks.ts:218-228 | The rebuild keeps the number of roots and the id at each position |
| TaskTree.StartInRangeAbsent | src/hooks/useTasks.ts:218-228 | Without the parent, no splice happens, so any start index is acceptable |
| TaskTree.ReorderSubtasksAbsent | src/hooks/useTasks.ts:218-228 | Reordering under an absent parent changes nothing |
| TaskTree.ReorderSubtasksFinds | src/hooks/useTasks.ts:220-224 | The parent found afterwards is the parent found before, with its subtasks reordered from start to end |
| TaskTree.ReorderSubtasksKeepsIds | src/hooks/useTasks.ts:217-237 | A subtask reorder keeps the ids, the node count and uniqueness |
| TaskTree.ReorderSubtasksOnlyParent | src/hooks/useTasks.ts:218-228 | Every node other than the parent keeps its fields and its child ids, in the same multiplicity |
| TaskTree.WithoutId | src/hooks/useTasks.ts:251-257 | The filter drops every root with the id, never lengthens the roots, and keeps them all when none has the id |
| TaskTree.LastWithId | src/hooks/useTasks.ts:251-257 | The filter records a removed root exactly when some root has the id; the one recorded is the last root with the id |
| TaskTree.FindAndRemoveTask | src/hooks/useTasks.ts:248-276 | The roots never grow, and a removed task has the id |
| TaskTree.SearchSubtasks | src/hooks/useTasks.ts:263-275 | The subtree search keeps the number of roots and their ids, and a removed task has the id |
| TaskTree.FindAndRemoveAbsent | src/hooks/useTasks.ts:248-276 | Nothing is removed exactly when the id is absent, and then the trees are returned unchanged |
| TaskTree.SearchSubtasksAbsent | src/hooks/useTasks.ts:263-275 | The subtree search removes nothing exactly when the id is absent |
| TaskTree.FindAndRemoveStep | src/hooks/useTasks.ts:248-276 | With unique ids: a matching first root is taken out, a first root holding the id is rebuilt, and otherwise the rest are searched |
| TaskTree.FindAndRemoveUnique | src/hooks/useTasks.ts:248-276 | With unique ids, the removed task is the one `Find` returns, and exactly its subtree leaves the trees |
| TaskTree.DeleteIsFindAndRemove | src/hooks/useTasks.ts:160-165 | With unique ids, delete and find-and-remove leave the same trees |
| Text.Trim | src/components/AddTaskInput.tsx:17-18 | Trimming never lengthens the text |
| Text.TrimStart | src/components/AddTaskInput.tsx:17 | Strips the longest all-white-space prefix: the rest is a suffix of the text that does not start with white space |
| Text.TrimEnd | src/components/AddTaskInput.tsx:17 | Strips the longest all-white-space suffix: the rest is a prefix of the text that does not end with white space |
| Text.TrimSlice | src/components/AddTaskInput.tsx:18 | The trimmed text is a contiguous slice of the original |
| Text.TrimEnds | src/components/AddTaskInput.tsx:18 | The trimmed text is empty or begins and ends with a character that is not white space |
| Text.TrimEmpty | src/components/AddTaskInput.tsx:17 | A text trims to "" (is falsy) exactly when it is all white space |
| Text.TrimIdempotent | src/components/TaskItem.tsx:58-59 | Trimming twice is trimming once |
| UseTasks.ApplyOp | src/hooks/useTasks.ts:95-236 | A rebuild keeps the roots and their ids; an insertion adds exactly the new task to the roots; a reorder permutes them; a delete never lengthens them |
| UseTasks.ApplyOpKeepsUnique | src/hooks/useTasks.ts:85-237 | Every lane operation keeps a lane's ids unique when the tasks it brings in are fresh, and introduces no other id |
| UseTasks.OnLane | src/hooks/useTasks.ts:96-100 | Mapping over the lanes changes only the tasks of a lane with the id; every other lane, and every other field, is kept |
| UseTasks.OnLaneUnknown | src/hooks/useTasks.ts:96-100 | An operation on a lane id that does not exist changes nothing |
| UseTasks.OnLaneAt | src/hooks/useTasks.ts:96-100 | With distinct lane ids, the operation rewrites exactly the lane with that id |
| UseTasks.LaneIdsInForest | src/hooks/useTasks.ts:96-100 | A lane's ids are among the board's ids, and unique when the board's are |
| UseTasks.OnLaneKeepsWellFormed | src/hooks/useTasks.ts:85-237 | Any lane operation whose incoming tasks are fresh keeps the board well formed |
| UseTasks.AllTasksOfSameLanes | src/hooks/useTasks.ts:195-201 | Lanes with the same tasks contain the same tasks overall |
| UseTasks.ToggleLane | src/hooks/useTasks.ts:196-200 | A lane toggle flips the expansion flag of each lane with the id, keeps every other lane's flag, and changes no other field |
| UseTasks.ToggleLaneInvolution | src/hooks/useTasks.ts:195-201 | Toggling a lane twice restores the board; a toggle keeps every task and keeps the board well formed |
| UseTasks.RemoveFromLanes | src/hooks/useTasks.ts:284-291 | The removal pass changes only lanes' tasks |
| UseTasks.RemoveFromLanesAbsent | src/hooks/useTasks.ts:284-293 | With the id nowhere, nothing is removed and the lanes are unchanged |
| UseTasks.RemovedFromLast | src/hooks/useTasks.ts:284-291 | Removing from the last lane takes out exactly the found task's subtree |
| UseTasks.RemovedBeforeLast | src/hooks/useTasks.ts:284-291 | A removal made in an earlier lane carries over when the last lane yields none |
| UseTasks.RemoveFromLanesUnique | src/hooks/useTasks.ts:281-293 | With unique ids, the task taken is the one `Find` returns over all lanes, and exactly its subtree leaves the board |
| UseTasks.MoveTask | src/hooks/useTasks.ts:279-305 | A move keeps the number of lanes and every lane's fields other than its tasks |
| UseTasks.MoveTaskAbsent | src/hooks/useTasks.ts:293 | Moving an id that is nowhere returns the board unchanged |
| UseTasks.LanesDisjoint | src/types/task.ts:12-18 | On a board with unique ids, two different lanes share no id |
| UseTasks.DetachedForest | src/hooks/useTasks.ts:284-291 | On a well-formed board, detaching a present task keeps the board well formed and removes exactly that task's subtree |
| UseTasks.FindIsUnique | src/hooks/useTasks.ts:287 | A subtree taken from trees with unique ids has unique ids |
| UseTasks.InsertedTree | src/hooks/useTasks.ts:298-299 | Inserting a fresh tree with unique ids among the roots keeps ids unique and adds exactly its ids and nodes |
| UseTasks.InsertedRoot | src/hooks/useTasks.ts:296-303 | Inserting a fresh tree at a lane keeps the board well formed and adds exactly its ids and nodes |
| UseTasks.MoveTaskArrives | src/hooks/useTasks.ts:279-305 | Moving a present task to an existing lane puts that task, with its subtree, at the clamped index of that lane and in no other lane; ids and node count are unchanged and the board stays well formed |
| UseTasks.MoveTaskUnknownTarget | src/hooks/useTasks.ts:293-303 | Moving to a lane id that does not exist drops the task and its subtree from the board |
| UseTasks.MoveTaskWellFormed | src/hooks/useTasks.ts:279-305 | A move always keeps the board well formed |
| UseTasks.InitialGroups | src/hooks/useTasks.ts:65-79 | The stored data is used exactly when it parsed to a non-empty array; otherwise the defaults are used, so non-empty defaults give a non-empty board |
| UseTasks.DefaultGroups | src/hooks/useTasks.ts:7-62 | The defaults are four expanded lanes, blocked, todo, in progress and done, with the lane ids from the generated ones |
| UseTasks.DefaultGroupsWellFormed | src/hooks/useTasks.ts:7-62 | With seven distinct ids, the defaults are well formed and hold exactly three tasks, whose ids are the three task ids |
| UseTasks.GetSubtaskCount | src/hooks/useTasks.ts:239-245 | The loop counts every descendant at every depth: the node count of the subtasks |
| UseTasks.SubtaskCountShape | src/hooks/useTasks.ts:239-245 | The count is zero without subtasks, at least the number of direct subtasks, and one less than the subtree's node count |
| UseTasks.SizeAtLeastLength | src/hooks/useTasks.ts:240 | A forest has at least as many nodes as roots |
| UseTasks.TaskStore.constructor | src/hooks/useTasks.ts:65-79 | The initial state is the one the initialiser chooses, and the store is valid when that choice is a well-formed board |
| UseTasks.TaskStore.AddTask | src/hooks/useTasks.ts:85-102 | A new todo task, collapsed and without subtasks, is appended to the lane with the id; a fresh id keeps the board well formed |
| UseTasks.TaskStore.AddSubtask | src/hooks/useTasks.ts:104-139 | The new task is attached below the parent along the path in the lane with the id; a fresh id keeps the board well formed |
| UseTasks.TaskStore.UpdateTask | src/hooks/useTasks.ts:141-158 | The fields are merged into the task in that lane, and the board stays well formed |
| UseTasks.TaskStore.DeleteTask | src/hooks/useTasks.ts:160-174 | The task is deleted from that lane, and the board stays well formed |
| UseTasks.TaskStore.ToggleTaskExpand | src/hooks/useTasks.ts:176-193 | The task's expansion flag flips in that lane, and the board stays well formed |
| UseTasks.TaskStore.ToggleGroupExpand | src/hooks/useTasks.ts:195-201 | The lane's expansion flag flips, and the board stays well formed |
| UseTasks.TaskStore.ReorderTasks | src/hooks/useTasks.ts:203-215 | The lane's roots are reordered in place from start to end, and the board stays well formed |
| UseTasks.TaskStore.ReorderSubtasks | src/hooks/useTasks.ts:217-237 | The parent's subtasks in that lane are reordered, and the board stays well formed |
| UseTasks.TaskStore.MoveTaskToGroup | src/hooks/useTasks.ts:279-305 | The board becomes the result of detaching the task and inserting it at the target lane, and stays well formed |
| TaskBoard.FindParentGroup | src/components/TaskBoard.tsx:52-59 | The search only ever returns the lane id it was given |
| TaskBoard.FindParentGroupSpec | src/components/TaskBoard.tsx:52-61 | The search gives a truthy answer exactly when the lane id is non-empty and the parent is somewhere in the lane's trees |
| TaskBoard.ParentGroupSpec | src/components/TaskBoard.tsx:51-65 | The parent's lane is the first lane with a non-empty id that holds the parent, and there is none exactly when no such lane exists |
| TaskBoard.ParentGroupOfLane | src/components/TaskBoard.tsx:51-65 | On a well-formed board, the lane found is the one lane holding the parent |
| TaskBoard.DragEndCall | src/components/TaskBoard.tsx:20-67 | A call is issued only for a drop on a list. A reorder is within one existing lane with different indices. A move targets a lane. A subtask reorder is within one subtask list, for the lane holding its parent |
| TaskBoard.DropInLane | src/components/TaskBoard.tsx:28-38 | A drop at a new index of the lane it started in issues a reorder of that lane from the source to the destination index |
| TaskBoard.DropNowhere | src/components/TaskBoard.tsx:23-37 | A drop outside any list, or back at its own place in a lane, issues nothing |
| TaskBoard.DropOnOtherLane | src/components/TaskBoard.tsx:42-45 | A drop on a lane other than the source issues a move of the dragged task to that lane at the destination index |
| TaskBoard.DropBetweenSubtaskLists | src/components/TaskBoard.tsx:47-66 | A drop on a subtask list other than the source list, or one from a list that is not a subtask list, issues nothing |
| TaskBoard.DropInSubtaskList | src/components/TaskBoard.tsx:48-63 | A drop within the subtask list of a parent in lane j issues a subtask reorder for lane j |
| TaskBoard.AfterDrop | src/components/TaskBoard.tsx:20-67 | A drop that issues nothing leaves the board unchanged, and every drop keeps the board well formed |
| TaskBoard.DropMovesTask | src/components/TaskBoard.tsx:42-45 | Dropping a present task on another lane lands it at the clamped destination index of that lane and keeps every id and the node count |
| TaskBoard.HandleDragEnd | src/components/TaskBoard.tsx:20-67 | The store becomes the board after the drop, and stays well formed |
| TaskItem.DropIndicators | src/components/TaskItem.tsx:84-98 | At most one indicator is shown, only on the row at the destination index of this lane: below it when dragging down within the lane, above it otherwise, and never when no drag state is reported |
| TaskItem.CommitRule | src/components/TaskItem.tsx:57-60 | A title update is issued exactly when the edit is not all white space and differs from the title; it carries only the trimmed title |
| TaskItem.CommitNothing | src/components/TaskItem.tsx:58 | An unchanged or blank edit issues no update |
| TaskItem.TitleEditor.constructor | src/components/TaskItem.tsx:51-52 | A row starts out not editing, with the task's title as its draft |
| TaskItem.TitleEditor.Rename | src/components/TaskItem.tsx:203 | Rename enters editing and keeps the draft |
| TaskItem.TitleEditor.Change | src/components/TaskItem.tsx:169 | Typing replaces the draft |
| TaskItem.TitleEditor.EditSubmit | src/components/TaskItem.tsx:57-62 | Submitting issues the commit rule's update and always leaves editing |
| TaskItem.TitleEditor.KeyDown | src/components/TaskItem.tsx:64-71 | Enter submits; Escape restores the title and leaves editing; other keys change nothing |
| TaskItem.PaddingLeft | src/components/TaskItem.tsx:77 | A row's padding is 12 pixels plus a whole number of 32-pixel steps |
| TaskItem.SubtaskIndent | src/components/TaskItem.tsx:77 | Each level of nesting indents a row by 32 more pixels |
| AddTaskInput.SubmitRule | src/components/AddTaskInput.tsx:16-22 | A title is added exactly when it is not all white space; what is added is its trimmed, non-empty, already-trimmed form |
| AddTaskInput.InputState.constructor | src/components/AddTaskInput.tsx:13-14 | The input starts out closed and empty |
| AddTaskInput.InputState.Click | src/components/AddTaskInput.tsx:38 | Clicking the button opens the input |
| AddTaskInput.InputState.Change | src/components/AddTaskInput.tsx:57 | Typing replaces the draft |
| AddTaskInput.InputState.Submit | src/components/AddTaskInput.tsx:16-22 | Submitting adds the trimmed title, then clears and closes; a blank draft changes nothing |
| AddTaskInput.InputState.KeyDown | src/components/AddTaskInput.tsx:24-31 | Enter submits; Escape clears and closes without adding; other keys change nothing |
| AddTaskInput.PaddingLeft | src/components/AddTaskInput.tsx:33 | The input's padding is 12 pixels plus a whole number of 32-pixel steps |
| AddTaskInput.AlignsWithSubtasks | src/components/TaskItem.tsx:253-256 | The add-subtask input under a row at depth d lines up with that row's subtasks, at depth d + 1 |

## Left out

- Persistence is not modelled. Reading and writing `localStorage` (`src/hooks/useTasks.ts:66`, `81-83`) and JSON are outside the model. `InitialGroups` takes the outcome of reading and parsing as a `Stored` value. A parsed array is assumed to hold groups; nothing is validated, as in the source. Dates come back from JSON as strings, which the model does not represent.
- `uuidv4()` and `new Date()` are not modelled. They become parameters: `freshId`, the seven `ids` of the defaults, the three `dates` of the default tasks, and `now`. Freshness of a new id is an assumption of the well-formedness results, not something the model generates.
- The drag-and-drop library is not modelled: its geometry, its animations and how it computes indices. `DropResult` is taken as given. `StartsInList` states the library's guarantee that a drag starts at an existing position of its own list.
- `TaskBoard.HandleDragEnd`: it requires `StartsInList`. The source does not check this. With an out-of-range start, `splice` would insert `undefined`, and the model does not represent that.
- `UseTasks.TaskStore.ReorderTasks` and `UseTasks.TaskStore.ReorderSubtasks`: they require that the lane, or the parent's subtask list, has an element at the start index, for the same reason.
- The drag context (`src/components/DragContext.tsx:3-13`) is not modelled as a provider, because none is installed. Its default carries no source fields, so every row receives the empty state (`NoDrag`), for which no indicator is ever shown. `DropIndicators` models the rule for any reported state.
- `Partial<Task>` updates are modelled only for the fields the app passes: title, status and the expansion flag. `handleStatusChange` (`src/components/TaskItem.tsx:73-75`) is an `UpdateTask` with only the status set and has no member of its own. Updates that overwrite `id`, `subtasks` or `createdAt` are not modelled.
- `ReorderSubtasks`, `AddSubtask` and the insertion step of `MoveTaskToGroup` splice copies held as sequences. Only `ReorderTasks` goes through the in-place array method `Splice.SpliceMove`. Aliasing between the spread copies and the old state is not represented.
- React's scheduling is not modelled: batched `setGroups` updates, `useCallback` memoisation, and rendering and re-rendering. Each operation is one atomic state replacement.
- Presentation components are not modelled, including `Header`, `Sidebar`, `StatusBadge`, `TaskStatusIcon`, the `TaskGroup` layout and the `Index` page. Neither are CSS classes or icons.
- `src/pages/Index.tsx` wiring is not part of this model.
- Nesting depth is unbounded and there is no cycle check, as in the source. Trees are finite by construction.
