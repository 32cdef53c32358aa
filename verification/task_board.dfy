/**
 * The board's drop handler (src/components/TaskBoard.tsx): it decides,
 * from where a drag started and where it ended, which of the task hook's
 * operations to call.
 */
module TaskBoard {
  import opened TaskTypes
  import opened Forest
  import opened Splice
  import opened TaskTree
  import opened UseTasks

  /** A position in a droppable list: a lane (its id) or a subtask list ("subtasks-" + parent id). */
  datatype DraggableLocation = DraggableLocation(droppableId: string, index: nat)

  /** What the drag-and-drop library reports when a drag ends; no destination means dropped outside. */
  datatype DropResult = DropResult(
    draggableId: string,
    source: DraggableLocation,
    destination: Option<DraggableLocation>)

  /** The hook operation a drop issues, with its arguments. */
  datatype Call =
    | ReorderTasksCall(groupId: string, startIndex: nat, endIndex: nat)
    | MoveTaskToGroupCall(taskId: string, targetGroupId: string, targetIndex: nat)
    | ReorderSubtasksCall(groupId: string, parentTaskId: string, startIndex: nat, endIndex: nat)

  const SubtasksPrefix: string := "subtasks-"

  /** `groups.some(g => g.id === id)`. */
  predicate IsLane(gs: seq<TaskGroup>, id: string)
  {
    exists i :: 0 <= i < |gs| && gs[i].id == id
  }

  /** JavaScript truthiness of a `string | null`: null and the empty string are falsy. */
  predicate Truthy(r: Option<string>)
  {
    r.Some? && r.value != ""
  }

  /**
   * findParentGroup: depth first through `ts`, the lane id as soon as a
   * task with the parent id is met; a falsy answer from a subtree lets the
   * search go on with the next sibling.
   */
  function FindParentGroup(ts: seq<Task>, parentId: string, groupId: string): (r: Option<string>)
    ensures r.Some? ==> r.value == groupId
  {
    if ts == [] then None
    else if ts[0].id == parentId then Some(groupId)
    else
      var found := FindParentGroup(ts[0].subtasks, parentId, groupId);
      if Truthy(found) then found else FindParentGroup(ts[1..], parentId, groupId)
  }

  /** The search answers truthily exactly when the lane id is not empty and the parent is in the trees. */
  lemma {:induction false} FindParentGroupSpec(ts: seq<Task>, parentId: string, groupId: string)
    ensures Truthy(FindParentGroup(ts, parentId, groupId)) <==> groupId != "" && parentId in Ids(ts)
  {
    if ts != [] && ts[0].id != parentId {
      FindParentGroupSpec(ts[0].subtasks, parentId, groupId);
      FindParentGroupSpec(ts[1..], parentId, groupId);
    }
  }

  /** The outer loop over the lanes: the first lane whose search answers truthily. */
  function ParentGroup(gs: seq<TaskGroup>, parentId: string): (r: Option<string>)
  {
    if gs == [] then None
    else if Truthy(FindParentGroup(gs[0].tasks, parentId, gs[0].id)) then Some(gs[0].id)
    else ParentGroup(gs[1..], parentId)
  }

  /** The lane picked is the first one with a non-empty id holding the parent at any depth. */
  lemma {:induction false} ParentGroupSpec(gs: seq<TaskGroup>, parentId: string)
    ensures ParentGroup(gs, parentId).None? <==>
      forall i :: 0 <= i < |gs| ==> gs[i].id == "" || parentId !in Ids(gs[i].tasks)
    ensures ParentGroup(gs, parentId).Some? ==>
      exists i :: 0 <= i < |gs| && gs[i].id == ParentGroup(gs, parentId).value && gs[i].id != "" && parentId in Ids(gs[i].tasks)
        && forall k :: 0 <= k < i ==> gs[k].id == "" || parentId !in Ids(gs[k].tasks)
  {
    if gs != [] {
      FindParentGroupSpec(gs[0].tasks, parentId, gs[0].id);
      ParentGroupSpec(gs[1..], parentId);
      if !Truthy(FindParentGroup(gs[0].tasks, parentId, gs[0].id)) {
        assert forall i :: 1 <= i < |gs| ==> gs[i] == gs[1..][i - 1];
        if ParentGroup(gs[1..], parentId).Some? {
          var i :| 0 <= i < |gs[1..]| && gs[1..][i].id == ParentGroup(gs[1..], parentId).value && gs[1..][i].id != ""
            && parentId in Ids(gs[1..][i].tasks)
            && forall k :: 0 <= k < i ==> gs[1..][k].id == "" || parentId !in Ids(gs[1..][k].tasks);
          assert gs[i + 1] == gs[1..][i];
          assert forall k :: 0 <= k < i + 1 ==> gs[k].id == "" || parentId !in Ids(gs[k].tasks);
        }
      } else {
        assert gs[0].id == ParentGroup(gs, parentId).value;
      }
    }
  }

  /** In a well-formed forest, a parent in a lane with a non-empty id is found in that lane. */
  lemma {:induction false} ParentGroupOfLane(gs: seq<TaskGroup>, parentId: string, j: int)
    requires WellFormed(gs) && 0 <= j < |gs| && gs[j].id != "" && parentId in Ids(gs[j].tasks)
    ensures ParentGroup(gs, parentId) == Some(gs[j].id)
  {
    ParentGroupSpec(gs, parentId);
    var i :| 0 <= i < |gs| && gs[i].id == ParentGroup(gs, parentId).value && gs[i].id != "" && parentId in Ids(gs[i].tasks)
      && forall k :: 0 <= k < i ==> gs[k].id == "" || parentId !in Ids(gs[k].tasks);
    if i < j {
      LanesDisjoint(gs, i, j);
    }
  }

  /**
   * handleDragEnd's decision: nothing when dropped outside; a reorder when
   * dropped in the lane it started in (if the index changed); a move to
   * the lane when dropped on any other lane; a subtask reorder when dropped
   * in the subtask list it started in, in the first lane holding the parent;
   * nothing otherwise.
   */
  function DragEndCall(gs: seq<TaskGroup>, result: DropResult): (r: Option<Call>)
    ensures r.Some? ==> result.destination.Some?
    ensures r.Some? && r.value.MoveTaskToGroupCall? ==>
      r.value == MoveTaskToGroupCall(result.draggableId, result.destination.value.droppableId, result.destination.value.index)
      && IsLane(gs, r.value.targetGroupId)
    ensures r.Some? && r.value.ReorderTasksCall? ==>
      r.value == ReorderTasksCall(result.source.droppableId, result.source.index, result.destination.value.index)
      && result.source.droppableId == result.destination.value.droppableId
      && IsLane(gs, result.source.droppableId)
      && result.source.index != result.destination.value.index
    ensures r.Some? && r.value.ReorderSubtasksCall? ==>
      && SubtasksPrefix + r.value.parentTaskId == result.source.droppableId == result.destination.value.droppableId
      && !IsLane(gs, result.source.droppableId)
      && r.value.startIndex == result.source.index && r.value.endIndex == result.destination.value.index
      && ParentGroup(gs, r.value.parentTaskId) == Some(r.value.groupId)
  {
    if result.destination.None? then None
    else
      var source, destination := result.source, result.destination.value;
      var isDestGroup := IsLane(gs, destination.droppableId);
      var isSourceGroup := IsLane(gs, source.droppableId);
      if isSourceGroup && isDestGroup && source.droppableId == destination.droppableId then
        if source.index != destination.index then Some(ReorderTasksCall(source.droppableId, source.index, destination.index))
        else None
      else if isDestGroup then
        Some(MoveTaskToGroupCall(result.draggableId, destination.droppableId, destination.index))
      else if source.droppableId == destination.droppableId && SubtasksPrefix <= source.droppableId then
        var parentTaskId := source.droppableId[|SubtasksPrefix|..];
        assert SubtasksPrefix + parentTaskId == source.droppableId;
        match ParentGroup(gs, parentTaskId)
        case Some(groupId) => Some(ReorderSubtasksCall(groupId, parentTaskId, source.index, destination.index))
        case None => None
      else None
  }

  /** A drop outside any list, or back where it started in the same lane, issues nothing. */
  lemma {:induction false} DropNowhere(gs: seq<TaskGroup>, result: DropResult)
    requires || result.destination.None?
             || (IsLane(gs, result.source.droppableId) && result.destination == Some(result.source))
    ensures DragEndCall(gs, result) == None
  {
  }

  /** A drop in the lane it started in, at another position, reorders that lane's roots. */
  lemma {:induction false} DropInLane(gs: seq<TaskGroup>, result: DropResult, j: int)
    requires 0 <= j < |gs| && result.destination.Some?
    requires result.source.droppableId == gs[j].id == result.destination.value.droppableId
    requires result.source.index != result.destination.value.index
    ensures DragEndCall(gs, result) == Some(ReorderTasksCall(gs[j].id, result.source.index, result.destination.value.index))
  {
  }

  /** Dropping anywhere on a lane other than the lane it started in moves the task there. */
  lemma {:induction false} DropOnOtherLane(gs: seq<TaskGroup>, result: DropResult, j: int)
    requires 0 <= j < |gs| && result.destination.Some? && result.destination.value.droppableId == gs[j].id
    requires result.source.droppableId != gs[j].id
    ensures DragEndCall(gs, result) == Some(MoveTaskToGroupCall(result.draggableId, gs[j].id, result.destination.value.index))
  {
  }

  /** A drop from a subtask list into a list that is neither a lane nor that same list issues nothing. */
  lemma {:induction false} DropBetweenSubtaskLists(gs: seq<TaskGroup>, result: DropResult)
    requires result.destination.Some? && !IsLane(gs, result.destination.value.droppableId)
    requires result.destination.value.droppableId != result.source.droppableId || !(SubtasksPrefix <= result.source.droppableId)
    ensures DragEndCall(gs, result) == None
  {
  }

  /**
   * In a well-formed forest, a drop inside the subtask list of a parent
   * living in lane j reorders that parent's subtasks in lane j.
   */
  lemma {:induction false} DropInSubtaskList(gs: seq<TaskGroup>, result: DropResult, parentId: string, j: int)
    requires WellFormed(gs) && 0 <= j < |gs| && gs[j].id != "" && parentId in Ids(gs[j].tasks)
    requires result.source.droppableId == SubtasksPrefix + parentId
    requires result.destination.Some? && result.destination.value.droppableId == result.source.droppableId
    requires !IsLane(gs, result.source.droppableId)
    ensures DragEndCall(gs, result) ==
      Some(ReorderSubtasksCall(gs[j].id, parentId, result.source.index, result.destination.value.index))
  {
    var s := result.source.droppableId;
    assert SubtasksPrefix <= s;
    assert s[|SubtasksPrefix|..] == parentId;
    ParentGroupOfLane(gs, parentId, j);
  }

  // =====================================================================
  // Dispatching the call

  /**
   * What the library guarantees about where a drag starts: at an existing
   * position of the lane, or of the subtask list, it started in.
   */
  predicate StartsInList(gs: seq<TaskGroup>, source: DraggableLocation)
  {
    && ApplicableIn(gs, source.droppableId, ReorderRoots(source.index, 0))
    && (SubtasksPrefix <= source.droppableId ==>
         forall i :: 0 <= i < |gs| ==> StartInRange(gs[i].tasks, source.droppableId[|SubtasksPrefix|..], source.index))
  }

  /** The operation a call stands for. */
  function CallOp(call: Call): (op: LaneOp)
    requires !call.MoveTaskToGroupCall?
  {
    match call
    case ReorderTasksCall(_, startIndex, endIndex) => ReorderRoots(startIndex, endIndex)
    case ReorderSubtasksCall(_, parentTaskId, startIndex, endIndex) => ReorderChildren(parentTaskId, startIndex, endIndex)
  }

  /** The forest after the drop: the call's operation applied, or the forest unchanged. */
  function AfterDrop(gs: seq<TaskGroup>, result: DropResult): (r: seq<TaskGroup>)
    requires StartsInList(gs, result.source)
    ensures DragEndCall(gs, result).None? ==> r == gs
    ensures WellFormed(gs) ==> WellFormed(r)
  {
    match DragEndCall(gs, result)
    case None => gs
    case Some(MoveTaskToGroupCall(taskId, targetGroupId, targetIndex)) =>
      assert WellFormed(gs) ==> WellFormed(MoveTask(gs, taskId, targetGroupId, targetIndex)) by {
        if WellFormed(gs) {
          MoveTaskWellFormed(gs, taskId, targetGroupId, targetIndex);
        }
      }
      MoveTask(gs, taskId, targetGroupId, targetIndex)
    case Some(ReorderTasksCall(groupId, startIndex, endIndex)) =>
      var op := ReorderRoots(startIndex, endIndex);
      assert ApplicableIn(gs, groupId, op);
      assert WellFormed(gs) ==> WellFormed(OnLane(gs, groupId, op)) by {
        if WellFormed(gs) {
          OnLaneKeepsWellFormed(gs, groupId, op);
        }
      }
      OnLane(gs, groupId, op)
    case Some(ReorderSubtasksCall(groupId, parentTaskId, startIndex, endIndex)) =>
      var op := ReorderChildren(parentTaskId, startIndex, endIndex);
      assert ApplicableIn(gs, groupId, op);
      assert WellFormed(gs) ==> WellFormed(OnLane(gs, groupId, op)) by {
        if WellFormed(gs) {
          OnLaneKeepsWellFormed(gs, groupId, op);
        }
      }
      OnLane(gs, groupId, op)
  }

  /**
   * In a well-formed forest, a task dropped on another lane j lands, with
   * its subtree, at the dropped position of lane j, and the forest keeps
   * exactly its tasks.
   */
  lemma {:induction false} DropMovesTask(gs: seq<TaskGroup>, result: DropResult, j: int)
    requires WellFormed(gs) && StartsInList(gs, result.source) && 0 <= j < |gs|
    requires result.destination.Some? && result.destination.value.droppableId == gs[j].id
    requires result.source.droppableId != gs[j].id && result.draggableId in Ids(AllTasks(gs))
    ensures Find(AllTasks(gs), result.draggableId).Some?
    ensures 0 < |AfterDrop(gs, result)[j].tasks|
    ensures AfterDrop(gs, result)[j].tasks[ClampIndex(result.destination.value.index, |AfterDrop(gs, result)[j].tasks| - 1)]
      == Find(AllTasks(gs), result.draggableId).value
    ensures Ids(AllTasks(AfterDrop(gs, result))) == Ids(AllTasks(gs))
    ensures Size(AllTasks(AfterDrop(gs, result))) == Size(AllTasks(gs))
  {
    DropOnOtherLane(gs, result, j);
    MoveTaskArrives(gs, result.draggableId, j, result.destination.value.index);
  }

  /**
   * handleDragEnd: the same decision, taken step by step with a loop over
   * the lanes for the subtask case, followed by the hook call.
   */
  method HandleDragEnd(store: TaskStore, result: DropResult)
    requires StartsInList(store.groups, result.source)
    modifies store
    ensures store.groups == AfterDrop(old(store.groups), result)
    ensures old(store.Valid()) ==> store.Valid()
  {
    var gs := store.groups;
    if result.destination.None? {
      return;
    }
    var source, destination := result.source, result.destination.value;
    var isDestGroup := IsLane(gs, destination.droppableId);
    var isSourceGroup := IsLane(gs, source.droppableId);
    if isSourceGroup && isDestGroup && source.droppableId == destination.droppableId {
      if source.index != destination.index {
        store.ReorderTasks(source.droppableId, source.index, destination.index);
      }
      return;
    }
    if isDestGroup {
      store.MoveTaskToGroup(result.draggableId, destination.droppableId, destination.index);
      return;
    }
    if source.droppableId == destination.droppableId && SubtasksPrefix <= source.droppableId {
      var parentTaskId := source.droppableId[|SubtasksPrefix|..];
      var i := 0;
      while i < |gs|
        invariant 0 <= i <= |gs| && store.groups == gs
        invariant ParentGroup(gs, parentTaskId) == ParentGroup(gs[i..], parentTaskId)
      {
        assert gs[i..][1..] == gs[i + 1..];
        var groupId := FindParentGroup(gs[i].tasks, parentTaskId, gs[i].id);
        if Truthy(groupId) {
          assert ApplicableIn(gs, groupId.value, ReorderChildren(parentTaskId, source.index, destination.index));
          store.ReorderSubtasks(groupId.value, parentTaskId, source.index, destination.index);
          return;
        }
        i := i + 1;
      }
    }
  }
}
