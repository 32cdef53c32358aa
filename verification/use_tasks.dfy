/**
 * The task hook (src/hooks/useTasks.ts): the forest of lanes held as state,
 * and the operations that replace it. Each operation applies one of the
 * tree rebuilds of TaskTree to the root tasks of the lanes with a given id;
 * moveTaskToGroup detaches a task from anywhere and inserts it as a root.
 */
module UseTasks {
  import opened TaskTypes
  import opened Forest
  import opened Splice
  import opened TaskTree

  // =====================================================================
  // Operations on the root tasks of one lane

  /** What an operation does to the root tasks of a lane it applies to. */
  datatype LaneOp =
    | AppendRoot(task: Task)
    | AttachSubtask(path: seq<string>, parentId: string, child: Task)
    | Update(id: string, u: TaskUpdate)
    | Delete(id: string)
    | ToggleTask(id: string)
    | ReorderRoots(start: nat, end: int)
    | ReorderChildren(parentId: string, start: nat, end: int)
    | InsertRoot(index: int, task: Task)

  /** The splices need an element at the start index; every other operation is total. */
  predicate Applicable(ts: seq<Task>, op: LaneOp)
  {
    match op
    case ReorderRoots(start, _) => start < |ts|
    case ReorderChildren(parentId, start, _) => StartInRange(ts, parentId, start)
    case _ => true
  }

  /**
   * The rebuilds keep the roots (and their ids) in place, the two inserts
   * add exactly one root, a root reorder permutes the roots, and deletion
   * never adds one.
   */
  function ApplyOp(ts: seq<Task>, op: LaneOp): (r: seq<Task>)
    requires Applicable(ts, op)
    ensures op.AttachSubtask? || op.Update? || op.ToggleTask? || op.ReorderChildren? ==>
      |r| == |ts| && forall i :: 0 <= i < |ts| ==> r[i].id == ts[i].id
    ensures op.AppendRoot? || op.InsertRoot? ==> multiset(r) == multiset(ts) + multiset{op.task}
    ensures op.ReorderRoots? ==> multiset(r) == multiset(ts)
    ensures op.Delete? ==> |r| <= |ts|
  {
    match op
    case AppendRoot(t) => ts + [t]
    case AttachSubtask(path, parentId, child) => AddSubtaskRecursive(ts, path, parentId, child)
    case Update(id, u) => UpdateRecursive(ts, id, u)
    case Delete(id) => DeleteRecursive(ts, id)
    case ToggleTask(id) => ToggleRecursive(ts, id)
    case ReorderRoots(start, end) => ReorderPermutes(ts, start, end); Reorder(ts, start, end)
    case ReorderChildren(parentId, start, end) => ReorderRecursive(ts, parentId, start, end)
    case InsertRoot(index, t) => InsertAtPermutes(ts, index, t); InsertAt(ts, index, t)
  }

  /** The trees an operation brings into the lane. */
  function Incoming(op: LaneOp): seq<Task>
  {
    match op
    case AppendRoot(t) => [t]
    case AttachSubtask(_, _, child) => [child]
    case InsertRoot(_, t) => [t]
    case _ => []
  }

  /**
   * Every operation keeps ids unique when what it brings in is unique and
   * new, and the only ids it can introduce are those it brings in.
   */
  lemma {:induction false} ApplyOpKeepsUnique(ts: seq<Task>, op: LaneOp)
    requires Applicable(ts, op) && Unique(ts)
    requires Unique(Incoming(op)) && Ids(Incoming(op)) !! Ids(ts)
    ensures Unique(ApplyOp(ts, op))
    ensures Ids(ApplyOp(ts, op)) <= Ids(ts) + Ids(Incoming(op))
  {
    match op
    case AppendRoot(t) =>
      UniqueAppend(ts, [t]);
      IdsAppend(ts, [t]);
    case AttachSubtask(path, parentId, child) =>
      AddSubtaskUnique(ts, path, parentId, child);
      AddSubtaskGrows(ts, path, parentId, child);
    case Update(id, u) =>
      UpdateKeepsIds(ts, id, u);
    case Delete(id) =>
      DeleteRemoves(ts, id);
    case ToggleTask(id) =>
      ToggleKeepsIds(ts, id);
    case ReorderRoots(start, end) =>
      ReorderPermutes(ts, start, end);
      PermutationInvariant(Reorder(ts, start, end), ts);
    case ReorderChildren(parentId, start, end) =>
      ReorderSubtasksKeepsIds(ts, parentId, start, end);
    case InsertRoot(index, t) =>
      InsertAtPermutes(ts, index, t);
      assert multiset(ts + [t]) == multiset(ts) + multiset{t};
      PermutationInvariant(InsertAt(ts, index, t), ts + [t]);
      UniqueAppend(ts, [t]);
      IdsAppend(ts, [t]);
  }

  // =====================================================================
  // The lane-level `map`

  predicate ApplicableIn(gs: seq<TaskGroup>, groupId: string, op: LaneOp)
  {
    forall i :: 0 <= i < |gs| && gs[i].id == groupId ==> Applicable(gs[i].tasks, op)
  }

  /**
   * `prev.map(group => group.id === groupId ? { ...group, tasks: f(group.tasks) } : group)`:
   * only the root tasks of the lanes with that id change.
   */
  function OnLane(gs: seq<TaskGroup>, groupId: string, op: LaneOp): (r: seq<TaskGroup>)
    requires ApplicableIn(gs, groupId, op)
    ensures |r| == |gs|
    ensures forall i :: 0 <= i < |gs| ==> r[i].(tasks := gs[i].tasks) == gs[i]
    ensures forall i :: 0 <= i < |gs| && gs[i].id != groupId ==> r[i] == gs[i]
  {
    seq(|gs|, i requires 0 <= i < |gs| =>
      if gs[i].id == groupId then gs[i].(tasks := ApplyOp(gs[i].tasks, op)) else gs[i])
  }

  /** An unknown lane id leaves the forest unchanged. */
  lemma {:induction false} OnLaneUnknown(gs: seq<TaskGroup>, groupId: string, op: LaneOp)
    requires forall i :: 0 <= i < |gs| ==> gs[i].id != groupId
    ensures ApplicableIn(gs, groupId, op)
    ensures OnLane(gs, groupId, op) == gs
  {
  }

  /** With distinct lane ids, exactly lane j changes, and it gets the operation's result. */
  lemma {:induction false} OnLaneAt(gs: seq<TaskGroup>, j: int, op: LaneOp)
    requires DistinctGroupIds(gs) && 0 <= j < |gs|
    requires Applicable(gs[j].tasks, op)
    ensures ApplicableIn(gs, gs[j].id, op)
    ensures OnLane(gs, gs[j].id, op) == gs[j := gs[j].(tasks := ApplyOp(gs[j].tasks, op))]
  {
    var r := OnLane(gs, gs[j].id, op);
    assert forall i :: 0 <= i < |gs| && i != j ==> gs[i].id != gs[j].id;
    assert forall i :: 0 <= i < |gs| ==> r[i] == gs[j := gs[j].(tasks := ApplyOp(gs[j].tasks, op))][i];
  }

  /** The root tasks of lane j are among the forest's ids, and unique when the forest's are. */
  lemma {:induction false} LaneIdsInForest(gs: seq<TaskGroup>, j: int)
    requires 0 <= j < |gs|
    ensures Ids(gs[j].tasks) <= Ids(AllTasks(gs))
    ensures Unique(AllTasks(gs)) ==> Unique(gs[j].tasks)
  {
    AllTasksSplit(gs, j);
    IdsAppend(AllTasks(gs[..j]) + gs[j].tasks, AllTasks(gs[j + 1..]));
    IdsAppend(AllTasks(gs[..j]), gs[j].tasks);
    UniqueAppend(AllTasks(gs[..j]) + gs[j].tasks, AllTasks(gs[j + 1..]));
    UniqueAppend(AllTasks(gs[..j]), gs[j].tasks);
  }

  /** Every lane operation keeps the forest well formed when what it brings in is fresh. */
  lemma {:induction false} OnLaneKeepsWellFormed(gs: seq<TaskGroup>, groupId: string, op: LaneOp)
    requires WellFormed(gs) && ApplicableIn(gs, groupId, op)
    requires Unique(Incoming(op)) && Ids(Incoming(op)) !! Ids(AllTasks(gs))
    ensures WellFormed(OnLane(gs, groupId, op))
  {
    if j :| 0 <= j < |gs| && gs[j].id == groupId {
      OnLaneAt(gs, j, op);
      LaneIdsInForest(gs, j);
      ApplyOpKeepsUnique(gs[j].tasks, op);
      ReplaceTasksWellFormed(gs, j, ApplyOp(gs[j].tasks, op));
    } else {
      OnLaneUnknown(gs, groupId, op);
    }
  }

  /** Lanes whose root tasks are the same hold the same tasks. */
  lemma {:induction false} AllTasksOfSameLanes(gs: seq<TaskGroup>, hs: seq<TaskGroup>)
    requires |gs| == |hs| && forall i :: 0 <= i < |gs| ==> gs[i].tasks == hs[i].tasks
    ensures AllTasks(gs) == AllTasks(hs)
  {
    if gs != [] {
      AllTasksOfSameLanes(gs[1..], hs[1..]);
    }
  }

  // =====================================================================
  // toggleGroupExpand

  /** Flips the expansion flag of the lanes with the id; nothing else changes. */
  function ToggleLane(gs: seq<TaskGroup>, groupId: string): (r: seq<TaskGroup>)
    ensures |r| == |gs|
    ensures forall i :: 0 <= i < |gs| ==> r[i].(isExpanded := gs[i].isExpanded) == gs[i]
    ensures forall i :: 0 <= i < |gs| ==> r[i].isExpanded == (if gs[i].id == groupId then !gs[i].isExpanded else gs[i].isExpanded)
  {
    seq(|gs|, i requires 0 <= i < |gs| =>
      if gs[i].id == groupId then gs[i].(isExpanded := !gs[i].isExpanded) else gs[i])
  }

  /** Toggling a lane twice restores the forest, and no task is touched. */
  lemma {:induction false} ToggleLaneInvolution(gs: seq<TaskGroup>, groupId: string)
    ensures ToggleLane(ToggleLane(gs, groupId), groupId) == gs
    ensures AllTasks(ToggleLane(gs, groupId)) == AllTasks(gs)
    ensures WellFormed(gs) ==> WellFormed(ToggleLane(gs, groupId))
  {
    var r := ToggleLane(gs, groupId);
    assert forall i :: 0 <= i < |gs| ==> ToggleLane(r, groupId)[i] == gs[i];
    AllTasksOfSameLanes(r, gs);
  }

  // =====================================================================
  // moveTaskToGroup

  /** The lanes after the detaching pass, and the task it took out. */
  datatype LaneRemoval = LaneRemoval(groups: seq<TaskGroup>, moved: Option<Task>)

  /**
   * The first `map` of moveTaskToGroup: findAndRemoveTask runs on every
   * lane, and the captured `taskToMove` keeps the last removal.
   */
  function RemoveFromLanes(gs: seq<TaskGroup>, id: string): (r: LaneRemoval)
    ensures |r.groups| == |gs|
    ensures forall i :: 0 <= i < |gs| ==> r.groups[i].(tasks := gs[i].tasks) == gs[i]
    decreases |gs|
  {
    if gs == [] then LaneRemoval([], None)
    else
      var init := RemoveFromLanes(gs[..|gs| - 1], id);
      var g := gs[|gs| - 1];
      var result := FindAndRemoveTask(g.tasks, id);
      if result.removed.Some? then LaneRemoval(init.groups + [g.(tasks := result.tasks)], result.removed)
      else LaneRemoval(init.groups + [g], init.moved)
  }

  /** moveTaskToGroup: detach, then insert as a root of the target lanes, or do nothing if not found. */
  function MoveTask(gs: seq<TaskGroup>, id: string, targetGroupId: string, targetIndex: int): (r: seq<TaskGroup>)
    ensures |r| == |gs|
    ensures forall i :: 0 <= i < |gs| ==> r[i].(tasks := gs[i].tasks) == gs[i]
  {
    var removal := RemoveFromLanes(gs, id);
    if removal.moved.None? then gs
    else OnLane(removal.groups, targetGroupId, InsertRoot(targetIndex, removal.moved.value))
  }

  lemma {:induction false} AllTasksSnoc(gs: seq<TaskGroup>)
    requires gs != []
    ensures AllTasks(gs) == AllTasks(gs[..|gs| - 1]) + gs[|gs| - 1].tasks
  {
    AllTasksSplit(gs, |gs| - 1);
    assert gs[|gs|..] == [];
  }

  /** A task found nowhere is not moved, and no lane changes. */
  lemma {:induction false} RemoveFromLanesAbsent(gs: seq<TaskGroup>, id: string)
    requires id !in Ids(AllTasks(gs))
    ensures RemoveFromLanes(gs, id) == LaneRemoval(gs, None)
    decreases |gs|
  {
    if gs != [] {
      var init := gs[..|gs| - 1];
      var g := gs[|gs| - 1];
      AllTasksSnoc(gs);
      IdsAppend(AllTasks(init), g.tasks);
      RemoveFromLanesAbsent(init, id);
      FindAndRemoveAbsent(g.tasks, id);
      assert gs == init + [g];
    }
  }

  /** The detaching step on the last lane `b`, when the task is in that lane. */
  lemma {:induction false} RemovedFromLast(a: seq<Task>, b: seq<Task>, id: string)
    requires Unique(a + b) && FindAndRemoveTask(b, id).removed.Some?
    ensures id !in Ids(a)
    ensures Find(a + b, id) == Some(FindAndRemoveTask(b, id).removed.value)
    ensures Unique(a + FindAndRemoveTask(b, id).tasks)
    ensures Ids(a + FindAndRemoveTask(b, id).tasks) == Ids(a + b) - Ids([FindAndRemoveTask(b, id).removed.value])
    ensures Size(a + FindAndRemoveTask(b, id).tasks) + Size([FindAndRemoveTask(b, id).removed.value]) == Size(a + b)
  {
    var b' := FindAndRemoveTask(b, id).tasks;
    UniqueAppend(a, b);
    IdsAppend(a, b);
    FindAndRemoveUnique(b, id);
    FindFound(b, id);
    FindFound(a, id);
    FindAppend(a, b, id);
    UniqueAppend(a, b');
    IdsAppend(a, b');
    SizeAppend(a, b);
    SizeAppend(a, b');
  }

  /** The detaching step on the last lane `b`, when the task is not in that lane. */
  lemma {:induction false} RemovedBeforeLast(a: seq<Task>, a': seq<Task>, b: seq<Task>, id: string, moved: Option<Task>)
    requires Unique(a + b) && FindAndRemoveTask(b, id).removed.None?
    requires moved == Find(a, id) && Unique(a')
    requires moved.Some? ==> Ids(a') == Ids(a) - Ids([moved.value]) && Size(a') + Size([moved.value]) == Size(a)
    requires moved.None? ==> a' == a
    ensures moved == Find(a + b, id)
    ensures Unique(a' + b)
    ensures moved.Some? ==>
      && Ids(a' + b) == Ids(a + b) - Ids([moved.value])
      && Size(a' + b) + Size([moved.value]) == Size(a + b)
  {
    UniqueAppend(a, b);
    IdsAppend(a, b);
    FindAndRemoveAbsent(b, id);
    FindFound(a, id);
    FindFound(b, id);
    FindAppend(a, b, id);
    UniqueAppend(a', b);
    IdsAppend(a', b);
    SizeAppend(a, b);
    SizeAppend(a', b);
  }

  /**
   * On a forest with unique ids, the detaching pass takes out the task Find
   * gives, with its subtree, and nothing else.
   */
  lemma {:induction false} RemoveFromLanesUnique(gs: seq<TaskGroup>, id: string)
    requires Unique(AllTasks(gs))
    ensures RemoveFromLanes(gs, id).moved == Find(AllTasks(gs), id)
    ensures Unique(AllTasks(RemoveFromLanes(gs, id).groups))
    ensures RemoveFromLanes(gs, id).moved.None? ==> RemoveFromLanes(gs, id).groups == gs
    ensures RemoveFromLanes(gs, id).moved.Some? ==>
      && Ids(AllTasks(RemoveFromLanes(gs, id).groups)) == Ids(AllTasks(gs)) - Ids([RemoveFromLanes(gs, id).moved.value])
      && Size(AllTasks(RemoveFromLanes(gs, id).groups)) + Size([RemoveFromLanes(gs, id).moved.value]) == Size(AllTasks(gs))
    decreases |gs|
  {
    if gs != [] {
      var init := gs[..|gs| - 1];
      var g := gs[|gs| - 1];
      assert gs == init + [g];
      var a := AllTasks(init);
      var rm := RemoveFromLanes(init, id);
      var r := RemoveFromLanes(gs, id);
      AllTasksSnoc(gs);
      AllTasksSnoc(r.groups);
      UniqueAppend(a, g.tasks);
      var result := FindAndRemoveTask(g.tasks, id);
      if result.removed.Some? {
        RemovedFromLast(a, g.tasks, id);
        RemoveFromLanesAbsent(init, id);
        assert r.groups[..|gs| - 1] == init;
      } else {
        RemoveFromLanesUnique(init, id);
        assert r.groups[..|gs| - 1] == rm.groups;
        assert r.groups[|gs| - 1] == g;
        RemovedBeforeLast(a, AllTasks(rm.groups), g.tasks, id, rm.moved);
        FindAndRemoveAbsent(g.tasks, id);
      }
    }
  }

  /** A task found nowhere leaves the forest exactly as it was. */
  lemma {:induction false} MoveTaskAbsent(gs: seq<TaskGroup>, id: string, targetGroupId: string, targetIndex: int)
    requires id !in Ids(AllTasks(gs))
    ensures MoveTask(gs, id, targetGroupId, targetIndex) == gs
  {
    RemoveFromLanesAbsent(gs, id);
  }

  /** With unique ids, two different lanes share no id. */
  lemma {:induction false} LanesDisjoint(gs: seq<TaskGroup>, i: int, j: int)
    requires Unique(AllTasks(gs)) && 0 <= i < j < |gs|
    ensures Ids(gs[i].tasks) !! Ids(gs[j].tasks)
  {
    AllTasksSplit(gs, j);
    var pre, post := AllTasks(gs[..j]), AllTasks(gs[j + 1..]);
    UniqueAppend(pre + gs[j].tasks, post);
    UniqueAppend(pre, gs[j].tasks);
    IdsAppend(pre, gs[j].tasks);
    LaneIdsInForest(gs[..j], i);
  }

  /** After the detaching pass on a well-formed forest, the rest of the forest is well formed. */
  lemma {:induction false} DetachedForest(gs: seq<TaskGroup>, id: string)
    requires WellFormed(gs) && id in Ids(AllTasks(gs))
    ensures Find(AllTasks(gs), id).Some?
    ensures RemoveFromLanes(gs, id).moved == Some(Find(AllTasks(gs), id).value)
    ensures WellFormed(RemoveFromLanes(gs, id).groups) && Unique([Find(AllTasks(gs), id).value])
    ensures Ids(AllTasks(RemoveFromLanes(gs, id).groups)) == Ids(AllTasks(gs)) - Ids([Find(AllTasks(gs), id).value])
    ensures Size(AllTasks(RemoveFromLanes(gs, id).groups)) + Size([Find(AllTasks(gs), id).value]) == Size(AllTasks(gs))
    ensures Ids([Find(AllTasks(gs), id).value]) <= Ids(AllTasks(gs))
    ensures Find(AllTasks(gs), id).value.id == id
  {
    FindFound(AllTasks(gs), id);
    var x := Find(AllTasks(gs), id).value;
    RemoveFromLanesUnique(gs, id);
    var hs := RemoveFromLanes(gs, id).groups;
    assert forall i :: 0 <= i < |hs| ==> hs[i].id == gs[i].id;
    FindIsUnique(AllTasks(gs), id);
  }

  /** A task found in unique trees has unique ids itself. */
  lemma {:induction false} FindIsUnique(ts: seq<Task>, id: string)
    requires Unique(ts) && Find(ts, id).Some?
    ensures Unique([Find(ts, id).value])
  {
    SingletonTail(ts[0]);
    if ts[0].id != id {
      if Find(ts[0].subtasks, id).Some? {
        FindIsUnique(ts[0].subtasks, id);
      } else {
        FindIsUnique(ts[1..], id);
      }
    }
  }

  /** Inserting a fresh tree x among unique trees adds exactly its tasks and keeps ids unique. */
  lemma {:induction false} InsertedTree(ts: seq<Task>, i: int, x: Task)
    requires Unique(ts) && Unique([x]) && Ids([x]) !! Ids(ts)
    ensures Unique(InsertAt(ts, i, x))
    ensures Ids(InsertAt(ts, i, x)) == Ids(ts) + Ids([x])
    ensures Size(InsertAt(ts, i, x)) == Size(ts) + Size([x])
  {
    InsertAtPermutes(ts, i, x);
    assert multiset(ts + [x]) == multiset(ts) + multiset{x};
    PermutationInvariant(InsertAt(ts, i, x), ts + [x]);
    UniqueAppend(ts, [x]);
    IdsAppend(ts, [x]);
    SizeAppend(ts, [x]);
  }

  /** Inserting a fresh tree x as a root of lane j puts it at the clamped index and adds exactly its tasks. */
  lemma {:induction false} InsertedRoot(hs: seq<TaskGroup>, j: int, targetIndex: int, x: Task)
    requires WellFormed(hs) && 0 <= j < |hs|
    requires Unique([x]) && Ids([x]) !! Ids(AllTasks(hs))
    ensures OnLane(hs, hs[j].id, InsertRoot(targetIndex, x)) == hs[j := hs[j].(tasks := InsertAt(hs[j].tasks, targetIndex, x))]
    ensures WellFormed(OnLane(hs, hs[j].id, InsertRoot(targetIndex, x)))
    ensures Ids(AllTasks(OnLane(hs, hs[j].id, InsertRoot(targetIndex, x)))) == Ids(AllTasks(hs)) + Ids([x])
    ensures Size(AllTasks(OnLane(hs, hs[j].id, InsertRoot(targetIndex, x)))) == Size(AllTasks(hs)) + Size([x])
  {
    var ts := hs[j].tasks;
    var ts' := InsertAt(ts, targetIndex, x);
    OnLaneAt(hs, j, InsertRoot(targetIndex, x));
    LaneIdsInForest(hs, j);
    InsertedTree(ts, targetIndex, x);
    ReplaceTasksWellFormed(hs, j, ts');
  }

  /**
   * On a well-formed forest, a task found somewhere ends up, with its
   * subtree intact, as a root of target lane j at the insertion position
   * splice uses; it is in no other lane, every lane keeps its own fields,
   * and no task is gained or lost.
   */
  lemma {:induction false} MoveTaskArrives(gs: seq<TaskGroup>, id: string, j: int, targetIndex: int)
    requires WellFormed(gs) && 0 <= j < |gs| && id in Ids(AllTasks(gs))
    ensures Find(AllTasks(gs), id).Some?
    ensures |MoveTask(gs, id, gs[j].id, targetIndex)| == |gs|
    ensures (forall i :: 0 <= i < |gs| ==> MoveTask(gs, id, gs[j].id, targetIndex)[i].(tasks := gs[i].tasks) == gs[i])
    ensures 0 < |MoveTask(gs, id, gs[j].id, targetIndex)[j].tasks|
    ensures MoveTask(gs, id, gs[j].id, targetIndex)[j].tasks[ClampIndex(targetIndex, |MoveTask(gs, id, gs[j].id, targetIndex)[j].tasks| - 1)] == Find(AllTasks(gs), id).value
    ensures (forall i :: 0 <= i < |gs| && i != j ==> id !in Ids(MoveTask(gs, id, gs[j].id, targetIndex)[i].tasks))
    ensures WellFormed(MoveTask(gs, id, gs[j].id, targetIndex))
    ensures Ids(AllTasks(MoveTask(gs, id, gs[j].id, targetIndex))) == Ids(AllTasks(gs))
    ensures Size(AllTasks(MoveTask(gs, id, gs[j].id, targetIndex))) == Size(AllTasks(gs))
  {
    DetachedForest(gs, id);
    var x := Find(AllTasks(gs), id).value;
    var hs := RemoveFromLanes(gs, id).groups;
    InsertedRoot(hs, j, targetIndex, x);
    var r := MoveTask(gs, id, gs[j].id, targetIndex);
    assert r[j].tasks == InsertAt(hs[j].tasks, targetIndex, x);
    RootIdsInIds(r[j].tasks, ClampIndex(targetIndex, |hs[j].tasks|));
    forall i | 0 <= i < |gs| && i != j
      ensures id !in Ids(r[i].tasks)
    {
      if i < j {
        LanesDisjoint(r, i, j);
      } else {
        LanesDisjoint(r, j, i);
      }
    }
  }

  /**
   * With no lane of the target id, the task is detached but never inserted:
   * it and its subtree are lost from the forest.
   */
  lemma {:induction false} MoveTaskUnknownTarget(gs: seq<TaskGroup>, id: string, targetGroupId: string, targetIndex: int)
    requires WellFormed(gs) && id in Ids(AllTasks(gs))
    requires forall i :: 0 <= i < |gs| ==> gs[i].id != targetGroupId
    ensures Find(AllTasks(gs), id).Some?
    ensures WellFormed(MoveTask(gs, id, targetGroupId, targetIndex))
    ensures Ids(AllTasks(MoveTask(gs, id, targetGroupId, targetIndex))) == Ids(AllTasks(gs)) - Ids([Find(AllTasks(gs), id).value])
    ensures id !in Ids(AllTasks(MoveTask(gs, id, targetGroupId, targetIndex)))
  {
    DetachedForest(gs, id);
    var x := Find(AllTasks(gs), id).value;
    SingletonTail(x);
    var hs := RemoveFromLanes(gs, id).groups;
    OnLaneUnknown(hs, targetGroupId, InsertRoot(targetIndex, x));
  }

  // =====================================================================
  // Initial state

  /** What the storage key held, once read and parsed; an empty string counts as missing. */
  datatype Stored = Missing | Unparsable | NotAnArray | ParsedArray(items: seq<TaskGroup>)

  /**
   * The state initialiser: a non-empty parsed array is used as it is, and
   * anything else falls back to the default lanes.
   */
  function InitialGroups(stored: Stored, defaults: seq<TaskGroup>): (r: seq<TaskGroup>)
    ensures stored.ParsedArray? && stored.items != [] ==> r == stored.items
    ensures !(stored.ParsedArray? && stored.items != []) ==> r == defaults
    ensures |defaults| > 0 ==> |r| > 0
  {
    if stored.ParsedArray? && |stored.items| > 0 then stored.items else defaults
  }

  /**
   * The four default lanes, all expanded: blocked (holding one expanded
   * blocked task with two todo subtasks), todo, in progress and done.
   * `ids` are the seven uuids generated when the module loads, and
   * `dates` the creation times of the root task and its two subtasks.
   */
  function DefaultGroups(ids: seq<string>, dates: seq<Timestamp>): (r: seq<TaskGroup>)
    requires |ids| == 7 && |dates| == 3
    ensures |r| == 4
    ensures [r[0].status, r[1].status, r[2].status, r[3].status] == [Blocked, Todo, InProgress, Done]
    ensures forall i :: 0 <= i < 4 ==> r[i].isExpanded && r[i].id == ids[[0, 4, 5, 6][i]]
  {
    var sub1 := Task(ids[2], "Subtask 1", Todo, [], false, dates[1]);
    var sub2 := Task(ids[3], "Subtask 2", Todo, [], false, dates[2]);
    var root := Task(ids[1], "Task (matriz)", Blocked, [sub1, sub2], true, dates[0]);
    [ TaskGroup(ids[0], "BLOQUEADO", Blocked, [root], true),
      TaskGroup(ids[4], "A FAZER", Todo, [], true),
      TaskGroup(ids[5], "EM PROGRESSO", InProgress, [], true),
      TaskGroup(ids[6], "CONCLU\U{00CD}DO", Done, [], true) ]
  }

  /** With distinct uuids, the default forest is well formed: one lane per status, three tasks. */
  lemma {:induction false} DefaultGroupsWellFormed(ids: seq<string>, dates: seq<Timestamp>)
    requires |ids| == 7 && |dates| == 3 && forall i, j :: 0 <= i < j < 7 ==> ids[i] != ids[j]
    ensures WellFormed(DefaultGroups(ids, dates))
    ensures Size(AllTasks(DefaultGroups(ids, dates))) == 3
    ensures Ids(AllTasks(DefaultGroups(ids, dates))) == {ids[1], ids[2], ids[3]}
  {
    var gs := DefaultGroups(ids, dates);
    var root := gs[0].tasks[0];
    var sub1, sub2 := root.subtasks[0], root.subtasks[1];
    assert gs[3..][1..] == [];
    assert AllTasks(gs[3..]) == [];
    assert gs[2..][1..] == gs[3..];
    assert AllTasks(gs[2..]) == [];
    assert gs[1..][1..] == gs[2..];
    assert AllTasks(gs[1..]) == [];
    assert AllTasks(gs) == [root];
    SingletonTail(sub1);
    SingletonTail(sub2);
    SingletonTail(root);
    assert root.subtasks[1..] == [sub2];
    assert Ids(root.subtasks) == {ids[2], ids[3]};
  }

  // =====================================================================
  // getSubtaskCount

  /** The number of descendants: the children, plus each child's count, accumulated in a loop. */
  method GetSubtaskCount(task: Task) returns (count: nat)
    ensures count == Size(task.subtasks)
    decreases task
  {
    count := |task.subtasks|;
    for i := 0 to |task.subtasks|
      invariant count + i == |task.subtasks| + Size(task.subtasks[..i])
    {
      var sub := task.subtasks[i];
      var c := GetSubtaskCount(sub);
      assert task.subtasks[..i + 1] == task.subtasks[..i] + [sub];
      SizeAppend(task.subtasks[..i], [sub]);
      SingletonTail(sub);
      count := count + c;
    }
    assert task.subtasks[..|task.subtasks|] == task.subtasks;
  }

  /** A leaf has no descendants; a task counts its children and all of theirs. */
  lemma {:induction false} SubtaskCountShape(task: Task)
    ensures task.subtasks == [] ==> Size(task.subtasks) == 0
    ensures Size(task.subtasks) >= |task.subtasks|
    ensures Size([task]) == 1 + Size(task.subtasks)
  {
    SingletonTail(task);
    SizeAtLeastLength(task.subtasks);
  }

  lemma {:induction false} SizeAtLeastLength(ts: seq<Task>)
    ensures Size(ts) >= |ts|
  {
    if ts != [] {
      SizeAtLeastLength(ts[1..]);
    }
  }

  // =====================================================================
  // The hook's state

  /** The `groups` state; every operation replaces it with a new forest. */
  class TaskStore {
    var groups: seq<TaskGroup>

    /** Task ids unique across the forest and lane ids distinct. */
    ghost predicate Valid()
      reads this
    {
      WellFormed(groups)
    }

    /** The lazy initialiser of the state, given what storage held. */
    constructor(stored: Stored, defaults: seq<TaskGroup>)
      ensures groups == InitialGroups(stored, defaults)
      ensures !(stored.ParsedArray? && stored.items != []) && WellFormed(defaults) ==> Valid()
      ensures stored.ParsedArray? && stored.items != [] && WellFormed(stored.items) ==> Valid()
    {
      groups := InitialGroups(stored, defaults);
    }

    /** addTask: a new todo, collapsed, childless task at the end of the lanes with that id. */
    method AddTask(groupId: string, title: string, freshId: string, now: Timestamp)
      modifies this
      ensures groups == OnLane(old(groups), groupId, AppendRoot(NewTask(freshId, title, now)))
      ensures old(Valid()) && freshId !in Ids(AllTasks(old(groups))) ==> Valid()
    {
      ghost var before := groups;
      var newTask := NewTask(freshId, title, now);
      groups := OnLane(groups, groupId, AppendRoot(newTask));
      if WellFormed(before) && freshId !in Ids(AllTasks(before)) {
        SingletonTail(newTask);
        OnLaneKeepsWellFormed(before, groupId, AppendRoot(newTask));
      }
    }

    /** addSubtask: a new task under the parent reached along `parentPath`. */
    method AddSubtask(groupId: string, parentTaskId: string, title: string, parentPath: seq<string>,
                      freshId: string, now: Timestamp)
      modifies this
      ensures groups == OnLane(old(groups), groupId, AttachSubtask(parentPath, parentTaskId, NewTask(freshId, title, now)))
      ensures old(Valid()) && freshId !in Ids(AllTasks(old(groups))) ==> Valid()
    {
      ghost var before := groups;
      var op := AttachSubtask(parentPath, parentTaskId, NewTask(freshId, title, now));
      groups := OnLane(groups, groupId, op);
      if WellFormed(before) && freshId !in Ids(AllTasks(before)) {
        SingletonTail(NewTask(freshId, title, now));
        OnLaneKeepsWellFormed(before, groupId, op);
      }
    }

    method UpdateTask(groupId: string, taskId: string, updates: TaskUpdate)
      modifies this
      ensures groups == OnLane(old(groups), groupId, Update(taskId, updates))
      ensures old(Valid()) ==> Valid()
    {
      ghost var before := groups;
      groups := OnLane(groups, groupId, Update(taskId, updates));
      if WellFormed(before) {
        OnLaneKeepsWellFormed(before, groupId, Update(taskId, updates));
      }
    }

    method DeleteTask(groupId: string, taskId: string)
      modifies this
      ensures groups == OnLane(old(groups), groupId, Delete(taskId))
      ensures old(Valid()) ==> Valid()
    {
      ghost var before := groups;
      groups := OnLane(groups, groupId, Delete(taskId));
      if WellFormed(before) {
        OnLaneKeepsWellFormed(before, groupId, Delete(taskId));
      }
    }

    method ToggleTaskExpand(groupId: string, taskId: string)
      modifies this
      ensures groups == OnLane(old(groups), groupId, ToggleTask(taskId))
      ensures old(Valid()) ==> Valid()
    {
      ghost var before := groups;
      groups := OnLane(groups, groupId, ToggleTask(taskId));
      if WellFormed(before) {
        OnLaneKeepsWellFormed(before, groupId, ToggleTask(taskId));
      }
    }

    method ToggleGroupExpand(groupId: string)
      modifies this
      ensures groups == ToggleLane(old(groups), groupId)
      ensures old(Valid()) ==> Valid()
    {
      ghost var before := groups;
      groups := ToggleLane(groups, groupId);
      ToggleLaneInvolution(before, groupId);
    }

    /**
     * reorderTasks: each lane with the id gets a copy of its root tasks,
     * spliced in place.
     */
    method ReorderTasks(groupId: string, startIndex: nat, endIndex: int)
      requires ApplicableIn(groups, groupId, ReorderRoots(startIndex, endIndex))
      modifies this
      ensures groups == OnLane(old(groups), groupId, ReorderRoots(startIndex, endIndex))
      ensures old(Valid()) ==> Valid()
    {
      var before := groups;
      var next: seq<TaskGroup> := [];
      for i := 0 to |before|
        invariant |next| == i
        invariant forall k :: 0 <= k < i ==> next[k] == OnLane(before, groupId, ReorderRoots(startIndex, endIndex))[k]
      {
        var group := before[i];
        if group.id == groupId {
          var tasks := group.tasks;
          var newTasks := new Task[|tasks|](k requires 0 <= k < |tasks| => tasks[k]);
          assert newTasks[..] == tasks;
          SpliceMove(newTasks, startIndex, endIndex);
          group := group.(tasks := newTasks[..]);
        }
        next := next + [group];
      }
      groups := next;
      if WellFormed(before) {
        OnLaneKeepsWellFormed(before, groupId, ReorderRoots(startIndex, endIndex));
      }
    }

    method ReorderSubtasks(groupId: string, parentTaskId: string, startIndex: nat, endIndex: int)
      requires ApplicableIn(groups, groupId, ReorderChildren(parentTaskId, startIndex, endIndex))
      modifies this
      ensures groups == OnLane(old(groups), groupId, ReorderChildren(parentTaskId, startIndex, endIndex))
      ensures old(Valid()) ==> Valid()
    {
      ghost var before := groups;
      groups := OnLane(groups, groupId, ReorderChildren(parentTaskId, startIndex, endIndex));
      if WellFormed(before) {
        OnLaneKeepsWellFormed(before, groupId, ReorderChildren(parentTaskId, startIndex, endIndex));
      }
    }

    /**
     * moveTaskToGroup: the detaching pass over every lane with a captured
     * `taskToMove`, then the insertion into the target lanes.
     */
    method MoveTaskToGroup(taskId: string, targetGroupId: string, targetIndex: int)
      modifies this
      ensures groups == MoveTask(old(groups), taskId, targetGroupId, targetIndex)
      ensures old(Valid()) ==> Valid()
    {
      ghost var before := groups;
      var taskToMove: Option<Task> := None;
      var after: seq<TaskGroup> := [];
      for i := 0 to |groups|
        invariant LaneRemoval(after, taskToMove) == RemoveFromLanes(groups[..i], taskId)
      {
        assert groups[..i + 1][..i] == groups[..i];
        var result := FindAndRemoveTask(groups[i].tasks, taskId);
        if result.removed.Some? {
          taskToMove := result.removed;
          after := after + [groups[i].(tasks := result.tasks)];
        } else {
          after := after + [groups[i]];
        }
      }
      assert groups[..|groups|] == groups;
      if taskToMove.None? {
        return;
      }
      groups := OnLane(after, targetGroupId, InsertRoot(targetIndex, taskToMove.value));
      if WellFormed(before) {
        MoveTaskWellFormed(before, taskId, targetGroupId, targetIndex);
      }
    }
  }

  /** moveTaskToGroup keeps the forest well formed, whatever the target. */
  lemma {:induction false} MoveTaskWellFormed(gs: seq<TaskGroup>, id: string, targetGroupId: string, targetIndex: int)
    requires WellFormed(gs)
    ensures WellFormed(MoveTask(gs, id, targetGroupId, targetIndex))
  {
    if id !in Ids(AllTasks(gs)) {
      MoveTaskAbsent(gs, id, targetGroupId, targetIndex);
    } else if j :| 0 <= j < |gs| && gs[j].id == targetGroupId {
      MoveTaskArrives(gs, id, j, targetIndex);
    } else {
      MoveTaskUnknownTarget(gs, id, targetGroupId, targetIndex);
    }
  }
}
