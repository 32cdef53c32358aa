/**
 * The recursive rebuilds that the task hook applies to the root tasks of a
 * lane: each maps the old trees to new trees, rebuilding every task on the
 * way down (src/hooks/useTasks.ts).
 */
module TaskTree {
  import opened TaskTypes
  import opened Forest
  import opened Splice

  // =====================================================================
  // addSubtask

  /** The parent after the new subtask is appended: it is also expanded. */
  function WithChild(t: Task, child: Task): Task
  {
    t.(subtasks := t.subtasks + [child], isExpanded := true)
  }

  /**
   * addSubtaskRecursive: with an empty path, the first task with the parent
   * id on each branch gets the child; with a non-empty path, a task whose id
   * is the head of the path consumes it, and every other task is searched
   * with the path unchanged.
   */
  function AddSubtaskRecursive(ts: seq<Task>, path: seq<string>, parentId: string, child: Task): (r: seq<Task>)
    ensures |r| == |ts|
    ensures forall i :: 0 <= i < |ts| ==> r[i].id == ts[i].id
  {
    if ts == [] then []
    else
      var t := ts[0];
      var t' :=
        if t.id == parentId && |path| == 0 then WithChild(t, child)
        else if |path| > 0 && t.id == path[0] then t.(subtasks := AddSubtaskRecursive(t.subtasks, path[1..], parentId, child))
        else t.(subtasks := AddSubtaskRecursive(t.subtasks, path, parentId, child));
      var rest := AddSubtaskRecursive(ts[1..], path, parentId, child);
      assert t'.id == t.id;
      [t'] + rest
  }

  /** A tree without the parent is left exactly as it was. */
  lemma {:induction false} AddSubtaskAbsent(ts: seq<Task>, parentId: string, child: Task)
    requires parentId !in Ids(ts)
    ensures AddSubtaskRecursive(ts, [], parentId, child) == ts
  {
    if ts != [] {
      AddSubtaskAbsent(ts[0].subtasks, parentId, child);
      AddSubtaskAbsent(ts[1..], parentId, child);
      assert ts == [ts[0]] + ts[1..];
    }
  }

  /** A path whose head is nowhere in the trees is never consumed, so nothing is added. */
  lemma {:induction false} AddSubtaskPathMiss(ts: seq<Task>, path: seq<string>, parentId: string, child: Task)
    requires path != [] && path[0] !in Ids(ts)
    ensures AddSubtaskRecursive(ts, path, parentId, child) == ts
  {
    if ts != [] {
      AddSubtaskPathMiss(ts[0].subtasks, path, parentId, child);
      AddSubtaskPathMiss(ts[1..], path, parentId, child);
      assert ts == [ts[0]] + ts[1..];
    }
  }

  /** The parent found by id, at any depth, now ends with the child and is expanded. */
  lemma {:induction false} AddSubtaskFinds(ts: seq<Task>, parentId: string, child: Task)
    ensures Find(AddSubtaskRecursive(ts, [], parentId, child), parentId) ==
      match Find(ts, parentId)
      case Some(p) => Some(WithChild(p, child))
      case None => None
  {
    if ts != [] {
      var r := AddSubtaskRecursive(ts, [], parentId, child);
      assert r[1..] == AddSubtaskRecursive(ts[1..], [], parentId, child);
      AddSubtaskFinds(ts[0].subtasks, parentId, child);
      AddSubtaskFinds(ts[1..], parentId, child);
    }
  }

  /** The child's ids are added when the parent is present; no other id appears or goes. */
  lemma {:induction false} AddSubtaskIds(ts: seq<Task>, parentId: string, child: Task)
    ensures Ids(AddSubtaskRecursive(ts, [], parentId, child)) ==
      Ids(ts) + (if parentId in Ids(ts) then Ids([child]) else {})
  {
    if ts != [] {
      var t := ts[0];
      var r := AddSubtaskRecursive(ts, [], parentId, child);
      assert r[1..] == AddSubtaskRecursive(ts[1..], [], parentId, child);
      AddSubtaskIds(ts[1..], parentId, child);
      if t.id == parentId {
        IdsAppend(t.subtasks, [child]);
      } else {
        AddSubtaskIds(t.subtasks, parentId, child);
      }
    }
  }

  /** Whether addSubtaskRecursive attaches the child anywhere in `ts` (it may do so more than once). */
  predicate Attaches(ts: seq<Task>, path: seq<string>, parentId: string)
  {
    && ts != []
    && (|| (ts[0].id == parentId && |path| == 0)
        || (|path| > 0 && ts[0].id == path[0] && Attaches(ts[0].subtasks, path[1..], parentId))
        || (!(ts[0].id == parentId && |path| == 0) && !(|path| > 0 && ts[0].id == path[0])
            && Attaches(ts[0].subtasks, path, parentId))
        || Attaches(ts[1..], path, parentId))
  }

  /** The child is only ever attached below a task with the parent id. */
  lemma {:induction false} AttachesNeedsParent(ts: seq<Task>, path: seq<string>, parentId: string)
    requires Attaches(ts, path, parentId)
    ensures parentId in Ids(ts)
  {
    var t := ts[0];
    if t.id == parentId {
    } else if Attaches(ts[1..], path, parentId) {
      AttachesNeedsParent(ts[1..], path, parentId);
    } else if |path| > 0 && t.id == path[0] {
      AttachesNeedsParent(t.subtasks, path[1..], parentId);
    } else {
      AttachesNeedsParent(t.subtasks, path, parentId);
    }
  }

  /** With any path, the trees gain exactly the child's ids if it is attached somewhere, and nothing otherwise. */
  lemma {:induction false} AddSubtaskGrows(ts: seq<Task>, path: seq<string>, parentId: string, child: Task)
    ensures Ids(AddSubtaskRecursive(ts, path, parentId, child)) ==
      Ids(ts) + (if Attaches(ts, path, parentId) then Ids([child]) else {})
  {
    if ts != [] {
      var t := ts[0];
      var r := AddSubtaskRecursive(ts, path, parentId, child);
      var C := Ids([child]);
      // whether the child lands in the first tree, and whether in the others
      var here :=
        if t.id == parentId && |path| == 0 then true
        else if |path| > 0 && t.id == path[0] then Attaches(t.subtasks, path[1..], parentId)
        else Attaches(t.subtasks, path, parentId);
      var there := Attaches(ts[1..], path, parentId);
      assert Ids(r[0].subtasks) == Ids(t.subtasks) + (if here then C else {}) by {
        if t.id == parentId && |path| == 0 {
          IdsAppend(t.subtasks, [child]);
        } else if |path| > 0 && t.id == path[0] {
          AddSubtaskGrows(t.subtasks, path[1..], parentId, child);
        } else {
          AddSubtaskGrows(t.subtasks, path, parentId, child);
        }
      }
      assert Ids(r[1..]) == Ids(ts[1..]) + (if there then C else {}) by {
        assert r[1..] == AddSubtaskRecursive(ts[1..], path, parentId, child);
        AddSubtaskGrows(ts[1..], path, parentId, child);
      }
      assert Attaches(ts, path, parentId) == (here || there);
      assert Ids(r) == {t.id} + Ids(r[0].subtasks) + Ids(r[1..]);
    }
  }

  /** With unique ids and a fresh child, ids stay unique whatever the path. */
  lemma {:induction false} AddSubtaskUnique(ts: seq<Task>, path: seq<string>, parentId: string, child: Task)
    requires Unique(ts) && Unique([child]) && Ids([child]) !! Ids(ts)
    ensures Unique(AddSubtaskRecursive(ts, path, parentId, child))
  {
    if ts != [] {
      var t, rest := ts[0], ts[1..];
      var r := AddSubtaskRecursive(ts, path, parentId, child);
      var C := Ids([child]);
      var path' := if |path| > 0 && t.id == path[0] then path[1..] else path;
      var here := (t.id == parentId && |path| == 0) || Attaches(t.subtasks, path', parentId);
      var there := Attaches(rest, path, parentId);
      SingletonTail(t);
      assert r[1..] == AddSubtaskRecursive(rest, path, parentId, child);
      assert Unique(r[1..]) && Ids(r[1..]) == Ids(rest) + (if there then C else {}) by {
        AddSubtaskUnique(rest, path, parentId, child);
        AddSubtaskGrows(rest, path, parentId, child);
      }
      assert Unique(r[0].subtasks) && Ids(r[0].subtasks) <= Ids(t.subtasks) + (if here then C else {}) by {
        if t.id == parentId && |path| == 0 {
          UniqueAppend(t.subtasks, [child]);
          IdsAppend(t.subtasks, [child]);
        } else {
          AddSubtaskGrows(t.subtasks, path', parentId, child);
          AddSubtaskUnique(t.subtasks, path', parentId, child);
        }
      }
      assert !(here && there) by {
        if there {
          AttachesNeedsParent(rest, path, parentId);
          if Attaches(t.subtasks, path', parentId) {
            AttachesNeedsParent(t.subtasks, path', parentId);
          }
        }
      }
    }
  }

  /** With unique ids and the parent present, exactly the child's tasks are added. */
  lemma {:induction false} AddSubtaskSize(ts: seq<Task>, parentId: string, child: Task)
    requires Unique(ts) && parentId in Ids(ts)
    ensures Size(AddSubtaskRecursive(ts, [], parentId, child)) == Size(ts) + Size([child])
  {
    var t, rest := ts[0], ts[1..];
    var r := AddSubtaskRecursive(ts, [], parentId, child);
    assert r[1..] == AddSubtaskRecursive(rest, [], parentId, child);
    SingletonTail(child);
    if t.id == parentId {
      SizeAppend(t.subtasks, [child]);
      AddSubtaskAbsent(rest, parentId, child);
    } else if parentId in Ids(t.subtasks) {
      AddSubtaskSize(t.subtasks, parentId, child);
      AddSubtaskAbsent(rest, parentId, child);
    } else {
      AddSubtaskAbsent(t.subtasks, parentId, child);
      AddSubtaskSize(rest, parentId, child);
    }
  }

  /**
   * Every task other than the parent keeps its fields and its child ids:
   * leaving aside entries for the parent id and for the new subtree, the
   * pre-order listing holds each entry exactly as often as before.
   */
  lemma {:induction false} AddSubtaskOnlyParent(ts: seq<Task>, path: seq<string>, parentId: string, child: Task)
    ensures forall i: Info :: i.id != parentId && i.id !in Ids([child]) ==>
      multiset(Flat(AddSubtaskRecursive(ts, path, parentId, child)))[i] == multiset(Flat(ts))[i]
  {
    if ts != [] {
      var t := ts[0];
      var r := AddSubtaskRecursive(ts, path, parentId, child);
      assert r[1..] == AddSubtaskRecursive(ts[1..], path, parentId, child);
      AddSubtaskOnlyParent(ts[1..], path, parentId, child);
      if t.id == parentId && |path| == 0 {
        FlatAppend(t.subtasks, [child]);
        FlatIds([child]);
      } else if |path| > 0 && t.id == path[0] {
        AddSubtaskOnlyParent(t.subtasks, path[1..], parentId, child);
        SameRootIds(r[0].subtasks, t.subtasks);
      } else {
        AddSubtaskOnlyParent(t.subtasks, path, parentId, child);
        SameRootIds(r[0].subtasks, t.subtasks);
      }
    }
  }

  // =====================================================================
  // updateTask

  /** The fields of a `Partial<Task>` the app passes: a title, a status or an expansion flag. */
  datatype TaskUpdate = TaskUpdate(title: Option<string>, status: Option<Status>, isExpanded: Option<bool>)

  /** `{ ...task, ...updates }`: the given fields replace the task's, the rest are kept. */
  function ApplyUpdate(t: Task, u: TaskUpdate): (r: Task)
    ensures r.id == t.id && r.subtasks == t.subtasks && r.createdAt == t.createdAt
    ensures u == TaskUpdate(None, None, None) ==> r == t
  {
    t.(title := if u.title.Some? then u.title.value else t.title,
       status := if u.status.Some? then u.status.value else t.status,
       isExpanded := if u.isExpanded.Some? then u.isExpanded.value else t.isExpanded)
  }

  /** updateRecursive: a task with the id is merged and not descended into; others are searched. */
  function UpdateRecursive(ts: seq<Task>, id: string, u: TaskUpdate): (r: seq<Task>)
    ensures |r| == |ts|
    ensures forall i :: 0 <= i < |ts| ==> r[i].id == ts[i].id
  {
    if ts == [] then []
    else
      var t := ts[0];
      [if t.id == id then ApplyUpdate(t, u) else t.(subtasks := UpdateRecursive(t.subtasks, id, u))]
        + UpdateRecursive(ts[1..], id, u)
  }

  /** What an update does to one entry of the pre-order listing. */
  datatype Edit = Merge(u: TaskUpdate) | Flip

  function EditInfo(i: Info, e: Edit): Info
  {
    match e
    case Merge(u) =>
      i.(title := if u.title.Some? then u.title.value else i.title,
         status := if u.status.Some? then u.status.value else i.status,
         isExpanded := if u.isExpanded.Some? then u.isExpanded.value else i.isExpanded)
    case Flip => i.(isExpanded := !i.isExpanded)
  }

  /** The listing with every entry for `id` edited and every other entry as it was. */
  function EditAll(s: seq<Info>, id: string, e: Edit): (r: seq<Info>)
    ensures |r| == |s|
    ensures forall k :: 0 <= k < |s| ==> r[k] == if s[k].id == id then EditInfo(s[k], e) else s[k]
  {
    if s == [] then [] else [if s[0].id == id then EditInfo(s[0], e) else s[0]] + EditAll(s[1..], id, e)
  }

  lemma {:induction false} EditAllAppend(a: seq<Info>, b: seq<Info>, id: string, e: Edit)
    ensures EditAll(a + b, id, e) == EditAll(a, id, e) + EditAll(b, id, e)
  {
  }

  /** Editing an id absent from the trees leaves their listing as it was. */
  lemma {:induction false} EditAllAbsent(ts: seq<Task>, id: string, e: Edit)
    requires id !in Ids(ts)
    ensures EditAll(Flat(ts), id, e) == Flat(ts)
  {
    if ts != [] {
      EditAllAbsent(ts[0].subtasks, id, e);
      EditAllAbsent(ts[1..], id, e);
      EditAllAppend([InfoOf(ts[0])] + Flat(ts[0].subtasks), Flat(ts[1..]), id, e);
      EditAllAppend([InfoOf(ts[0])], Flat(ts[0].subtasks), id, e);
    }
  }

  lemma {:induction false} UpdateAbsent(ts: seq<Task>, id: string, u: TaskUpdate)
    requires id !in Ids(ts)
    ensures UpdateRecursive(ts, id, u) == ts
  {
    if ts != [] {
      UpdateAbsent(ts[0].subtasks, id, u);
      UpdateAbsent(ts[1..], id, u);
      assert ts == [ts[0]] + ts[1..];
    }
  }

  /** An update changes no id and no tree shape, so ids and their uniqueness are kept. */
  lemma {:induction false} UpdateKeepsIds(ts: seq<Task>, id: string, u: TaskUpdate)
    ensures Ids(UpdateRecursive(ts, id, u)) == Ids(ts)
    ensures Size(UpdateRecursive(ts, id, u)) == Size(ts)
    ensures Unique(UpdateRecursive(ts, id, u)) <==> Unique(ts)
  {
    if ts != [] {
      var r := UpdateRecursive(ts, id, u);
      assert r[1..] == UpdateRecursive(ts[1..], id, u);
      UpdateKeepsIds(ts[0].subtasks, id, u);
      UpdateKeepsIds(ts[1..], id, u);
    }
  }

  /**
   * With unique ids, the task with the id gets the given fields and every
   * other task keeps all of its fields and its number of subtasks.
   */
  lemma {:induction false} UpdateOnlyTarget(ts: seq<Task>, id: string, u: TaskUpdate)
    requires Unique(ts)
    ensures Flat(UpdateRecursive(ts, id, u)) == EditAll(Flat(ts), id, Merge(u))
  {
    if ts != [] {
      var t := ts[0];
      var r := UpdateRecursive(ts, id, u);
      assert r[1..] == UpdateRecursive(ts[1..], id, u);
      EditAllAppend([InfoOf(t)] + Flat(t.subtasks), Flat(ts[1..]), id, Merge(u));
      EditAllAppend([InfoOf(t)], Flat(t.subtasks), id, Merge(u));
      UpdateOnlyTarget(ts[1..], id, u);
      if t.id == id {
        EditAllAbsent(t.subtasks, id, Merge(u));
      } else {
        UpdateOnlyTarget(t.subtasks, id, u);
        SameRootIds(UpdateRecursive(t.subtasks, id, u), t.subtasks);
      }
    }
  }

  /**
   * A root with the id is merged and not descended into: its subtasks come
   * back untouched, even when they hold the id again.
   */
  lemma {:induction false} UpdateStopsAtMatch(ts: seq<Task>, id: string, u: TaskUpdate)
    ensures forall i :: 0 <= i < |ts| && ts[i].id == id ==>
      UpdateRecursive(ts, id, u)[i] == ApplyUpdate(ts[i], u) && UpdateRecursive(ts, id, u)[i].subtasks == ts[i].subtasks
  {
    if ts != [] {
      var r := UpdateRecursive(ts, id, u);
      assert r[1..] == UpdateRecursive(ts[1..], id, u);
      UpdateStopsAtMatch(ts[1..], id, u);
      forall i | 1 <= i < |ts| && ts[i].id == id
        ensures r[i] == ApplyUpdate(ts[i], u)
      {
        assert r[i] == r[1..][i - 1] && ts[i] == ts[1..][i - 1];
      }
    }
  }

  /** The task found by id now carries the given fields. */
  lemma {:induction false} UpdateFinds(ts: seq<Task>, id: string, u: TaskUpdate)
    ensures Find(UpdateRecursive(ts, id, u), id) ==
      match Find(ts, id)
      case Some(t) => Some(ApplyUpdate(t, u))
      case None => None
  {
    if ts != [] {
      var r := UpdateRecursive(ts, id, u);
      assert r[1..] == UpdateRecursive(ts[1..], id, u);
      UpdateFinds(ts[0].subtasks, id, u);
      UpdateFinds(ts[1..], id, u);
    }
  }

  /** Applying the same update twice is the same as applying it once. */
  lemma {:induction false} UpdateIdempotent(ts: seq<Task>, id: string, u: TaskUpdate)
    ensures UpdateRecursive(UpdateRecursive(ts, id, u), id, u) == UpdateRecursive(ts, id, u)
  {
    if ts != [] {
      var r := UpdateRecursive(ts, id, u);
      assert r[1..] == UpdateRecursive(ts[1..], id, u);
      UpdateIdempotent(ts[0].subtasks, id, u);
      UpdateIdempotent(ts[1..], id, u);
    }
  }

  // =====================================================================
  // toggleTaskExpand

  /** toggleRecursive: a task with the id is flipped and not descended into; others are searched. */
  function ToggleRecursive(ts: seq<Task>, id: string): (r: seq<Task>)
    ensures |r| == |ts|
    ensures forall i :: 0 <= i < |ts| ==> r[i].id == ts[i].id
  {
    if ts == [] then []
    else
      var t := ts[0];
      [if t.id == id then t.(isExpanded := !t.isExpanded) else t.(subtasks := ToggleRecursive(t.subtasks, id))]
        + ToggleRecursive(ts[1..], id)
  }

  /** Toggling twice restores the trees. */
  lemma {:induction false} ToggleInvolution(ts: seq<Task>, id: string)
    ensures ToggleRecursive(ToggleRecursive(ts, id), id) == ts
  {
    if ts != [] {
      var r := ToggleRecursive(ts, id);
      assert r[1..] == ToggleRecursive(ts[1..], id);
      ToggleInvolution(ts[0].subtasks, id);
      ToggleInvolution(ts[1..], id);
      assert ts == [ts[0]] + ts[1..];
    }
  }

  lemma {:induction false} ToggleKeepsIds(ts: seq<Task>, id: string)
    ensures Ids(ToggleRecursive(ts, id)) == Ids(ts)
    ensures Size(ToggleRecursive(ts, id)) == Size(ts)
    ensures Unique(ToggleRecursive(ts, id)) <==> Unique(ts)
  {
    if ts != [] {
      var r := ToggleRecursive(ts, id);
      assert r[1..] == ToggleRecursive(ts[1..], id);
      ToggleKeepsIds(ts[0].subtasks, id);
      ToggleKeepsIds(ts[1..], id);
    }
  }

  /** With unique ids, only the task with the id changes, and only its expansion flag. */
  lemma {:induction false} ToggleOnlyTarget(ts: seq<Task>, id: string)
    requires Unique(ts)
    ensures Flat(ToggleRecursive(ts, id)) == EditAll(Flat(ts), id, Flip)
  {
    if ts != [] {
      var t := ts[0];
      var r := ToggleRecursive(ts, id);
      assert r[1..] == ToggleRecursive(ts[1..], id);
      EditAllAppend([InfoOf(t)] + Flat(t.subtasks), Flat(ts[1..]), id, Flip);
      EditAllAppend([InfoOf(t)], Flat(t.subtasks), id, Flip);
      ToggleOnlyTarget(ts[1..], id);
      if t.id == id {
        EditAllAbsent(t.subtasks, id, Flip);
      } else {
        ToggleOnlyTarget(t.subtasks, id);
        SameRootIds(ToggleRecursive(t.subtasks, id), t.subtasks);
      }
    }
  }

  // =====================================================================
  // deleteTask

  /**
   * deleteRecursive: `filter` drops the roots with the id, then `map`
   * descends into the survivors; both are done here in one pass.
   */
  function DeleteRecursive(ts: seq<Task>, id: string): (r: seq<Task>)
    ensures |r| <= |ts|
  {
    if ts == [] then []
    else if ts[0].id == id then DeleteRecursive(ts[1..], id)
    else [ts[0].(subtasks := DeleteRecursive(ts[0].subtasks, id))] + DeleteRecursive(ts[1..], id)
  }

  lemma {:induction false} DeleteAbsent(ts: seq<Task>, id: string)
    requires id !in Ids(ts)
    ensures DeleteRecursive(ts, id) == ts
  {
    if ts != [] {
      DeleteAbsent(ts[0].subtasks, id);
      DeleteAbsent(ts[1..], id);
      assert ts == [ts[0]] + ts[1..];
    }
  }

  /** Afterwards no task with the id is left at any depth, and no id is added. */
  lemma {:induction false} DeleteRemoves(ts: seq<Task>, id: string)
    ensures id !in Ids(DeleteRecursive(ts, id))
    ensures Ids(DeleteRecursive(ts, id)) <= Ids(ts)
    ensures Unique(ts) ==> Unique(DeleteRecursive(ts, id))
  {
    if ts != [] {
      DeleteRemoves(ts[0].subtasks, id);
      DeleteRemoves(ts[1..], id);
      if ts[0].id != id {
        var r := DeleteRecursive(ts, id);
        assert r[1..] == DeleteRecursive(ts[1..], id);
      }
    }
  }

  /** Deleting twice is the same as deleting once. */
  lemma {:induction false} DeleteIdempotent(ts: seq<Task>, id: string)
    ensures DeleteRecursive(DeleteRecursive(ts, id), id) == DeleteRecursive(ts, id)
  {
    DeleteRemoves(ts, id);
    DeleteAbsent(DeleteRecursive(ts, id), id);
  }

  // =====================================================================
  // reorderSubtasks

  /** Every task with the parent id that the search reaches has a subtask at `start`. */
  predicate StartInRange(ts: seq<Task>, parentId: string, start: nat)
  {
    forall i :: 0 <= i < |ts| ==>
      if ts[i].id == parentId then start < |ts[i].subtasks|
      else StartInRange(ts[i].subtasks, parentId, start)
  }

  /** reorderRecursive: the subtasks of a task with the parent id are reordered, others searched. */
  function ReorderRecursive(ts: seq<Task>, parentId: string, start: nat, end: int): (r: seq<Task>)
    requires StartInRange(ts, parentId, start)
    ensures |r| == |ts|
    ensures forall i :: 0 <= i < |ts| ==> r[i].id == ts[i].id
  {
    if ts == [] then []
    else
      var t := ts[0];
      assert StartInRange(ts[1..], parentId, start) by {
        forall i | 0 <= i < |ts[1..]|
          ensures ts[1..][i] == ts[i + 1]
        {
        }
      }
      [if t.id == parentId then t.(subtasks := Reorder(t.subtasks, start, end))
       else t.(subtasks := ReorderRecursive(t.subtasks, parentId, start, end))]
        + ReorderRecursive(ts[1..], parentId, start, end)
  }

  /** Every parent the search can reach is in the trees, so an absent parent asks nothing. */
  lemma {:induction false} StartInRangeAbsent(ts: seq<Task>, parentId: string, start: nat)
    requires parentId !in Ids(ts)
    ensures StartInRange(ts, parentId, start)
  {
    forall i | 0 <= i < |ts|
      ensures ts[i].id != parentId && StartInRange(ts[i].subtasks, parentId, start)
    {
      assert ts == ts[..i] + [ts[i]] + ts[i + 1..];
      IdsAppend(ts[..i] + [ts[i]], ts[i + 1..]);
      IdsAppend(ts[..i], [ts[i]]);
      SingletonTail(ts[i]);
      StartInRangeAbsent(ts[i].subtasks, parentId, start);
    }
  }

  lemma {:induction false} ReorderSubtasksAbsent(ts: seq<Task>, parentId: string, start: nat, end: int)
    requires parentId !in Ids(ts)
    ensures StartInRange(ts, parentId, start)
    ensures ReorderRecursive(ts, parentId, start, end) == ts
  {
    StartInRangeAbsent(ts, parentId, start);
    if ts != [] {
      StartInRangeAbsent(ts[1..], parentId, start);
      ReorderSubtasksAbsent(ts[0].subtasks, parentId, start, end);
      ReorderSubtasksAbsent(ts[1..], parentId, start, end);
      assert ts == [ts[0]] + ts[1..];
    }
  }

  /** The parent found by id now has its subtasks reordered. */
  lemma {:induction false} ReorderSubtasksFinds(ts: seq<Task>, parentId: string, start: nat, end: int)
    requires StartInRange(ts, parentId, start)
    ensures
      match Find(ts, parentId)
      case Some(p) =>
        && start < |p.subtasks|
        && Find(ReorderRecursive(ts, parentId, start, end), parentId) ==
           Some(p.(subtasks := Reorder(p.subtasks, start, end)))
      case None => Find(ReorderRecursive(ts, parentId, start, end), parentId) == None
  {
    if ts != [] {
      var r := ReorderRecursive(ts, parentId, start, end);
      assert ts[1..] == ts[1..] && StartInRange(ts[1..], parentId, start) by {
        forall i | 0 <= i < |ts[1..]| ensures ts[1..][i] == ts[i + 1] { }
      }
      assert r[1..] == ReorderRecursive(ts[1..], parentId, start, end);
      if ts[0].id != parentId {
        ReorderSubtasksFinds(ts[0].subtasks, parentId, start, end);
      }
      ReorderSubtasksFinds(ts[1..], parentId, start, end);
    }
  }

  /** Reordering subtasks permutes children only: ids, size and uniqueness are kept. */
  lemma {:induction false} ReorderSubtasksKeepsIds(ts: seq<Task>, parentId: string, start: nat, end: int)
    requires StartInRange(ts, parentId, start)
    ensures Ids(ReorderRecursive(ts, parentId, start, end)) == Ids(ts)
    ensures Size(ReorderRecursive(ts, parentId, start, end)) == Size(ts)
    ensures Unique(ReorderRecursive(ts, parentId, start, end)) <==> Unique(ts)
  {
    if ts != [] {
      var t := ts[0];
      var r := ReorderRecursive(ts, parentId, start, end);
      assert StartInRange(ts[1..], parentId, start) by {
        forall i | 0 <= i < |ts[1..]| ensures ts[1..][i] == ts[i + 1] { }
      }
      assert r[1..] == ReorderRecursive(ts[1..], parentId, start, end);
      ReorderSubtasksKeepsIds(ts[1..], parentId, start, end);
      if t.id == parentId {
        ReorderPermutes(t.subtasks, start, end);
        PermutationInvariant(Reorder(t.subtasks, start, end), t.subtasks);
      } else {
        ReorderSubtasksKeepsIds(t.subtasks, parentId, start, end);
      }
    }
  }

  /**
   * Only the parent's child list changes: every other entry of the
   * pre-order listing (fields and child ids) occurs exactly as often as
   * before, wherever the reorder moved it.
   */
  lemma {:induction false} ReorderSubtasksOnlyParent(ts: seq<Task>, parentId: string, start: nat, end: int)
    requires StartInRange(ts, parentId, start)
    ensures forall i: Info :: i.id != parentId ==>
      multiset(Flat(ReorderRecursive(ts, parentId, start, end)))[i] == multiset(Flat(ts))[i]
  {
    if ts != [] {
      var t := ts[0];
      var r := ReorderRecursive(ts, parentId, start, end);
      assert StartInRange(ts[1..], parentId, start) by {
        forall i | 0 <= i < |ts[1..]| ensures ts[1..][i] == ts[i + 1] { }
      }
      assert r[1..] == ReorderRecursive(ts[1..], parentId, start, end);
      ReorderSubtasksOnlyParent(ts[1..], parentId, start, end);
      if t.id == parentId {
        ReorderPermutes(t.subtasks, start, end);
        FlatPermutes(Reorder(t.subtasks, start, end), t.subtasks);
      } else {
        ReorderSubtasksOnlyParent(t.subtasks, parentId, start, end);
        SameRootIds(r[0].subtasks, t.subtasks);
      }
    }
  }

  // =====================================================================
  // findAndRemoveTask

  /** The new root list and the task taken out, if any. */
  datatype Removal = Removal(tasks: seq<Task>, removed: Option<Task>)

  /** `tasks.filter(task => task.id !== taskId)`. */
  function WithoutId(ts: seq<Task>, id: string): (r: seq<Task>)
    ensures |r| <= |ts|
    ensures forall i :: 0 <= i < |r| ==> r[i].id != id
    ensures (forall i :: 0 <= i < |ts| ==> ts[i].id != id) ==> r == ts
  {
    if ts == [] then []
    else if ts[0].id == id then WithoutId(ts[1..], id)
    else
      assert ts == [ts[0]] + ts[1..];
      [ts[0]] + WithoutId(ts[1..], id)
  }

  /** What the filter callback leaves in `removed`: the LAST root with the id. */
  function LastWithId(ts: seq<Task>, id: string): (r: Option<Task>)
    ensures r.None? <==> forall i :: 0 <= i < |ts| ==> ts[i].id != id
    ensures r.Some? ==> r.value.id == id
    ensures r.Some? ==> exists k :: 0 <= k < |ts| && ts[k] == r.value && forall j :: k < j < |ts| ==> ts[j].id != id
  {
    if ts == [] then None
    else
      match LastWithId(ts[1..], id)
      case Some(t) =>
        assert exists k :: 0 <= k < |ts| && ts[k] == t && forall j :: k < j < |ts| ==> ts[j].id != id by {
          var k :| 0 <= k < |ts[1..]| && ts[1..][k] == t && forall j :: k < j < |ts[1..]| ==> ts[1..][j].id != id;
          assert forall j :: k + 1 < j < |ts| ==> ts[j] == ts[1..][j - 1];
        }
        Some(t)
      case None => if ts[0].id == id then Some(ts[0]) else None
  }

  /**
   * findAndRemoveTask: if some root has the id, all such roots are dropped
   * and the last is returned; otherwise the roots are searched in order
   * and the first subtree that yields a removal is rebuilt.
   */
  function FindAndRemoveTask(ts: seq<Task>, id: string): (r: Removal)
    ensures |r.tasks| <= |ts|
    ensures r.removed.Some? ==> r.removed.value.id == id
    decreases ts, 1
  {
    var kept := WithoutId(ts, id);
    var removed := LastWithId(ts, id);
    if removed.Some? then Removal(kept, removed)
    else SearchSubtasks(kept, id)
  }

  /** The `map` over the kept roots, which stops descending once `removed` is set. */
  function SearchSubtasks(ts: seq<Task>, id: string): (r: Removal)
    ensures |r.tasks| == |ts|
    ensures forall i :: 0 <= i < |ts| ==> r.tasks[i].id == ts[i].id
    ensures r.removed.Some? ==> r.removed.value.id == id
    decreases ts, 0
  {
    if ts == [] then Removal([], None)
    else
      var inner := FindAndRemoveTask(ts[0].subtasks, id);
      if inner.removed.Some? then Removal([ts[0].(subtasks := inner.tasks)] + ts[1..], inner.removed)
      else
        var rest := SearchSubtasks(ts[1..], id);
        Removal([ts[0]] + rest.tasks, rest.removed)
  }

  /** Nothing is removed exactly when the id is absent, and then the trees are returned as they were. */
  lemma {:induction false} FindAndRemoveAbsent(ts: seq<Task>, id: string)
    ensures FindAndRemoveTask(ts, id).removed.None? <==> id !in Ids(ts)
    ensures id !in Ids(ts) ==> FindAndRemoveTask(ts, id).tasks == ts
    decreases ts, 1
  {
    if LastWithId(ts, id).Some? {
      var i :| 0 <= i < |ts| && ts[i].id == id;
      RootIdsInIds(ts, i);
    } else {
      SearchSubtasksAbsent(ts, id);
    }
  }

  lemma {:induction false} SearchSubtasksAbsent(ts: seq<Task>, id: string)
    requires forall i :: 0 <= i < |ts| ==> ts[i].id != id
    ensures SearchSubtasks(ts, id).removed.None? <==> id !in Ids(ts)
    ensures id !in Ids(ts) ==> SearchSubtasks(ts, id).tasks == ts
    decreases ts, 0
  {
    if ts != [] {
      FindAndRemoveAbsent(ts[0].subtasks, id);
      assert forall i :: 0 <= i < |ts[1..]| ==> ts[1..][i] == ts[i + 1];
      SearchSubtasksAbsent(ts[1..], id);
      assert ts == [ts[0]] + ts[1..];
    }
  }

  /** No root in `ts` has an id absent from its trees. */
  lemma {:induction false} NoRootWithId(ts: seq<Task>, id: string)
    requires id !in Ids(ts)
    ensures forall i :: 0 <= i < |ts| ==> ts[i].id != id
  {
    forall i | 0 <= i < |ts| ensures ts[i].id != id {
      RootIdsInIds(ts, i);
    }
  }

  /** One step of findAndRemoveTask on unique trees, by where the id sits. */
  lemma {:induction false} FindAndRemoveStep(ts: seq<Task>, id: string)
    requires ts != [] && Unique(ts)
    ensures FindAndRemoveTask(ts, id) ==
      if ts[0].id == id then Removal(ts[1..], Some(ts[0]))
      else if id in Ids(ts[0].subtasks) then
        Removal([ts[0].(subtasks := FindAndRemoveTask(ts[0].subtasks, id).tasks)] + ts[1..],
                FindAndRemoveTask(ts[0].subtasks, id).removed)
      else
        Removal([ts[0]] + FindAndRemoveTask(ts[1..], id).tasks, FindAndRemoveTask(ts[1..], id).removed)
  {
    var t, rest := ts[0], ts[1..];
    assert forall i :: 0 <= i < |rest| ==> rest[i] == ts[i + 1];
    if t.id == id {
      NoRootWithId(rest, id);
      assert WithoutId(rest, id) == rest;
    } else if id in Ids(t.subtasks) {
      NoRootWithId(rest, id);
      assert forall i :: 0 <= i < |ts| ==> ts[i].id != id;
      FindAndRemoveAbsent(t.subtasks, id);
    } else {
      FindAndRemoveAbsent(t.subtasks, id);
      if LastWithId(rest, id).None? {
        assert forall i :: 0 <= i < |ts| ==> ts[i].id != id;
        assert WithoutId(ts, id) == ts;
      }
    }
  }

  /** The views of a tree list built from a first tree and the rest. */
  lemma {:induction false} Cons(t: Task, rest: seq<Task>)
    ensures ([t] + rest)[0] == t && ([t] + rest)[1..] == rest
    ensures Ids([t] + rest) == {t.id} + Ids(t.subtasks) + Ids(rest)
    ensures Size([t] + rest) == 1 + Size(t.subtasks) + Size(rest)
    ensures Unique([t] + rest) <==>
      && t.id !in Ids(t.subtasks) && t.id !in Ids(rest) && Ids(t.subtasks) !! Ids(rest)
      && Unique(t.subtasks) && Unique(rest)
  {
    assert ([t] + rest)[1..] == rest;
  }

  /** Taking subtree x out of the first tree's subtasks takes exactly x out of the list. */
  lemma {:induction false} RemovedBelowFirst(t: Task, rest: seq<Task>, sub: seq<Task>, x: Task)
    requires Unique([t] + rest)
    requires Ids([x]) <= Ids(t.subtasks)
    requires Unique(sub) && Ids(sub) == Ids(t.subtasks) - Ids([x])
    requires Size(sub) + Size([x]) == Size(t.subtasks)
    ensures Unique([t.(subtasks := sub)] + rest)
    ensures Ids([t.(subtasks := sub)] + rest) == Ids([t] + rest) - Ids([x])
    ensures Size([t.(subtasks := sub)] + rest) + Size([x]) == Size([t] + rest)
  {
    Cons(t, rest);
    Cons(t.(subtasks := sub), rest);
  }

  /** Taking subtree x out of the later trees takes exactly x out of the list. */
  lemma {:induction false} RemovedAfterFirst(t: Task, rest: seq<Task>, rest': seq<Task>, x: Task)
    requires Unique([t] + rest)
    requires Ids([x]) <= Ids(rest)
    requires Unique(rest') && Ids(rest') == Ids(rest) - Ids([x])
    requires Size(rest') + Size([x]) == Size(rest)
    ensures Unique([t] + rest')
    ensures Ids([t] + rest') == Ids([t] + rest) - Ids([x])
    ensures Size([t] + rest') + Size([x]) == Size([t] + rest)
  {
    Cons(t, rest);
    Cons(t, rest');
  }

  /**
   * On unique trees, findAndRemoveTask takes out the task Find gives, with
   * its whole subtree: exactly that subtree's ids and tasks are gone and
   * ids stay unique.
   */
  lemma {:induction false} FindAndRemoveUnique(ts: seq<Task>, id: string)
    requires Unique(ts)
    ensures FindAndRemoveTask(ts, id).removed == Find(ts, id)
    ensures Unique(FindAndRemoveTask(ts, id).tasks)
    ensures Find(ts, id).Some? ==>
      && Ids(FindAndRemoveTask(ts, id).tasks) == Ids(ts) - Ids([Find(ts, id).value])
      && Size(FindAndRemoveTask(ts, id).tasks) + Size([Find(ts, id).value]) == Size(ts)
  {
    if ts != [] {
      var t, rest := ts[0], ts[1..];
      assert ts == [t] + rest;
      FindAndRemoveStep(ts, id);
      Cons(t, rest);
      FindFound(t.subtasks, id);
      FindFound(rest, id);
      if t.id == id {
      } else if id in Ids(t.subtasks) {
        FindAndRemoveUnique(t.subtasks, id);
        RemovedBelowFirst(t, rest, FindAndRemoveTask(t.subtasks, id).tasks, Find(t.subtasks, id).value);
      } else {
        FindAndRemoveUnique(rest, id);
        FindAndRemoveAbsent(rest, id);
        if id in Ids(rest) {
          RemovedAfterFirst(t, rest, FindAndRemoveTask(rest, id).tasks, Find(rest, id).value);
        }
      }
    }
  }

  /** On unique trees, deleteTask and findAndRemoveTask leave the same trees. */
  lemma {:induction false} DeleteIsFindAndRemove(ts: seq<Task>, id: string)
    requires Unique(ts)
    ensures DeleteRecursive(ts, id) == FindAndRemoveTask(ts, id).tasks
  {
    if ts != [] {
      var t, rest := ts[0], ts[1..];
      FindAndRemoveStep(ts, id);
      if t.id == id {
        DeleteAbsent(rest, id);
      } else if id in Ids(t.subtasks) {
        DeleteIsFindAndRemove(t.subtasks, id);
        DeleteAbsent(rest, id);
      } else {
        DeleteAbsent(t.subtasks, id);
        DeleteIsFindAndRemove(rest, id);
      }
    }
  }

  /** On unique trees, deleteTask removes exactly the subtree of the task with the id. */
  lemma {:induction false} DeleteRemovesSubtree(ts: seq<Task>, id: string)
    requires Unique(ts) && Find(ts, id).Some?
    ensures Ids(DeleteRecursive(ts, id)) == Ids(ts) - Ids([Find(ts, id).value])
    ensures Size(DeleteRecursive(ts, id)) + Size([Find(ts, id).value]) == Size(ts)
  {
    DeleteIsFindAndRemove(ts, id);
    FindAndRemoveUnique(ts, id);
  }
}
