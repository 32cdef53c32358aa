/**
 * Read-only views of a task forest used to state what the mutations do:
 * the ids present at any depth, the number of tasks, id uniqueness, the
 * first task with a given id in depth-first order, and the pre-order
 * listing of every task's own fields.
 */
module Forest {
  import opened TaskTypes

  /** Every id in the trees `ts`, at any depth. */
  function Ids(ts: seq<Task>): set<string>
  {
    if ts == [] then {} else {ts[0].id} + Ids(ts[0].subtasks) + Ids(ts[1..])
  }

  /** The number of tasks in the trees `ts`, at any depth. */
  function Size(ts: seq<Task>): nat
  {
    if ts == [] then 0 else 1 + Size(ts[0].subtasks) + Size(ts[1..])
  }

  /** No id occurs twice in the trees `ts` (ids come from a uuid generator). */
  predicate Unique(ts: seq<Task>)
  {
    ts == [] ||
    (&& ts[0].id !in Ids(ts[0].subtasks)
     && ts[0].id !in Ids(ts[1..])
     && Ids(ts[0].subtasks) !! Ids(ts[1..])
     && Unique(ts[0].subtasks)
     && Unique(ts[1..]))
  }

  /** The first task with id `id` in depth-first pre-order. */
  function Find(ts: seq<Task>, id: string): Option<Task>
  {
    if ts == [] then None
    else if ts[0].id == id then Some(ts[0])
    else
      match Find(ts[0].subtasks, id)
      case Some(t) => Some(t)
      case None => Find(ts[1..], id)
  }

  /** The root tasks of all groups, lane after lane. */
  function AllTasks(gs: seq<TaskGroup>): seq<Task>
  {
    if gs == [] then [] else gs[0].tasks + AllTasks(gs[1..])
  }

  predicate DistinctGroupIds(gs: seq<TaskGroup>)
  {
    forall i, j :: 0 <= i < j < |gs| ==> gs[i].id != gs[j].id
  }

  /** The forest invariant: task ids unique across all lanes, lane ids distinct. */
  predicate WellFormed(gs: seq<TaskGroup>)
  {
    Unique(AllTasks(gs)) && DistinctGroupIds(gs)
  }

  /** The ids of the roots `ts`, in order. */
  function RootIds(ts: seq<Task>): (r: seq<string>)
    ensures |r| == |ts|
  {
    seq(|ts|, i requires 0 <= i < |ts| => ts[i].id)
  }

  /** A task's own fields, with the ids of its direct subtasks in order. */
  datatype Info = Info(
    id: string,
    title: string,
    status: Status,
    isExpanded: bool,
    createdAt: Timestamp,
    childIds: seq<string>)

  function InfoOf(t: Task): Info
  {
    Info(t.id, t.title, t.status, t.isExpanded, t.createdAt, RootIds(t.subtasks))
  }

  /** The pre-order listing of the trees `ts`; with the child ids it determines them. */
  function Flat(ts: seq<Task>): seq<Info>
  {
    if ts == [] then [] else [InfoOf(ts[0])] + Flat(ts[0].subtasks) + Flat(ts[1..])
  }

  // ---------------------------------------------------------------------
  // Lemmas about concatenation

  lemma {:induction false} SingletonTail(t: Task)
    ensures [t][1..] == []
    ensures Ids([t]) == {t.id} + Ids(t.subtasks)
    ensures Size([t]) == 1 + Size(t.subtasks)
    ensures Unique([t]) <==> t.id !in Ids(t.subtasks) && Unique(t.subtasks)
  {
    assert [t][1..] == [];
  }

  lemma {:induction false} IdsAppend(a: seq<Task>, b: seq<Task>)
    ensures Ids(a + b) == Ids(a) + Ids(b)
  {
    if a != [] {
      assert (a + b)[0] == a[0];
      assert (a + b)[1..] == a[1..] + b;
      IdsAppend(a[1..], b);
    } else {
      assert a + b == b;
    }
  }

  lemma {:induction false} SizeAppend(a: seq<Task>, b: seq<Task>)
    ensures Size(a + b) == Size(a) + Size(b)
  {
    if a != [] {
      assert (a + b)[0] == a[0];
      assert (a + b)[1..] == a[1..] + b;
      SizeAppend(a[1..], b);
    } else {
      assert a + b == b;
    }
  }

  lemma {:induction false} UniqueAppend(a: seq<Task>, b: seq<Task>)
    ensures Unique(a + b) <==> Unique(a) && Unique(b) && Ids(a) !! Ids(b)
  {
    if a != [] {
      assert (a + b)[0] == a[0];
      assert (a + b)[1..] == a[1..] + b;
      UniqueAppend(a[1..], b);
      IdsAppend(a[1..], b);
    } else {
      assert a + b == b;
    }
  }

  lemma {:induction false} FindAppend(a: seq<Task>, b: seq<Task>, id: string)
    ensures Find(a + b, id) == if Find(a, id).Some? then Find(a, id) else Find(b, id)
  {
    if a != [] {
      assert (a + b)[0] == a[0];
      assert (a + b)[1..] == a[1..] + b;
      FindAppend(a[1..], b, id);
    } else {
      assert a + b == b;
    }
  }

  // ---------------------------------------------------------------------
  // Lemmas about search

  /** Find succeeds exactly on the ids present, and what it finds is a whole subtree of the forest. */
  lemma {:induction false} FindFound(ts: seq<Task>, id: string)
    ensures Find(ts, id).Some? <==> id in Ids(ts)
    ensures Find(ts, id).Some? ==>
      && Find(ts, id).value.id == id
      && Ids([Find(ts, id).value]) <= Ids(ts)
      && Size([Find(ts, id).value]) <= Size(ts)
  {
    if ts != [] {
      FindFound(ts[0].subtasks, id);
      FindFound(ts[1..], id);
      SingletonTail(ts[0]);
    }
  }

  /** The root ids are among the ids. */
  lemma {:induction false} RootIdsInIds(ts: seq<Task>, i: int)
    requires 0 <= i < |ts|
    ensures ts[i].id in Ids(ts)
  {
    if i > 0 {
      RootIdsInIds(ts[1..], i - 1);
    }
  }

  /** Moving one root tree to the front changes neither ids, size nor uniqueness. */
  lemma {:induction false} MoveToFront(l: seq<Task>, x: Task, r: seq<Task>)
    ensures Ids(l + [x] + r) == Ids([x] + (l + r))
    ensures Size(l + [x] + r) == Size([x] + (l + r))
    ensures Unique(l + [x] + r) <==> Unique([x] + (l + r))
  {
    IdsAppend([x], l + r);
    SizeAppend([x], l + r);
    UniqueAppend([x], l + r);
    IdsAppend(l, r);
    SizeAppend(l, r);
    UniqueAppend(l, r);
    IdsAppend(l + [x], r);
    SizeAppend(l + [x], r);
    UniqueAppend(l + [x], r);
    IdsAppend(l, [x]);
    SizeAppend(l, [x]);
    UniqueAppend(l, [x]);
  }

  /** Ids, size and uniqueness only depend on the multiset of root trees. */
  lemma {:induction false} PermutationInvariant(a: seq<Task>, b: seq<Task>)
    requires multiset(a) == multiset(b)
    ensures Ids(a) == Ids(b) && Size(a) == Size(b) && (Unique(a) <==> Unique(b))
    decreases |a|
  {
    if a == [] {
      assert |b| == |multiset(b)| == 0;
    } else {
      var x := a[0];
      assert x in multiset(b);
      var i :| 0 <= i < |b| && b[i] == x;
      var l, r := b[..i], b[i + 1..];
      assert b == l + [x] + r;
      assert a == [x] + a[1..];
      assert multiset(a[1..]) == multiset(a) - multiset{x};
      assert multiset(l + r) == multiset(b) - multiset{x};
      PermutationInvariant(a[1..], l + r);
      MoveToFront(l, x, r);
      IdsAppend([x], a[1..]);
      SizeAppend([x], a[1..]);
      UniqueAppend([x], a[1..]);
      IdsAppend([x], l + r);
      SizeAppend([x], l + r);
      UniqueAppend([x], l + r);
    }
  }

  /** With unique ids, the number of tasks is the number of distinct ids. */
  lemma {:induction false} UniqueSizeIsIdCount(ts: seq<Task>)
    requires Unique(ts)
    ensures |Ids(ts)| == Size(ts)
  {
    if ts != [] {
      UniqueSizeIsIdCount(ts[0].subtasks);
      UniqueSizeIsIdCount(ts[1..]);
      var a, b := Ids(ts[0].subtasks), Ids(ts[1..]);
      assert a * b == {};
      assert |a + b| == |a| + |b|;
      assert {ts[0].id} * (a + b) == {};
      assert |{ts[0].id} + (a + b)| == 1 + |a + b|;
      assert Ids(ts) == {ts[0].id} + (a + b);
    }
  }

  /** Roots with the same ids in the same order give the same child-id list. */
  lemma {:induction false} SameRootIds(a: seq<Task>, b: seq<Task>)
    requires |a| == |b| && forall i :: 0 <= i < |a| ==> a[i].id == b[i].id
    ensures RootIds(a) == RootIds(b)
  {
    assert forall i :: 0 <= i < |a| ==> RootIds(a)[i] == RootIds(b)[i];
  }

  lemma {:induction false} FlatAppend(a: seq<Task>, b: seq<Task>)
    ensures Flat(a + b) == Flat(a) + Flat(b)
  {
    if a == [] {
      assert a + b == b;
    } else {
      assert (a + b)[0] == a[0];
      assert (a + b)[1..] == a[1..] + b;
      FlatAppend(a[1..], b);
    }
  }

  /** Every entry of the listing belongs to a task of the trees. */
  lemma {:induction false} FlatIds(ts: seq<Task>)
    ensures forall i :: i in multiset(Flat(ts)) ==> i.id in Ids(ts)
  {
    if ts != [] {
      FlatIds(ts[0].subtasks);
      FlatIds(ts[1..]);
    }
  }

  /** The multiset of listing entries only depends on the multiset of root trees. */
  lemma {:induction false} FlatPermutes(a: seq<Task>, b: seq<Task>)
    requires multiset(a) == multiset(b)
    ensures multiset(Flat(a)) == multiset(Flat(b))
    decreases |a|
  {
    if a == [] {
      assert |b| == |multiset(b)| == 0;
    } else {
      var x := a[0];
      assert x in multiset(b);
      var i :| 0 <= i < |b| && b[i] == x;
      var l, r := b[..i], b[i + 1..];
      assert b == l + [x] + r;
      assert a == [x] + a[1..];
      assert multiset(a[1..]) == multiset(a) - multiset{x};
      assert multiset(l + r) == multiset(b) - multiset{x};
      FlatPermutes(a[1..], l + r);
      FlatAppend([x], a[1..]);
      FlatAppend(l + [x], r);
      FlatAppend(l, [x]);
      FlatAppend(l, r);
    }
  }

  /** The pre-order listing has one entry per task. */
  lemma {:induction false} FlatSize(ts: seq<Task>)
    ensures |Flat(ts)| == Size(ts)
  {
    if ts != [] {
      FlatSize(ts[0].subtasks);
      FlatSize(ts[1..]);
    }
  }

  // ---------------------------------------------------------------------
  // Lemmas about the lanes

  /** The forest's task list seen around lane j. */
  lemma {:induction false} AllTasksSplit(gs: seq<TaskGroup>, j: int)
    requires 0 <= j < |gs|
    ensures AllTasks(gs) == AllTasks(gs[..j]) + gs[j].tasks + AllTasks(gs[j + 1..])
  {
    if j == 0 {
      assert gs[..0] == [];
      assert gs[1..] == gs[j + 1..];
    } else {
      AllTasksSplit(gs[1..], j - 1);
      assert gs[1..][..j - 1] == gs[1..j];
      assert gs[1..][j - 1] == gs[j];
      assert gs[1..][j..] == gs[j + 1..];
      assert gs[..j] == [gs[0]] + gs[1..j];
      assert gs[..j][0] == gs[0] && gs[..j][1..] == gs[1..j];
    }
  }

  /**
   * Replacing the root tasks of lane j by `ts` keeps the forest well formed
   * when `ts` is itself unique and brings in no id found elsewhere in the forest.
   */
  lemma {:induction false} ReplaceTasksWellFormed(gs: seq<TaskGroup>, j: int, ts: seq<Task>)
    requires WellFormed(gs) && 0 <= j < |gs|
    requires Unique(ts)
    requires Ids(ts) * Ids(AllTasks(gs)) <= Ids(gs[j].tasks)
    ensures WellFormed(gs[j := gs[j].(tasks := ts)])
    ensures Ids(AllTasks(gs[j := gs[j].(tasks := ts)])) == Ids(AllTasks(gs)) - Ids(gs[j].tasks) + Ids(ts)
    ensures Size(AllTasks(gs[j := gs[j].(tasks := ts)])) + Size(gs[j].tasks) == Size(AllTasks(gs)) + Size(ts)
  {
    var hs := gs[j := gs[j].(tasks := ts)];
    AllTasksSplit(gs, j);
    AllTasksSplit(hs, j);
    assert hs[..j] == gs[..j] && hs[j + 1..] == gs[j + 1..];
    var pre, post := AllTasks(gs[..j]), AllTasks(gs[j + 1..]);
    UniqueAppend(pre + gs[j].tasks, post);
    UniqueAppend(pre, gs[j].tasks);
    UniqueAppend(pre + ts, post);
    UniqueAppend(pre, ts);
    IdsAppend(pre + gs[j].tasks, post);
    IdsAppend(pre, gs[j].tasks);
    IdsAppend(pre + ts, post);
    IdsAppend(pre, ts);
    SizeAppend(pre + gs[j].tasks, post);
    SizeAppend(pre, gs[j].tasks);
    SizeAppend(pre + ts, post);
    SizeAppend(pre, ts);
  }
}
