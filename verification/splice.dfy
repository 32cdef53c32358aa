/**
 * The two uses of JavaScript's Array.prototype.splice in the task engine:
 * taking out the element at a position and inserting one element at a
 * position. A position given to splice that is negative counts from the
 * end, and one past the end is clamped to the length.
 */
module Splice {

  /** The position splice actually uses for `i` on an array of length `len`. */
  function ClampIndex(i: int, len: nat): (k: nat)
    ensures k <= len
    ensures 0 <= i <= len ==> k == i
  {
    if i < 0 then (if len + i < 0 then 0 else len + i)
    else if i <= len then i
    else len
  }

  /** `splice(i, 1)` with 0 <= i < length: the remaining elements. */
  function RemoveAt<T>(s: seq<T>, i: nat): (r: seq<T>)
    requires i < |s|
    ensures |r| == |s| - 1
    ensures forall j :: 0 <= j < i ==> r[j] == s[j]
    ensures forall j :: i <= j < |r| ==> r[j] == s[j + 1]
  {
    s[..i] + s[i + 1..]
  }

  /** `splice(i, 0, x)`: x is inserted at the clamped position, the rest shifts right. */
  function InsertAt<T>(s: seq<T>, i: int, x: T): (r: seq<T>)
    ensures |r| == |s| + 1
    ensures r[ClampIndex(i, |s|)] == x
    ensures forall j :: 0 <= j < ClampIndex(i, |s|) ==> r[j] == s[j]
    ensures forall j :: ClampIndex(i, |s|) < j < |r| ==> r[j] == s[j - 1]
  {
    var k := ClampIndex(i, |s|);
    s[..k] + [x] + s[k..]
  }

  /**
   * The reorder step of reorderTasks and reorderSubtasks: take out the
   * element at `start`, then insert it at `end` of the shortened sequence.
   */
  function Reorder<T>(s: seq<T>, start: nat, end: int): (r: seq<T>)
    requires start < |s|
    ensures |r| == |s|
    ensures r[Landing(|s|, end)] == s[start]
  {
    InsertAt(RemoveAt(s, start), end, s[start])
  }

  /** Where the moved element lands: `end`, clamped to the last position. */
  function Landing(len: nat, end: int): nat
    requires 0 < len
  {
    ClampIndex(end, len - 1)
  }

  /**
   * Reorder moves the element at `start` to Landing(|s|, end); the elements
   * in between shift by one towards the gap and all others stay put.
   */
  lemma {:induction false} ReorderMoves<T>(s: seq<T>, start: nat, end: int)
    requires start < |s|
    ensures |Reorder(s, start, end)| == |s|
    ensures Reorder(s, start, end)[Landing(|s|, end)] == s[start]
    ensures forall j :: 0 <= j < |s| ==>
      Reorder(s, start, end)[j] ==
        (if j == Landing(|s|, end) then s[start]
         else if start <= j < Landing(|s|, end) then s[j + 1]
         else if Landing(|s|, end) < j <= start then s[j - 1]
         else s[j])
  {
    var rest := RemoveAt(s, start);
    var k := Landing(|s|, end);
    var r := Reorder(s, start, end);
    assert k == ClampIndex(end, |rest|);
    forall j | 0 <= j < |s|
      ensures r[j] ==
        (if j == k then s[start]
         else if start <= j < k then s[j + 1]
         else if k < j <= start then s[j - 1]
         else s[j])
    {
      if j < k {
        assert r[j] == rest[j];
      } else if j > k {
        assert r[j] == rest[j - 1];
      }
    }
  }

  /** Inserting adds exactly the inserted element to the multiset. */
  lemma {:induction false} InsertAtPermutes<T>(s: seq<T>, i: int, x: T)
    ensures multiset(InsertAt(s, i, x)) == multiset(s) + multiset{x}
  {
    var k := ClampIndex(i, |s|);
    assert s == s[..k] + s[k..];
  }

  /**
   * The in-place effect of `splice(start, 1)` followed by `splice(end, 0, x)`
   * on an array: the element at `start` moves to its landing position and
   * the elements in between shift by one towards the gap.
   */
  method SpliceMove<T>(a: array<T>, start: nat, end: int)
    requires start < a.Length
    modifies a
    ensures a[..] == Reorder(old(a[..]), start, end)
  {
    ghost var s := a[..];
    var k := Landing(a.Length, end);
    var x := a[start];
    if start < k {
      var i := start;
      while i < k
        invariant start <= i <= k
        invariant forall j :: 0 <= j < start ==> a[j] == s[j]
        invariant forall j :: start <= j < i ==> a[j] == s[j + 1]
        invariant forall j :: i <= j < a.Length ==> a[j] == s[j]
      {
        a[i] := a[i + 1];
        i := i + 1;
      }
    } else {
      var i := start;
      while i > k
        invariant k <= i <= start
        invariant forall j :: 0 <= j <= i ==> a[j] == s[j]
        invariant forall j :: i < j <= start ==> a[j] == s[j - 1]
        invariant forall j :: start < j < a.Length ==> a[j] == s[j]
      {
        a[i] := a[i - 1];
        i := i - 1;
      }
    }
    a[k] := x;
    MatchesReorder(a[..], s, start, end);
  }

  /** A sequence laid out the way ReorderMoves describes is the reorder. */
  lemma {:induction false} MatchesReorder<T>(r: seq<T>, s: seq<T>, start: nat, end: int)
    requires start < |s| && |r| == |s|
    requires r[Landing(|s|, end)] == s[start]
    requires forall j :: 0 <= j < start && j < Landing(|s|, end) ==> r[j] == s[j]
    requires forall j :: start <= j < Landing(|s|, end) ==> r[j] == s[j + 1]
    requires forall j :: Landing(|s|, end) < j <= start ==> r[j] == s[j - 1]
    requires forall j :: start < j < |s| && Landing(|s|, end) < j ==> r[j] == s[j]
    ensures r == Reorder(s, start, end)
  {
    ReorderMoves(s, start, end);
  }

  /** Reorder keeps the length and the multiset of elements. */
  lemma {:induction false} ReorderPermutes<T>(s: seq<T>, start: nat, end: int)
    requires start < |s|
    ensures |Reorder(s, start, end)| == |s|
    ensures multiset(Reorder(s, start, end)) == multiset(s)
  {
    var x := s[start];
    var rest := RemoveAt(s, start);
    assert s == s[..start] + [x] + s[start + 1..];
    assert multiset(rest) + multiset{x} == multiset(s);
    var k := ClampIndex(end, |rest|);
    assert rest == rest[..k] + rest[k..];
    assert Reorder(s, start, end) == rest[..k] + [x] + rest[k..];
  }

  /** Reordering an element onto its own position changes nothing. */
  lemma {:induction false} ReorderInPlace<T>(s: seq<T>, i: nat)
    requires i < |s|
    ensures Reorder(s, i, i) == s
  {
    ReorderMoves(s, i, i);
    assert Landing(|s|, i) == i;
  }

  /** Reordering from a to b and then from b back to a restores the sequence. */
  lemma {:induction false} ReorderRoundTrip<T>(s: seq<T>, a: nat, b: nat)
    requires a < |s| && b < |s|
    ensures Reorder(Reorder(s, a, b), b, a) == s
  {
    var once := Reorder(s, a, b);
    ReorderMoves(s, a, b);
    assert Landing(|s|, b) == b;
    ReorderMoves(once, b, a);
    assert Landing(|once|, a) == a;
    var twice := Reorder(once, b, a);
    forall j | 0 <= j < |s|
      ensures twice[j] == s[j]
    {
      if a < b {
        if a < j <= b {
          assert twice[j] == once[j - 1];
        }
      } else if b < a {
        if b <= j < a {
          assert twice[j] == once[j + 1];
        }
      }
    }
  }
}
