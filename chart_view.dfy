/**
 * The chart-practice checklist: one checkbox per generated chart task,
 * a count of the ticked ones and the "all tasks complete" message.
 */
module ChartView {
  import opened Wrappers

  /** `completedTasks.filter(Boolean).length`. */
  function CountTrue(s: seq<bool>): (n: nat)
    ensures n <= |s|
  {
    if s == [] then 0 else CountTrue(s[..|s| - 1]) + (if s[|s| - 1] then 1 else 0)
  }

  /**
   * A copy of the vector with entry i negated. Past the end a JavaScript
   * array grows: the holes read as unticked and entry i becomes `!undefined`.
   */
  function Flip(s: seq<bool>, i: nat): (r: seq<bool>)
    ensures |r| == if i < |s| then |s| else i + 1
    ensures r[i] == !(i < |s| && s[i])
    ensures forall j :: 0 <= j < |s| && j != i ==> r[j] == s[j]
    ensures forall j :: |s| <= j < |r| && j != i ==> !r[j]
  {
    if i < |s| then s[i := !s[i]] else s + seq(i - |s|, _ => false) + [true]
  }

  /** The completion message: every task ticked, and there is at least one task. */
  predicate IsAllComplete(completedCount: nat, totalTasks: nat) {
    completedCount == totalTasks && totalTasks > 0
  }

  /** Toggling the same checkbox twice restores the vector. */
  lemma FlipTwice(s: seq<bool>, i: nat)
    requires i < |s|
    ensures Flip(Flip(s, i), i) == s
  {
  }

  lemma {:induction false} CountTrueAppend(s: seq<bool>, t: seq<bool>)
    ensures CountTrue(s + t) == CountTrue(s) + CountTrue(t)
    decreases |t|
  {
    if t == [] {
      assert s + t == s;
    } else {
      assert (s + t)[..|s + t| - 1] == s + t[..|t| - 1];
      CountTrueAppend(s, t[..|t| - 1]);
    }
  }

  lemma CountSplit(s: seq<bool>, i: nat)
    requires i < |s|
    ensures CountTrue(s) == CountTrue(s[..i]) + (if s[i] then 1 else 0) + CountTrue(s[i + 1..])
  {
    var pre, mid, post := s[..i], [s[i]], s[i + 1..];
    assert s == (pre + mid) + post;
    CountTrueAppend(pre + mid, post);
    CountTrueAppend(pre, mid);
    CountTrueSingle(s[i]);
  }

  lemma CountTrueSingle(b: bool)
    ensures CountTrue([b]) == if b then 1 else 0
  {
    assert [b][..0] == [];
  }

  /** Ticking an unticked task raises the count by one; unticking lowers it by one. */
  lemma CountAfterFlip(s: seq<bool>, i: nat)
    requires i < |s|
    ensures CountTrue(Flip(s, i)) == if s[i] then CountTrue(s) - 1 else CountTrue(s) + 1
  {
    var r := Flip(s, i);
    assert r[..i] == s[..i];
    assert r[i + 1..] == s[i + 1..];
    CountSplit(s, i);
    CountSplit(r, i);
  }

  /** The count reaches the length exactly when every entry is ticked. */
  lemma {:induction false} CountTrueFull(s: seq<bool>)
    ensures CountTrue(s) == |s| <==> forall j :: 0 <= j < |s| ==> s[j]
  {
    if s != [] {
      var init := s[..|s| - 1];
      CountTrueFull(init);
      assert forall j :: 0 <= j < |init| ==> init[j] == s[j];
    }
  }

  /** For a vector of the task count, the message shows iff there are tasks and all are ticked. */
  lemma AllCompleteIffAllTicked(s: seq<bool>)
    ensures IsAllComplete(CountTrue(s), |s|) <==> |s| > 0 && forall j :: 0 <= j < |s| ==> s[j]
  {
    CountTrueFull(s);
  }

  /** With N - 1 of N tasks ticked, ticking the remaining one completes the checklist. */
  lemma LastTickCompletes(s: seq<bool>, i: nat)
    requires i < |s| && !s[i] && CountTrue(s) == |s| - 1
    ensures IsAllComplete(CountTrue(Flip(s, i)), |s|)
  {
    CountAfterFlip(s, i);
  }

  class ChecklistTracker {
    var chartTasks: Option<seq<string>>
    var completed: array<bool>

    /** One checkbox per loaded task (none before loading). */
    ghost predicate Valid()
      reads this
    {
      completed.Length == TotalTasks()
    }

    /** The view as mounted: no tasks, an empty vector. */
    constructor ()
      ensures Valid()
      ensures chartTasks == None && completed.Length == 0
    {
      chartTasks := None;
      completed := new bool[0];
    }

    /** `loadChartTasks` succeeded: keep the tasks and start a vector of unticked boxes. */
    method Load(tasks: seq<string>)
      modifies this
      ensures Valid()
      ensures chartTasks == Some(tasks) && fresh(completed)
      ensures completed.Length == |tasks|
      ensures forall j :: 0 <= j < completed.Length ==> !completed[j]
    {
      chartTasks := Some(tasks);
      var unticked := new bool[|tasks|];
      for i := 0 to |tasks|
        modifies unticked
        invariant forall j :: 0 <= j < i ==> !unticked[j]
      {
        unticked[i] := false;
      }
      completed := unticked;
    }

    /** `toggleTaskCompletion`: copy the vector, negate entry index, store the copy. */
    method Toggle(index: nat)
      modifies this
      ensures fresh(completed)
      ensures completed[..] == Flip(old(completed[..]), index)
      ensures chartTasks == old(chartTasks)
      ensures old(Valid()) && index < old(completed.Length) ==> Valid()
      ensures index < old(completed.Length) ==>
        CompletedCount() == if old(completed[index]) then old(CompletedCount()) - 1 else old(CompletedCount()) + 1
      ensures
        (old(Valid()) && index < old(completed.Length) && !old(completed[index])
         && old(CompletedCount()) + 1 == old(completed.Length)) ==> AllComplete()
    {
      ghost var before := completed[..];
      var current := completed;
      var len := if index < current.Length then current.Length else index + 1;
      var copy := new bool[len](_ => false);
      for j := 0 to current.Length
        modifies copy
        invariant forall k :: 0 <= k < j ==> copy[k] == current[k]
        invariant forall k :: current.Length <= k < len ==> !copy[k]
      {
        copy[j] := current[j];
      }
      copy[index] := !copy[index];
      completed := copy;
      if index < |before| {
        CountAfterFlip(before, index);
        if !before[index] && CountTrue(before) + 1 == |before| {
          LastTickCompletes(before, index);
          AllCompleteIffAllTicked(completed[..]);
        }
      }
    }

    /** `completedCount`: never more than the vector's length, which is the task count. */
    function CompletedCount(): (n: nat)
      reads this, completed
      ensures n <= completed.Length
      ensures Valid() ==> n <= TotalTasks()
      ensures n == completed.Length <==> forall j :: 0 <= j < completed.Length ==> completed[j]
    {
      CountTrueFull(completed[..]);
      CountTrue(completed[..])
    }

    /** `totalTasks`: the number of loaded tasks, 0 before loading. */
    function TotalTasks(): (n: nat)
      reads this
      ensures chartTasks.None? ==> n == 0
    {
      if chartTasks.Some? then |chartTasks.value| else 0
    }

    /** The completion message: every box of a non-empty checklist is ticked. */
    predicate AllComplete(): (b: bool)
      reads this, completed
      ensures Valid() ==> (b <==> completed.Length > 0 && forall j :: 0 <= j < completed.Length ==> completed[j])
    {
      AllCompleteIffAllTicked(completed[..]);
      IsAllComplete(CompletedCount(), TotalTasks())
    }
  }
}
