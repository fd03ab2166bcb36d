/** One merge pass: groups of runs become wider runs. */
module Passes {
  import opened Prelude
  import opened Sorting
  import opened WinnerTree
  import BatchMerge

  /** Between groups: what has been read of `file` is in `pass`, in runs of
      `wide`. */
  ghost predicate PassOk<T>(le: (T, T) -> bool, file: seq<T>, pass: seq<T>, width: nat, wide: nat) {
    && width > 0 && wide > 0 && |pass| <= |file|
    && Runs(le, file[|pass|..], width)
    && multiset(pass) == multiset(file[..|pass|])
    && Runs(le, pass, wide)
    && (|pass| < |file| ==> FullRuns(le, pass, wide))
  }

  /** Inside the group `gs..groupEnd`. */
  ghost predicate GroupOk<T>(le: (T, T) -> bool, file: seq<T>, pass: seq<T>, width: nat, wide: nat, gs: nat,
                             t: Tree<T>) {
    && width > 0 && wide > 0
    && gs <= |pass| && gs < t.groupEnd <= |file| && t.groupEnd - gs <= wide
    && (t.groupEnd < |file| ==> t.groupEnd - gs == wide)
    && FullRuns(le, pass[..gs], wide) && multiset(pass[..gs]) == multiset(file[..gs])
    && Runs(le, file[t.groupEnd..], width)
    && Merging(le, file, t, multiset(file[gs..t.groupEnd]), pass[gs..])
  }

  lemma GroupCounts<T>(le: (T, T) -> bool, file: seq<T>, pass: seq<T>, width: nat, wide: nat, gs: nat, t: Tree<T>)
    requires GroupOk(le, file, pass, width, wide, gs, t)
    ensures |pass| <= t.groupEnd
  {
    hide Runs, FullRuns, Sorted, AllBefore, AllUnread;
    var group := file[gs..t.groupEnd];
    assert |multiset(group)| == |group|;
    assert |multiset(pass[gs..])| == |pass[gs..]|;
  }

  /** The group does not depend on the inner nodes. */
  lemma {:induction false} GroupOfRuns<T>(le: (T, T) -> bool, file: seq<T>, pass: seq<T>, width: nat, wide: nat,
                                          gs: nat, t: Tree<T>, t': Tree<T>)
    requires GroupOk(le, file, pass, width, wide, gs, t) && t'.Shaped()
    requires t' == t.(nodes := t'.nodes, stage := t'.stage)
    ensures GroupOk(le, file, pass, width, wide, gs, t')
  {
    hide Runs, FullRuns, Sorted, AllBefore, AllUnread;
    forall r | 0 <= r < |t'.heads|
      ensures RunOk(le, file, t', r) && AllBefore(le, pass[gs..], Unread(file, t', r))
    {
      assert RunOk(le, file, t, r) && AllBefore(le, pass[gs..], Unread(file, t, r));
    }
  }

  /** A finished group leaves one more wide run. */
  lemma GroupEnds<T(!new)>(le: (T, T) -> bool, file: seq<T>, pass: seq<T>, width: nat, wide: nat, gs: nat, t: Tree<T>)
    requires TotalPreorder(le) && Valid(le, t) && t.stage.Emit? && t.nodes[1] == EMPTY
    requires GroupOk(le, file, pass, width, wide, gs, t)
    ensures |pass| == t.groupEnd && PassOk(le, file, pass, width, wide)
    ensures forall r :: 0 <= r < |t.heads| ==> t.next[r] == t.end[r] && t.heads[r].None?
  {
    hide Runs, FullRuns, Sorted, AllBefore, AllUnread, Valid, TotalPreorder;
    var group, out := file[gs..t.groupEnd], pass[gs..];
    GroupDone(le, file, t, multiset(group), out);
    assert |multiset(group)| == |group| && |multiset(out)| == |out|;
    AppendRun(le, pass[..gs], out, wide);
    assert pass == pass[..gs] + out;
    assert file[..t.groupEnd] == file[..gs] + group;
  }

  /** Writing the winner's record keeps the group. */
  lemma GroupEmits<T(!new)>(le: (T, T) -> bool, file: seq<T>, pass: seq<T>, width: nat, wide: nat, gs: nat, t: Tree<T>)
    requires TotalPreorder(le) && Valid(le, t) && t.stage.Emit? && t.leaves > 1
    requires GroupOk(le, file, pass, width, wide, gs, t)
    requires t.nodes[1] != EMPTY
    ensures t.nodes[1] < |t.heads| && t.heads[t.nodes[1]].Some?
    ensures var run := t.nodes[1];
            t.next[run] < t.end[run] <= |file| && t.heads[run] == Some(file[t.next[run]])
    ensures var run := t.nodes[1];
            var k := t.next[run] + 1;
            var head := if k < t.end[run] then Some(file[k]) else None;
            && GroupOk(le, file, pass + [t.heads[run].value], width, wide, gs, AfterEmit(t, run, head))
            && Valid(le, AfterEmit(t, run, head))
  {
    hide Runs, FullRuns, Sorted, AllBefore, AllUnread, TotalPreorder;
    assert Named(t, 1);
    var run := t.nodes[1];
    assert RunOk(le, file, t, run);
    var k := t.next[run] + 1;
    var head := if k < t.end[run] then Some(file[k]) else None;
    EmitMerges(le, file, t, multiset(file[gs..t.groupEnd]), pass[gs..]);
    EmitKeepsValid(le, t, run, head);
    var longer := pass + [t.heads[run].value];
    assert longer[gs..] == pass[gs..] + [t.heads[run].value];
    assert longer[..gs] == pass[..gs];
  }

  // ------------------------------------------------------------ starting a group

  ghost predicate LeafStarted<T>(t: Tree<T>, k: nat, r: nat)
    requires t.Shaped() && r < t.leaves && k <= |t.heads|
  {
    t.nodes[t.leaves + r] == if r < k && t.heads[r].Some? then r else EMPTY
  }

  /** The first `k` runs of the group from `gs` are set up, up to `start`. Only
      `n` runs will be; what the tree holds for those to come does not matter. */
  ghost predicate Starting<T>(le: (T, T) -> bool, file: seq<T>, t: Tree<T>, width: nat, gs: nat, k: nat, start: nat,
                              n: nat) {
    && t.Shaped() && t.leaves > 1 && t.stage.Idle? && width > 0
    && k <= n <= |t.heads| && gs <= start <= |file|
    && InBounds(file, t)
    && (forall r :: 0 <= r < k ==> RunOk(le, file, t, r))
    && (forall r :: n <= r < |t.heads| ==> t.heads[r].None? && t.next[r] == t.end[r])
    && (forall r :: 0 <= r < t.leaves ==> LeafStarted(t, k, r))
    && AllUnread(file, t.next, t.end, k) == multiset(file[gs..start])
    && Runs(le, file[start..], width)
  }

  function WithRun<T>(t: Tree<T>, k: nat, start: nat, end: nat, head: Option<T>): Tree<T>
    requires t.Shaped() && k < |t.heads|
  {
    t.(next := t.next[k := start],
       end := t.end[k := end],
       heads := t.heads[k := head],
       nodes := if head.Some? then t.nodes[t.leaves + k := k] else t.nodes)
  }

  lemma {:induction false} SameUnread<T>(file: seq<T>, t: Tree<T>, t': Tree<T>, k: nat)
    requires t.Shaped() && t'.Shaped() && |t.heads| == |t'.heads| && k <= |t.heads|
    requires InBounds(file, t) && InBounds(file, t')
    requires forall r :: 0 <= r < k ==> t.next[r] == t'.next[r] && t.end[r] == t'.end[r]
    ensures AllUnread(file, t.next, t.end, k) == AllUnread(file, t'.next, t'.end, k)
    decreases k
  {
    if k > 0 {
      SameUnread(file, t, t', k - 1);
    }
  }

  lemma UnreadStep<T>(file: seq<T>, t: Tree<T>, k: nat)
    requires t.Shaped() && k < |t.heads| && InBounds(file, t)
    ensures AllUnread(file, t.next, t.end, k + 1)
         == AllUnread(file, t.next, t.end, k) + multiset(file[t.next[k]..t.end[k]])
  {}

  /** Setting up run `k` leaves the runs before it as they were. */
  lemma EarlierRun<T>(le: (T, T) -> bool, file: seq<T>, t: Tree<T>, t': Tree<T>, r: nat)
    requires t.Shaped() && t'.Shaped() && r < |t.heads| == |t'.heads| && RunOk(le, file, t, r)
    requires t.next[r] == t'.next[r] && t.end[r] == t'.end[r] && t.heads[r] == t'.heads[r]
    ensures RunOk(le, file, t', r)
  {
    hide Sorted;
  }

  /** The run set up is the next one of the file. */
  lemma NewRun<T>(le: (T, T) -> bool, file: seq<T>, t: Tree<T>, width: nat, k: nat, start: nat, end: nat)
    requires t.Shaped() && k < |t.heads| && width > 0 && start <= |file| && Runs(le, file[start..], width)
    requires end == Min(start + width, |file|)
    ensures var head := if start < end then Some(file[start]) else None;
            RunOk(le, file, WithRun(t, k, start, end, head), k) && Runs(le, file[end..], width)
  {
    hide Sorted, Runs;
    BatchMerge.RunAt(le, file, width, start, end);
  }

  lemma NewLeaf<T>(t: Tree<T>, k: nat, start: nat, end: nat, head: Option<T>, r: nat)
    requires t.Shaped() && k < |t.heads| && r < t.leaves && LeafStarted(t, k, r)
    ensures LeafStarted(WithRun(t, k, start, end, head), k + 1, r)
  {}

  /** The unread records grow by those of the run set up. */
  lemma NewUnread<T>(file: seq<T>, t: Tree<T>, gs: nat, k: nat, start: nat, end: nat, head: Option<T>)
    requires t.Shaped() && k < |t.heads| && InBounds(file, t) && gs <= start <= end <= |file|
    requires AllUnread(file, t.next, t.end, k) == multiset(file[gs..start])
    ensures var t' := WithRun(t, k, start, end, head);
            InBounds(file, t') && AllUnread(file, t'.next, t'.end, k + 1) == multiset(file[gs..end])
  {
    hide AllUnread;
    var t' := WithRun(t, k, start, end, head);
    SameUnread(file, t, t', k);
    UnreadStep(file, t', k);
    assert file[gs..end] == file[gs..start] + file[start..end];
  }

  lemma StartRun<T>(le: (T, T) -> bool, file: seq<T>, t: Tree<T>, width: nat, gs: nat, k: nat, start: nat, n: nat)
    requires Starting(le, file, t, width, gs, k, start, n) && k < n
    ensures var end := Min(start + width, |file|);
            var head := if start < end then Some(file[start]) else None;
            Starting(le, file, WithRun(t, k, start, end, head), width, gs, k + 1, end, n)
  {
    hide Runs, RunOk, AllUnread, LeafStarted, InBounds;
    var end := Min(start + width, |file|);
    var head := if start < end then Some(file[start]) else None;
    var t' := WithRun(t, k, start, end, head);
    NewRun(le, file, t, width, k, start, end);
    NewUnread(file, t, gs, k, start, end, head);
    forall r | 0 <= r < k
      ensures RunOk(le, file, t', r)
    {
      EarlierRun(le, file, t, t', r);
    }
    var k' := k + 1;
    forall r | 0 <= r < t.leaves
      ensures LeafStarted(t', k', r)
    {
      NewLeaf(t, k, start, end, head, r);
    }
  }

  lemma {:induction false} IdleRuns<T>(file: seq<T>, t: Tree<T>, k: nat, n: nat)
    requires t.Shaped() && k <= n <= |t.heads| && InBounds(file, t)
    requires forall r :: k <= r < |t.heads| ==> t.next[r] == t.end[r]
    ensures AllUnread(file, t.next, t.end, n) == AllUnread(file, t.next, t.end, k)
    decreases n
  {
    if k < n {
      hide AllUnread;
      IdleRuns(file, t, k, n - 1);
      UnreadStep(file, t, n - 1);
      assert file[t.next[n - 1]..t.end[n - 1]] == [];
    }
  }

  /** With every run set up the tree can be built and the group merged. */
  lemma GroupStarts<T>(le: (T, T) -> bool, file: seq<T>, pass: seq<T>, t: Tree<T>, width: nat, wide: nat, k: nat,
                       start: nat)
    requires PassOk(le, file, pass, width, wide) && |pass| < start
    requires Starting(le, file, t, width, |pass|, k, start, k)
    requires start - |pass| <= wide && (start < |file| ==> start - |pass| == wide)
    ensures var t' := t.(groupEnd := start, stage := Build(t.leaves - 1));
            Valid(le, t') && GroupOk(le, file, pass, width, wide, |pass|, t')
  {
    hide Runs, FullRuns, Sorted, AllUnread;
    var t' := t.(groupEnd := start, stage := Build(t.leaves - 1));
    forall r | 0 <= r < t.leaves
      ensures LeafOk(t', r)
    {
      assert LeafStarted(t, k, r);
    }
    forall r | 0 <= r < |t.heads|
      ensures RunOk(le, file, t', r) && AllBefore(le, [], Unread(file, t', r))
    {
      if r < k {
        assert RunOk(le, file, t, r);
      } else {
        EmptySorted(le, file, t.next[r]);
      }
    }
    IdleRuns(file, t, k, |t.heads|);
    SameUnread(file, t, t', |t.heads|);
    assert pass[|pass|..] == [] && pass[..|pass|] == pass;
    EmptySorted(le, pass, |pass|);
  }

  lemma EmptySorted<T>(le: (T, T) -> bool, s: seq<T>, i: nat)
    requires i <= |s|
    ensures Sorted(le, s[i..i]) && Sorted(le, []) && s[i..i] == []
  {}
}
