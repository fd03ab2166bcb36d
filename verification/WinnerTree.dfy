/** The winner tree that merges one group of sorted runs. */
module WinnerTree {
  import opened Prelude
  import opened Sorting

  /** What a node names when nothing below it has a head. */
  const EMPTY: nat := U32_MAX

  datatype Stage = Idle | Build(node: nat) | Emit | Replay(node: nat)

  /** Leaf `leaves + r` is run `r`, whose unread part is `next[r]..end[r]` of
      the run file and whose first unread record is `heads[r]`. */
  datatype Tree<T> = Tree(
    leaves: nat,
    nodes: seq<nat>,
    heads: seq<Option<T>>,
    next: seq<nat>,
    end: seq<nat>,
    groupEnd: nat,
    stage: Stage)
  {
    ghost predicate Shaped() {
      && 1 <= leaves && |nodes| == 2 * leaves && |heads| <= leaves
      && |heads| <= EMPTY
      && |next| == |end| == |heads|
    }
  }

  function PowerOfTwoAtLeast(n: nat, p: nat): (r: nat)
    requires p >= 1
    ensures r >= n && r >= p && (r == p || r < 2 * n)
    decreases n - p
  {
    if p >= n then p else PowerOfTwoAtLeast(n, 2 * p)
  }

  /** `i` is the node `j` or an ancestor of it. */
  predicate Above(j: nat, i: nat) {
    j == i || (j > i && Above(j / 2, i))
  }

  /** The run whose head sorts first, of two. */
  ghost function Winner<T>(le: (T, T) -> bool, heads: seq<Option<T>>, l: nat, r: nat): nat {
    if l == EMPTY then r
    else if r == EMPTY then l
    else if l < |heads| && r < |heads| && heads[l].Some? && heads[r].Some? && le(heads[l].value, heads[r].value) then l
    else r
  }

  /** A node names no run, or a run with a head somewhere below it. */
  ghost predicate Named<T>(t: Tree<T>, i: nat)
    requires t.Shaped() && i < |t.nodes|
  {
    var run := t.nodes[i];
    run == EMPTY || (run < |t.heads| && t.heads[run].Some? && Above(t.leaves + run, i))
  }

  ghost predicate LeafOk<T>(t: Tree<T>, r: nat)
    requires t.Shaped() && r < t.leaves
  {
    t.nodes[t.leaves + r] == if r < |t.heads| && t.heads[r].Some? then r else EMPTY
  }

  ghost predicate NodeOk<T>(le: (T, T) -> bool, t: Tree<T>, i: nat)
    requires t.Shaped() && 1 <= i < t.leaves
  {
    t.nodes[i] == Winner(le, t.heads, t.nodes[2 * i], t.nodes[2 * i + 1])
  }

  /** Which inner nodes are finished in each stage. */
  ghost predicate Finished<T>(t: Tree<T>, i: nat) {
    match t.stage
    case Idle => false
    case Build(k) => i > k
    case Emit => true
    case Replay(k) => !Above(k, i)
  }

  ghost predicate Valid<T>(le: (T, T) -> bool, t: Tree<T>) {
    && t.Shaped()
    && (t.stage.Build? || t.stage.Replay? ==> 1 <= t.stage.node < t.leaves)
    && (forall r :: 0 <= r < t.leaves ==> LeafOk(t, r))
    && (forall i :: 1 <= i < t.leaves && Finished(t, i) ==> NodeOk(le, t, i) && Named(t, i))
  }

  // ------------------------------------------------------------------- paths

  lemma {:induction false} AboveParent(j: nat, i: nat)
    requires Above(j, i) && i >= 1
    ensures Above(j, i / 2)
    decreases j
  {
    if j != i {
      AboveParent(j / 2, i);
    }
  }

  lemma {:induction false} AboveBounds(j: nat, i: nat)
    requires Above(j, i)
    ensures i <= j
  {}

  lemma LeafNamed<T>(t: Tree<T>, r: nat)
    requires t.Shaped() && r < t.leaves && LeafOk(t, r)
    ensures Named(t, t.leaves + r)
  {}

  /** Both children of a node that is about to be played are named. */
  lemma ChildNamed<T>(le: (T, T) -> bool, t: Tree<T>, c: nat)
    requires Valid(le, t) && 1 <= c < |t.nodes| && (c < t.leaves ==> Finished(t, c))
    ensures Named(t, c)
  {
    if c >= t.leaves {
      assert LeafOk(t, c - t.leaves);
      LeafNamed(t, c - t.leaves);
    }
  }

  lemma WinnerNamed<T>(le: (T, T) -> bool, t: Tree<T>, i: nat)
    requires t.Shaped() && 1 <= i < t.leaves && Named(t, 2 * i) && Named(t, 2 * i + 1)
    ensures var w := Winner(le, t.heads, t.nodes[2 * i], t.nodes[2 * i + 1]);
            w == EMPTY || (w < |t.heads| && t.heads[w].Some? && Above(t.leaves + w, i))
  {
    if t.nodes[2 * i] != EMPTY {
      AboveParent(t.leaves + t.nodes[2 * i], 2 * i);
    }
    if t.nodes[2 * i + 1] != EMPTY {
      AboveParent(t.leaves + t.nodes[2 * i + 1], 2 * i + 1);
    }
  }

  // ----------------------------------------------------------- building, replay

  function AfterPlay<T>(t: Tree<T>, winner: nat): Tree<T>
    requires t.Shaped() && (t.stage.Build? || t.stage.Replay?) && 1 <= t.stage.node < t.leaves
  {
    var k := t.stage.node;
    var next := if k == 1 then Emit else if t.stage.Build? then Build(k - 1) else Replay(k / 2);
    t.(nodes := t.nodes[k := winner], stage := next)
  }

  /** Playing one node finishes it and unfinishes none. */
  lemma PlayKeepsValid<T>(le: (T, T) -> bool, t: Tree<T>)
    requires Valid(le, t) && (t.stage.Build? || t.stage.Replay?)
    ensures var k := t.stage.node;
            var w := Winner(le, t.heads, t.nodes[2 * k], t.nodes[2 * k + 1]);
            Valid(le, AfterPlay(t, w))
  {
    hide Winner, Named;
    var k := t.stage.node;
    var w := Winner(le, t.heads, t.nodes[2 * k], t.nodes[2 * k + 1]);
    var t' := AfterPlay(t, w);
    PlayedNode(le, t);
    forall r | 0 <= r < t.leaves
      ensures LeafOk(t', r)
    {
      assert LeafOk(t, r);
    }
    forall i | 1 <= i < t.leaves && Finished(t', i)
      ensures NodeOk(le, t', i) && Named(t', i)
    {
      if i != k {
        StillFinished(t, k, i);
        assert NodeOk(le, t, i) && Named(t, i);
        SameNamed(t, t', i);
      }
    }
  }

  lemma PlayedNode<T>(le: (T, T) -> bool, t: Tree<T>)
    requires Valid(le, t) && (t.stage.Build? || t.stage.Replay?)
    ensures var k := t.stage.node;
            var w := Winner(le, t.heads, t.nodes[2 * k], t.nodes[2 * k + 1]);
            NodeOk(le, AfterPlay(t, w), k) && Named(AfterPlay(t, w), k)
  {
    hide Winner;
    var k := t.stage.node;
    ChildNamed(le, t, 2 * k);
    ChildNamed(le, t, 2 * k + 1);
    WinnerNamed(le, t, k);
  }

  /** A node finished after a play was finished before it, and does not read
      the node played. */
  lemma StillFinished<T>(t: Tree<T>, k: nat, i: nat)
    requires t.Shaped() && (t.stage.Build? || t.stage.Replay?) && t.stage.node == k && 1 <= k < t.leaves
    requires 1 <= i < t.leaves && i != k && Finished(AfterPlay(t, 0), i)
    ensures Finished(t, i) && 2 * i != k && 2 * i + 1 != k
  {}

  lemma SameNamed<T>(t: Tree<T>, t': Tree<T>, i: nat)
    requires t.Shaped() && t'.Shaped() && t.leaves == t'.leaves && t.heads == t'.heads
    requires i < |t.nodes| && t.nodes[i] == t'.nodes[i] && Named(t, i)
    ensures Named(t', i)
  {}

  // -------------------------------------------------------------- the winner

  lemma {:induction false} AboveTransitive(a: nat, b: nat, c: nat)
    requires Above(a, b) && Above(b, c)
    ensures Above(a, c)
    decreases a
  {
    if a != b {
      AboveBounds(b, c);
      AboveBounds(a / 2, b);
      AboveTransitive(a / 2, b, c);
    }
  }

  /** Everything below a finished node is finished, in every stage. */
  lemma BelowFinished<T>(t: Tree<T>, i: nat, k: nat)
    requires Finished(t, i) && Above(k, i)
    ensures Finished(t, k)
  {
    AboveBounds(k, i);
    if t.stage.Replay? && Above(t.stage.node, k) {
      AboveTransitive(t.stage.node, k, i);
    }
  }

  /** In every stage a finished node names the run whose head sorts first of
      all runs below it, if any of them has a head. */
  lemma NodeIsLeast<T(!new)>(le: (T, T) -> bool, t: Tree<T>, i: nat, r: nat)
    requires TotalPreorder(le) && Valid(le, t) && 1 <= i < t.leaves && Finished(t, i)
    requires r < |t.heads| && t.heads[r].Some? && Above(t.leaves + r, i)
    ensures Named(t, i) && t.nodes[i] != EMPTY && le(t.heads[t.nodes[i]].value, t.heads[r].value)
  {
    hide NodeOk, Finished, TotalPreorder, Above;
    assert LeafOk(t, r);
    LeafNamed(t, r);
    SelfBest(le, t.heads[r].value);
    Climb(le, t, i, t.leaves + r, r);
  }

  lemma SelfBest<T(!new)>(le: (T, T) -> bool, x: T)
    requires TotalPreorder(le)
    ensures le(x, x)
  {}

  /** From a node on the way up that beats run `r`, to the node `i`. */
  lemma {:induction false} Climb<T(!new)>(le: (T, T) -> bool, t: Tree<T>, i: nat, j: nat, r: nat)
    requires TotalPreorder(le) && Valid(le, t) && 1 <= i < t.leaves && Finished(t, i)
    requires r < |t.heads| && t.heads[r].Some? && Above(j, i)
    requires j < |t.nodes| && Named(t, j) && t.nodes[j] != EMPTY && le(t.heads[t.nodes[j]].value, t.heads[r].value)
    ensures Named(t, i) && t.nodes[i] != EMPTY && le(t.heads[t.nodes[i]].value, t.heads[r].value)
    decreases j
  {
    hide Finished;
    if j != i {
      var p := j / 2;
      AboveBounds(p, i);
      BelowFinished(t, i, p);
      assert NodeOk(le, t, p) && Named(t, p);
      BelowNamed(le, t, p, 2 * p);
      BelowNamed(le, t, p, 2 * p + 1);
      assert j == 2 * p || j == 2 * p + 1;
      Climb(le, t, i, p, r);
    }
  }

  lemma BelowNamed<T>(le: (T, T) -> bool, t: Tree<T>, p: nat, c: nat)
    requires Valid(le, t) && 1 <= p < t.leaves && Finished(t, p) && c / 2 == p
    ensures c < |t.nodes| && Named(t, c)
  {
    hide Finished, Named;
    BelowFinished(t, p, c);
    ChildNamed(le, t, c);
  }

  /** In every stage a finished node is empty exactly when no run below it has
      a record left. */
  lemma EmptyNode<T(!new)>(le: (T, T) -> bool, t: Tree<T>, i: nat)
    requires TotalPreorder(le) && Valid(le, t) && 1 <= i < t.leaves && Finished(t, i)
    ensures t.nodes[i] == EMPTY <==>
            forall r :: 0 <= r < |t.heads| && Above(t.leaves + r, i) ==> t.heads[r].None?
  {
    assert Named(t, i);
    if r :| 0 <= r < |t.heads| && Above(t.leaves + r, i) && t.heads[r].Some? {
      NodeIsLeast(le, t, i, r);
    }
  }

  lemma {:induction false} RootAbove(j: nat)
    requires j >= 1
    ensures Above(j, 1)
  {
    if j > 1 {
      RootAbove(j / 2);
    }
  }

  /** The root's head sorts first of all heads, and is there if any is. */
  lemma RootIsLeast<T(!new)>(le: (T, T) -> bool, t: Tree<T>, r: nat)
    requires TotalPreorder(le) && Valid(le, t) && t.stage.Emit?
    requires r < |t.heads| && t.heads[r].Some?
    ensures var root := t.nodes[1];
            root != EMPTY && root < |t.heads| && t.heads[root].Some? && le(t.heads[root].value, t.heads[r].value)
  {
    RootAbove(t.leaves + r);
    if t.leaves > 1 {
      NodeIsLeast(le, t, 1, r);
    } else {
      assert LeafOk(t, 0);
    }
  }

  // ------------------------------------------------------------------- emitting

  /** The tree after the root's record is written and its run advanced. */
  function AfterEmit<T>(t: Tree<T>, run: nat, head: Option<T>): Tree<T>
    requires t.Shaped() && t.leaves > 1 && run < |t.heads|
  {
    t.(heads := t.heads[run := head],
       next := t.next[run := t.next[run] + 1],
       nodes := t.nodes[t.leaves + run := if head.Some? then run else EMPTY],
       stage := Replay((t.leaves + run) / 2))
  }

  lemma EmitKeepsValid<T>(le: (T, T) -> bool, t: Tree<T>, run: nat, head: Option<T>)
    requires Valid(le, t) && t.stage.Emit? && t.leaves > 1 && run < |t.heads|
    ensures Valid(le, AfterEmit(t, run, head))
  {
    var t' := AfterEmit(t, run, head);
    var leaf := t.leaves + run;
    forall r | 0 <= r < t.leaves
      ensures LeafOk(t', r)
    {
      assert LeafOk(t, r);
    }
    forall i | 1 <= i < t.leaves && Finished(t', i)
      ensures NodeOk(le, t', i) && Named(t', i)
    {
      EmitNode(le, t, run, head, i);
    }
  }

  lemma EmitNode<T>(le: (T, T) -> bool, t: Tree<T>, run: nat, head: Option<T>, i: nat)
    requires Valid(le, t) && t.stage.Emit? && t.leaves > 1 && run < |t.heads|
    requires 1 <= i < t.leaves && !Above((t.leaves + run) / 2, i)
    ensures NodeOk(le, AfterEmit(t, run, head), i) && Named(AfterEmit(t, run, head), i)
  {
    assert NodeOk(le, t, i) && Named(t, i);
    ChildNamed(le, t, 2 * i);
    ChildNamed(le, t, 2 * i + 1);
    OffPath(t, run, i, i);
    OffPath(t, run, i, 2 * i);
    OffPath(t, run, i, 2 * i + 1);
  }

  /** A node off the emptied leaf's path does not hang on its run. */
  lemma OffPath<T>(t: Tree<T>, run: nat, i: nat, c: nat)
    requires t.Shaped() && run < |t.heads| && 1 <= i < t.leaves && c < |t.nodes|
    requires !Above((t.leaves + run) / 2, i) && (c == i || c / 2 == i) && Named(t, c)
    ensures t.nodes[c] != run && c != t.leaves + run
  {
    var leaf := t.leaves + run;
    if t.nodes[c] == run {
      assert Above(leaf, c);
      if c != leaf {
        if c != i {
          AboveParent(leaf / 2, c);
        }
      }
    }
  }

  // --------------------------------------------------------------- one group

  /** What is unread of run `r`. */
  ghost function Unread<T>(file: seq<T>, t: Tree<T>, r: nat): seq<T>
    requires t.Shaped() && r < |t.heads| && t.next[r] <= t.end[r] <= |file|
  {
    file[t.next[r]..t.end[r]]
  }

  ghost predicate Within<T>(file: seq<T>, next: seq<nat>, end: seq<nat>)
    requires |next| == |end|
  {
    forall r :: 0 <= r < |next| ==> next[r] <= end[r] <= |file|
  }

  ghost predicate InBounds<T>(file: seq<T>, t: Tree<T>)
    requires t.Shaped()
  {
    Within(file, t.next, t.end)
  }

  ghost predicate RunOk<T>(le: (T, T) -> bool, file: seq<T>, t: Tree<T>, r: nat)
    requires t.Shaped() && r < |t.heads|
  {
    && t.next[r] <= t.end[r] <= |file|
    && t.heads[r] == (if t.next[r] < t.end[r] then Some(file[t.next[r]]) else None)
    && Sorted(le, Unread(file, t, r))
  }

  /** Everything unread of the first `k` runs. */
  ghost function AllUnread<T>(file: seq<T>, next: seq<nat>, end: seq<nat>, k: nat): multiset<T>
    requires k <= |next| == |end| && Within(file, next, end)
  {
    if k == 0 then multiset{} else AllUnread(file, next, end, k - 1) + multiset(file[next[k - 1]..end[k - 1]])
  }

  /** `out` is a sorted merge of everything read from the group so far, and
      comes before everything unread. */
  ghost predicate Merging<T>(le: (T, T) -> bool, file: seq<T>, t: Tree<T>, group: multiset<T>, out: seq<T>) {
    && t.Shaped() && InBounds(file, t)
    && (forall r :: 0 <= r < |t.heads| ==> RunOk(le, file, t, r))
    && Sorted(le, out)
    && (forall r :: 0 <= r < |t.heads| ==> AllBefore(le, out, Unread(file, t, r)))
    && multiset(out) + AllUnread(file, t.next, t.end, |t.heads|) == group
  }

  /** Reading one record of run `run` takes it from what is unread. */
  lemma {:induction false} ReadOne<T>(file: seq<T>, next: seq<nat>, end: seq<nat>, k: nat, run: nat)
    requires k <= |next| == |end| && run < |next| && Within(file, next, end) && next[run] < end[run]
    ensures Within(file, next[run := next[run] + 1], end)
    ensures var after := AllUnread(file, next[run := next[run] + 1], end, k);
            AllUnread(file, next, end, k) == if run < k then after + multiset{file[next[run]]} else after
    decreases k
  {
    hide AllUnread, Within;
    var next' := next[run := next[run] + 1];
    InFile(file, next, end, run);
    StillWithin(file, next, end, run);
    if k == 0 {
      NoneUnread(file, next, end);
      NoneUnread(file, next', end);
    } else {
      InFile(file, next, end, k - 1);
      ReadOne(file, next, end, k - 1, run);
      UnreadUnfold(file, next, end, k);
      UnreadUnfold(file, next', end, k);
      var rest := AllUnread(file, next', end, k - 1);
      if run < k - 1 {
        AddMiddle(rest, multiset{file[next[run]]}, multiset(file[next[k - 1]..end[k - 1]]));
      } else if run == k - 1 {
        HeadAndRest(file, next[run], end[run]);
        AddMiddle(rest, multiset(file[next[run] + 1..end[run]]), multiset{file[next[run]]});
      }
    }
  }

  lemma UnreadUnfold<T>(file: seq<T>, next: seq<nat>, end: seq<nat>, k: nat)
    requires 0 < k <= |next| == |end| && Within(file, next, end)
    ensures next[k - 1] <= end[k - 1] <= |file|
    ensures AllUnread(file, next, end, k) == AllUnread(file, next, end, k - 1) + multiset(file[next[k - 1]..end[k - 1]])
  {}

  lemma NoneUnread<T>(file: seq<T>, next: seq<nat>, end: seq<nat>)
    requires |next| == |end| && Within(file, next, end)
    ensures AllUnread(file, next, end, 0) == multiset{}
  {}

  lemma StillWithin<T>(file: seq<T>, next: seq<nat>, end: seq<nat>, run: nat)
    requires run < |next| == |end| && Within(file, next, end) && next[run] < end[run]
    ensures Within(file, next[run := next[run] + 1], end)
  {}

  lemma InFile<T>(file: seq<T>, next: seq<nat>, end: seq<nat>, r: nat)
    requires r < |next| == |end| && Within(file, next, end)
    ensures next[r] <= end[r] <= |file|
  {}

  lemma HeadAndRest<T>(file: seq<T>, a: nat, b: nat)
    requires a < b <= |file|
    ensures multiset(file[a..b]) == multiset(file[a + 1..b]) + multiset{file[a]}
  {
    assert file[a..b] == [file[a]] + file[a + 1..b];
  }

  lemma AddMiddle<T>(a: multiset<T>, b: multiset<T>, c: multiset<T>)
    ensures (a + b) + c == (a + c) + b && a + (b + c) == (a + b) + c
  {}

  lemma {:induction false} NothingUnread<T>(file: seq<T>, next: seq<nat>, end: seq<nat>, k: nat)
    requires k <= |next| == |end| && Within(file, next, end)
    requires forall r :: 0 <= r < |next| ==> next[r] == end[r] <= |file|
    ensures AllUnread(file, next, end, k) == multiset{}
    decreases k
  {
    if k > 0 {
      NothingUnread(file, next, end, k - 1);
    }
  }

  /** The root's record may be written next: it comes before all unread. */
  lemma RootBeforeUnread<T(!new)>(le: (T, T) -> bool, file: seq<T>, t: Tree<T>, r: nat)
    requires t.Shaped() && InBounds(file, t)
    requires TotalPreorder(le) && Valid(le, t) && t.stage.Emit? && r < |t.heads|
    requires forall q :: 0 <= q < |t.heads| ==> RunOk(le, file, t, q)
    requires t.nodes[1] != EMPTY ==> t.nodes[1] < |t.heads| && t.heads[t.nodes[1]].Some?
    ensures t.nodes[1] == EMPTY ==> t.next[r] == t.end[r]
    ensures t.nodes[1] != EMPTY ==> AllBefore(le, [t.heads[t.nodes[1]].value], Unread(file, t, r))
  {
    hide Valid, Sorted;
    assert RunOk(le, file, t, r);
    if t.heads[r].Some? {
      RootIsLeast(le, t, r);
      var d, run := t.heads[t.nodes[1]].value, Unread(file, t, r);
      assert run[0] == t.heads[r].value;
      BeforeOther(le, d, run, 0);
      assert run[0..] == run;
    }
  }

  /** Writing the root's record and advancing its run. */
  lemma EmitMerges<T(!new)>(le: (T, T) -> bool, file: seq<T>, t: Tree<T>, group: multiset<T>, out: seq<T>)
    requires TotalPreorder(le) && Valid(le, t) && t.stage.Emit? && t.leaves > 1
    requires Merging(le, file, t, group, out)
    requires t.nodes[1] != EMPTY && t.nodes[1] < |t.heads| && t.heads[t.nodes[1]].Some?
    ensures var run := t.nodes[1];
            var k := t.next[run] + 1;
            var head := if k < t.end[run] <= |file| then Some(file[k]) else None;
            Merging(le, file, AfterEmit(t, run, head), group, out + [t.heads[run].value])
  {
    hide Valid, AllUnread, Sorted, AllBefore, TotalPreorder;
    var run := t.nodes[1];
    assert RunOk(le, file, t, run);
    var k := t.next[run] + 1;
    var head := if k < t.end[run] then Some(file[k]) else None;
    var d, t' := t.heads[run].value, AfterEmit(t, run, head);
    var longer := out + [d];
    forall r | 0 <= r < |t'.heads|
      ensures RunOk(le, file, t', r) && AllBefore(le, longer, Unread(file, t', r))
    {
      assert RunOk(le, file, t, r) && AllBefore(le, out, Unread(file, t, r));
      RootBeforeUnread(le, file, t, r);
      AllBeforeGrow(le, out, d, Unread(file, t, r));
      if r == run {
        DropHead(le, longer, file, t.next[r], t.end[r]);
      }
    }
    FirstUnread(le, out, file, t.next[run], t.end[run]);
    SortedAppend(le, out, d);
    ReadOne(file, t.next, t.end, |t.heads|, run);
  }

  lemma DropHead<T>(le: (T, T) -> bool, out: seq<T>, file: seq<T>, a: nat, b: nat)
    requires a < b <= |file| && Sorted(le, file[a..b]) && AllBefore(le, out, file[a..b])
    ensures Sorted(le, file[a + 1..b]) && AllBefore(le, out, file[a + 1..b])
  {
    assert file[a + 1..b] == file[a..b][1..];
  }

  lemma FirstUnread<T>(le: (T, T) -> bool, out: seq<T>, file: seq<T>, a: nat, b: nat)
    requires a < b <= |file| && AllBefore(le, out, file[a..b])
    ensures AllBefore(le, out, [file[a]])
  {
    assert file[a..b][0] == file[a];
  }

  /** When the root is empty the whole group has been written, sorted. */
  lemma GroupDone<T(!new)>(le: (T, T) -> bool, file: seq<T>, t: Tree<T>, group: multiset<T>, out: seq<T>)
    requires TotalPreorder(le) && Valid(le, t) && t.stage.Emit?
    requires Merging(le, file, t, group, out) && t.nodes[1] == EMPTY
    ensures Sorted(le, out) && multiset(out) == group
    ensures forall r :: 0 <= r < |t.heads| ==> t.next[r] == t.end[r] && t.heads[r].None?
  {
    hide Valid, AllUnread, Sorted, AllBefore, TotalPreorder;
    forall r | 0 <= r < |t.heads|
      ensures t.next[r] == t.end[r] <= |file| && t.heads[r].None?
    {
      RootBeforeUnread(le, file, t, r);
      assert RunOk(le, file, t, r);
    }
    NothingUnread(file, t.next, t.end, |t.heads|);
  }
}
