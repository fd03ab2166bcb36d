/** The bottom-up merge sort of one batch, one element at a time. */
module BatchMerge {
  import opened Prelude
  import opened Sorting

  /** Where the merge stands: runs of `width` from `start` on are still to be
      merged in pairs; the pair at hand is `start..middle` and `middle..end`. */
  datatype Merge = Merge(width: nat, start: nat, left: nat, right: nat, middle: nat, end: nat, out: nat)

  ghost predicate Between(m: Merge) {
    m.start == m.end == m.out
  }

  /** Everything before `start` is merged into runs twice as wide. */
  ghost predicate Merged<T>(le: (T, T) -> bool, batch: seq<T>, alt: seq<T>, width: nat, start: nat) {
    && width > 0 && start <= |batch| <= |alt|
    && multiset(alt[..start]) == multiset(batch[..start])
    && Runs(le, alt[..start], 2 * width)
    && (start < |batch| ==> FullRuns(le, alt[..start], 2 * width))
    && Runs(le, batch[start..], width)
  }

  ghost predicate Pairing<T>(le: (T, T) -> bool, batch: seq<T>, alt: seq<T>, m: Merge) {
    && m.start <= m.left <= m.middle <= m.right <= m.end <= |batch| <= |alt|
    && m.middle == Min(m.start + m.width, |batch|) && m.end == Min(m.middle + m.width, |batch|)
    && m.out == m.left + (m.right - m.middle) && m.out < m.end
    && PartialMerge(le, batch[m.start..m.middle], batch[m.middle..m.end],
                    m.left - m.start, m.right - m.middle, alt[m.start..m.out])
  }

  ghost predicate Valid<T>(le: (T, T) -> bool, batch: seq<T>, alt: seq<T>, m: Merge) {
    && Merged(le, batch, alt, m.width, m.start)
    && (Between(m) || Pairing(le, batch, alt, m))
  }

  /** A batch of runs of `width`, with nothing merged yet. */
  lemma Begin<T>(le: (T, T) -> bool, batch: seq<T>, alt: seq<T>, m: Merge)
    requires m.width > 0 && |batch| <= |alt| && Runs(le, batch, m.width) && Between(m) && m.start == 0
    ensures Valid(le, batch, alt, m)
  {
    assert batch[0..] == batch;
    assert alt[..0] == [] && batch[..0] == [];
  }

  function NextPair(m: Merge, n: nat): Merge {
    var middle := Min(m.start + m.width, n);
    var end := Min(middle + m.width, n);
    m.(left := m.start, right := middle, middle := middle, end := end, out := m.start)
  }

  /** The two runs of a pair are sorted and the rest is still in runs. */
  lemma PairRuns<T>(le: (T, T) -> bool, batch: seq<T>, width: nat, start: nat, middle: nat, end: nat)
    requires width > 0 && start <= |batch| && Runs(le, batch[start..], width)
    requires middle == Min(start + width, |batch|) && end == Min(middle + width, |batch|)
    ensures start <= middle <= end <= |batch|
    ensures Sorted(le, batch[start..middle]) && Sorted(le, batch[middle..end])
    ensures Runs(le, batch[end..], width)
  {
    hide Sorted, Runs;
    RunAt(le, batch, width, start, middle);
    RunAt(le, batch, width, middle, end);
  }

  lemma RunAt<T>(le: (T, T) -> bool, s: seq<T>, width: nat, start: nat, end: nat)
    requires width > 0 && start <= |s| && Runs(le, s[start..], width)
    requires end == Min(start + width, |s|)
    ensures Sorted(le, s[start..end]) && Runs(le, s[end..], width)
  {
    hide Sorted, Runs;
    var rest := s[start..];
    FirstRun(le, rest, width);
    assert rest[..end - start] == s[start..end];
    assert rest[end - start..] == s[end..];
  }

  lemma NothingMerged<T>(le: (T, T) -> bool, l: seq<T>, r: seq<T>)
    requires Sorted(le, l) && Sorted(le, r)
    ensures PartialMerge(le, l, r, 0, 0, [])
  {}

  lemma StartPair<T>(le: (T, T) -> bool, batch: seq<T>, alt: seq<T>, m: Merge)
    requires Valid(le, batch, alt, m) && Between(m) && m.start < |batch|
    ensures var m' := NextPair(m, |batch|);
            Valid(le, batch, alt, m') && Pairing(le, batch, alt, m')
  {
    hide Runs, FullRuns, Sorted, PartialMerge;
    var m' := NextPair(m, |batch|);
    PairRuns(le, batch, m.width, m.start, m'.middle, m'.end);
    NothingMerged(le, batch[m.start..m'.middle], batch[m'.middle..m'.end]);
    assert alt[m.start..m.start] == [];
  }

  /** Takes one element; the pair may be finished by it. */
  function Taken(m: Merge, takeLeft: bool): Merge {
    var m' := if takeLeft then m.(left := m.left + 1, out := m.out + 1)
              else m.(right := m.right + 1, out := m.out + 1);
    if m'.out == m'.end then m'.(start := m'.end) else m'
  }

  function TakenFrom(m: Merge, takeLeft: bool): nat {
    if takeLeft then m.left else m.right
  }

  /** Which side may be taken from. */
  ghost predicate MayTake<T>(le: (T, T) -> bool, batch: seq<T>, m: Merge, takeLeft: bool) {
    && m.left <= m.middle <= m.right <= m.end <= |batch|
    && if takeLeft then m.left < m.middle && (m.right == m.end || le(batch[m.left], batch[m.right]))
       else m.right < m.end && (m.left == m.middle || le(batch[m.right], batch[m.left]))
  }

  lemma TakeGrows<T(!new)>(le: (T, T) -> bool, batch: seq<T>, alt: seq<T>, m: Merge, takeLeft: bool)
    requires TotalPreorder(le) && Pairing(le, batch, alt, m) && MayTake(le, batch, m, takeLeft)
    ensures var i, j := m.left - m.start, m.right - m.middle;
            PartialMerge(le, batch[m.start..m.middle], batch[m.middle..m.end],
                         if takeLeft then i + 1 else i, if takeLeft then j else j + 1,
                         alt[m.start..m.out] + [batch[TakenFrom(m, takeLeft)]])
  {
    hide Sorted, AllBefore, PartialMerge, TotalPreorder;
    var l, r := batch[m.start..m.middle], batch[m.middle..m.end];
    var i, j := m.left - m.start, m.right - m.middle;
    assert i < |l| ==> l[i] == batch[m.left];
    assert j < |r| ==> r[j] == batch[m.right];
    if takeLeft {
      MergeTakeLeft(le, l, r, i, j, alt[m.start..m.out]);
    } else {
      MergeTakeRight(le, l, r, i, j, alt[m.start..m.out]);
    }
  }

  lemma Take<T(!new)>(le: (T, T) -> bool, batch: seq<T>, alt: seq<T>, m: Merge, takeLeft: bool)
    requires TotalPreorder(le) && Valid(le, batch, alt, m) && Pairing(le, batch, alt, m)
    requires MayTake(le, batch, m, takeLeft)
    ensures Valid(le, batch, alt[m.out := batch[TakenFrom(m, takeLeft)]], Taken(m, takeLeft))
  {
    hide Sorted, AllBefore, Runs, FullRuns, PartialMerge, TotalPreorder;
    TakeGrows(le, batch, alt, m, takeLeft);
    var x := batch[TakenFrom(m, takeLeft)];
    var alt', m' := alt[m.out := x], Taken(m, takeLeft);
    UpdateSlice(alt, m.start, m.out, x);
    if m.out + 1 == m.end {
      PairDone(le, batch, alt', m);
    }
  }

  /** With both runs used up what was merged is sorted and all of them. */
  lemma AllMerged<T>(le: (T, T) -> bool, l: seq<T>, r: seq<T>, out: seq<T>)
    requires PartialMerge(le, l, r, |l|, |r|, out)
    ensures Sorted(le, out) && multiset(out) == multiset(l) + multiset(r) && |out| == |l| + |r|
  {
    hide Sorted, AllBefore;
    assert l[..|l|] == l && r[..|r|] == r;
    assert |multiset(out)| == |out| && |multiset(l) + multiset(r)| == |l| + |r|;
  }

  /** A finished pair is one run twice as wide. */
  lemma PairDone<T>(le: (T, T) -> bool, batch: seq<T>, alt: seq<T>, m: Merge)
    requires Merged(le, batch, alt, m.width, m.start) && m.start < m.end <= |batch|
    requires m.start <= m.middle <= m.end
    requires m.middle == Min(m.start + m.width, |batch|) && m.end == Min(m.middle + m.width, |batch|)
    requires PartialMerge(le, batch[m.start..m.middle], batch[m.middle..m.end],
                          m.middle - m.start, m.end - m.middle, alt[m.start..m.end])
    ensures Merged(le, batch, alt, m.width, m.end)
  {
    hide Sorted, AllBefore, Runs, FullRuns;
    hide PartialMerge;
    var l, r, out := batch[m.start..m.middle], batch[m.middle..m.end], alt[m.start..m.end];
    AllMerged(le, l, r, out);
    PrefixSplit(alt, m.start, m.end);
    PrefixSplit(batch, m.start, m.middle);
    PrefixSplit(batch, m.middle, m.end);
    AppendRun(le, alt[..m.start], out, 2 * m.width);
    PairRuns(le, batch, m.width, m.start, m.middle, m.end);
  }

  /** When every pair is merged, the copy is the same batch in runs twice as
      wide. */
  lemma PassDone<T>(le: (T, T) -> bool, batch: seq<T>, alt: seq<T>, m: Merge)
    requires Valid(le, batch, alt, m) && m.start == |batch|
    ensures Runs(le, alt[..|batch|], 2 * m.width) && multiset(alt[..|batch|]) == multiset(batch)
  {
    assert batch[..|batch|] == batch;
  }
}
