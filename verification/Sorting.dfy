/** Sorted runs and how merging makes longer ones, for any total preorder. */
module Sorting {
  import opened Prelude

  ghost predicate TotalPreorder<T(!new)>(le: (T, T) -> bool) {
    && (forall a, b :: le(a, b) || le(b, a))
    && (forall a, b, c :: le(a, b) && le(b, c) ==> le(a, c))
  }

  ghost predicate Sorted<T>(le: (T, T) -> bool, s: seq<T>) {
    forall i, j :: 0 <= i < j < |s| ==> le(s[i], s[j])
  }

  /** Every element of `s` may come before every element of `t`. */
  ghost predicate AllBefore<T>(le: (T, T) -> bool, s: seq<T>, t: seq<T>) {
    forall i, j :: 0 <= i < |s| && 0 <= j < |t| ==> le(s[i], t[j])
  }

  /** `s` is a sequence of sorted runs of `w` elements, the last one maybe
      short. */
  ghost predicate Runs<T>(le: (T, T) -> bool, s: seq<T>, w: nat)
    requires w > 0
    decreases |s|
  {
    if |s| <= w then Sorted(le, s) else Sorted(le, s[..w]) && Runs(le, s[w..], w)
  }

  /** The same with no short run. */
  ghost predicate FullRuns<T>(le: (T, T) -> bool, s: seq<T>, w: nat)
    requires w > 0
    decreases |s|
  {
    s == [] || (|s| >= w && Sorted(le, s[..w]) && FullRuns(le, s[w..], w))
  }

  lemma {:induction false} AppendRun<T>(le: (T, T) -> bool, s: seq<T>, t: seq<T>, w: nat)
    requires w > 0 && FullRuns(le, s, w) && Sorted(le, t) && |t| <= w
    ensures Runs(le, s + t, w)
    ensures |t| == w ==> FullRuns(le, s + t, w)
    decreases |s|
  {
    if s == [] {
      assert s + t == t;
      if |t| == w {
        assert t[..w] == t && t[w..] == [];
      }
    } else {
      AppendRun(le, s[w..], t, w);
      assert (s + t)[..w] == s[..w];
      assert (s + t)[w..] == s[w..] + t;
      if |s + t| <= w {
        assert s + t == s[..w];
      }
    }
  }

  /** The first run and the rest, however short. */
  lemma FirstRun<T>(le: (T, T) -> bool, s: seq<T>, w: nat)
    requires w > 0 && Runs(le, s, w)
    ensures Sorted(le, s[..Min(w, |s|)]) && Runs(le, s[Min(w, |s|)..], w)
  {
    if |s| <= w {
      assert s[..|s|] == s;
    }
  }

  lemma SingleRuns<T>(le: (T, T) -> bool, s: seq<T>)
    ensures Runs(le, s, 1)
    decreases |s|
  {
    if |s| > 1 {
      SingleRuns(le, s[1..]);
    }
  }

  /** A width at least the length makes no difference. */
  lemma WideRun<T>(le: (T, T) -> bool, s: seq<T>, w: nat, v: nat)
    requires w > 0 && v > 0 && Runs(le, s, w) && |s| <= w && |s| <= v
    ensures Runs(le, s, v) && Sorted(le, s)
  {}

  /** Appending one element that may follow everything. */
  lemma SortedAppend<T>(le: (T, T) -> bool, s: seq<T>, x: T)
    requires Sorted(le, s) && AllBefore(le, s, [x])
    ensures Sorted(le, s + [x])
  {
    forall i, j | 0 <= i < j < |s + [x]|
      ensures le((s + [x])[i], (s + [x])[j])
    {
      if j == |s| {
        assert le(s[i], [x][0]);
      }
    }
  }

  // ---------------------------------------------------------- two-way merge

  /** `out` is a merge of the first `i` of `l` and the first `j` of `r`. */
  ghost predicate PartialMerge<T>(le: (T, T) -> bool, l: seq<T>, r: seq<T>, i: int, j: int, out: seq<T>) {
    && 0 <= i <= |l| && 0 <= j <= |r| && |out| == i + j
    && Sorted(le, l) && Sorted(le, r) && Sorted(le, out)
    && multiset(out) == multiset(l[..i]) + multiset(r[..j])
    && AllBefore(le, out, l[i..]) && AllBefore(le, out, r[j..])
  }

  lemma MergeTakeLeft<T(!new)>(le: (T, T) -> bool, l: seq<T>, r: seq<T>, i: nat, j: nat, out: seq<T>)
    requires TotalPreorder(le) && PartialMerge(le, l, r, i, j, out)
    requires i < |l| && (j == |r| || le(l[i], r[j]))
    ensures PartialMerge(le, l, r, i + 1, j, out + [l[i]])
  {
    Grow(le, l, i, out);
    assert l[..i + 1] == l[..i] + [l[i]];
    BeforeOther(le, l[i], r, j);
    AllBeforeGrow(le, out, l[i], r[j..]);
  }

  lemma MergeTakeRight<T(!new)>(le: (T, T) -> bool, l: seq<T>, r: seq<T>, i: nat, j: nat, out: seq<T>)
    requires TotalPreorder(le) && PartialMerge(le, l, r, i, j, out)
    requires j < |r| && (i == |l| || le(r[j], l[i]))
    ensures PartialMerge(le, l, r, i, j + 1, out + [r[j]])
  {
    Grow(le, r, j, out);
    assert r[..j + 1] == r[..j] + [r[j]];
    BeforeOther(le, r[j], l, i);
    AllBeforeGrow(le, out, r[j], l[i..]);
  }

  /** Taking the head of a sorted side keeps the output sorted and before the
      rest of that side. */
  lemma Grow<T>(le: (T, T) -> bool, l: seq<T>, i: nat, out: seq<T>)
    requires i < |l| && Sorted(le, l) && Sorted(le, out) && AllBefore(le, out, l[i..])
    ensures Sorted(le, out + [l[i]])
    ensures AllBefore(le, out + [l[i]], l[i + 1..])
  {
    assert l[i..][0] == l[i];
    assert AllBefore(le, out, [l[i]]);
    SortedAppend(le, out, l[i]);
    var longer, rest := out + [l[i]], l[i + 1..];
    forall a, b | 0 <= a < |longer| && 0 <= b < |rest|
      ensures le(longer[a], rest[b])
    {
      assert rest[b] == l[i + 1 + b] == l[i..][b + 1];
      if a < |out| {
        assert le(out[a], l[i..][b + 1]);
      }
    }
  }

  /** The head that comes first comes before the whole other side. */
  lemma BeforeOther<T(!new)>(le: (T, T) -> bool, x: T, r: seq<T>, j: nat)
    requires TotalPreorder(le) && Sorted(le, r) && j <= |r| && (j == |r| || le(x, r[j]))
    ensures AllBefore(le, [x], r[j..])
  {
    forall b | 0 <= b < |r[j..]|
      ensures le(x, r[j..][b])
    {
      assert r[j..][b] == r[j + b];
      if b > 0 {
        assert le(r[j], r[j + b]);
      }
    }
  }

  lemma AllBeforeGrow<T>(le: (T, T) -> bool, out: seq<T>, x: T, t: seq<T>)
    requires AllBefore(le, out, t) && AllBefore(le, [x], t)
    ensures AllBefore(le, out + [x], t)
  {
    forall a, b | 0 <= a < |out + [x]| && 0 <= b < |t|
      ensures le((out + [x])[a], t[b])
    {
      if a == |out| {
        assert le([x][0], t[b]);
      }
    }
  }
}
