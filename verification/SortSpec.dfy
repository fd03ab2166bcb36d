/** What a finished sort must be, stated on source rows and decoded fields
    alone: no batches, runs, passes or budgets. */
module SortSpec {
  import opened Prelude
  import opened Records
  import opened Fields
  import opened Key
  import opened KeyOrder
  import opened Sorting
  import Inverse

  datatype Entry = Entry(row: nat, start: nat, end: nat)

  function RecordCount(env: Env): nat {
    |AllRecords(env.format, env.src)|
  }

  function SpanOf(env: Env, row: nat): Span
    requires row < RecordCount(env)
  {
    AllRecords(env.format, env.src)[row]
  }

  function FieldOf(env: Env, row: nat): seq<byte>
    requires row < RecordCount(env) && SpanOf(env, row).start <= SpanOf(env, row).end <= |env.src|
  {
    KeyBytes(env.format, env.src[SpanOf(env, row).start..SpanOf(env, row).end], env.request.column)
  }

  /** Row `a` is shown before row `b`. */
  ghost predicate ShownBefore(env: Env, a: nat, b: nat)
    requires a < RecordCount(env) && b < RecordCount(env)
  {
    && SpanOf(env, a).start <= SpanOf(env, a).end <= |env.src|
    && SpanOf(env, b).start <= SpanOf(env, b).end <= |env.src|
    && KeyCompare(env.request, FieldOf(env, a), FieldOf(env, b)).Then(CompareInt(a, b)) == Less
  }

  /** The order map lists each record of the source once, with its true span,
      strictly increasing in the key order. */
  ghost predicate IsSorted(env: Env, order: seq<Entry>) {
    && |order| == RecordCount(env)
    && (forall r :: 0 <= r < |order| ==>
          order[r].row < RecordCount(env) && Span(order[r].start, order[r].end) == SpanOf(env, order[r].row))
    && (forall i, j :: 0 <= i < j < |order| ==> ShownBefore(env, order[i].row, order[j].row))
  }

  // ------------------------------------------------------------- descriptors

  ghost function LeOf(env: Env): (Descriptor, Descriptor) -> bool {
    (a, b) => Order(env, a, b) != Greater
  }

  lemma LeIsTotal(env: Env)
    ensures TotalPreorder(LeOf(env))
  {
    hide Order;
    forall a, b
      ensures LeOf(env)(a, b) || LeOf(env)(b, a)
    {
      OrderAntisymmetric(env, a, b);
    }
    forall a, b, c | LeOf(env)(a, b) && LeOf(env)(b, c)
      ensures LeOf(env)(a, c)
    {
      OrderTransitive(env, a, b, c);
    }
  }

  ghost predicate SpansOk(src: Source, spans: seq<Span>) {
    forall i :: 0 <= i < |spans| ==> spans[i].start <= spans[i].end <= |src|
  }

  ghost function Describe(env: Env, row: nat, spans: seq<Span>): seq<Descriptor>
    requires SpansOk(env.src, spans)
    decreases |spans|
  {
    if spans == [] then [] else [DescriptorOf(env, row, spans[0])] + Describe(env, row + 1, spans[1..])
  }

  lemma {:induction false} DescribeAt(env: Env, row: nat, spans: seq<Span>)
    requires SpansOk(env.src, spans)
    ensures |Describe(env, row, spans)| == |spans|
    ensures forall i :: 0 <= i < |spans| ==> Describe(env, row, spans)[i] == DescriptorOf(env, row + i, spans[i])
    decreases |spans|
  {
    hide DescriptorOf;
    if spans != [] {
      DescribeAt(env, row + 1, spans[1..]);
      forall i | 0 < i < |spans|
        ensures Describe(env, row, spans)[i] == DescriptorOf(env, row + i, spans[i])
      {
        assert spans[1..][i - 1] == spans[i];
      }
    }
  }

  lemma RecordSpansOk(f: Format, src: Source, p: nat)
    requires p <= |src|
    ensures SpansOk(src, RecordsFrom(f, src, p))
  {
    hide RecordEnd;
    forall k | 0 <= k < |RecordsFrom(f, src, p)|
      ensures RecordsFrom(f, src, p)[k].start <= RecordsFrom(f, src, p)[k].end <= |src|
    {
      RestartAt(f, src, p, k);
    }
  }

  /** The descriptors of all records, in source order. */
  ghost function AllDescriptors(env: Env): seq<Descriptor> {
    RecordSpansOk(env.format, env.src, 0);
    Describe(env, 0, AllRecords(env.format, env.src))
  }

  lemma DescriptorAt(env: Env, row: nat)
    requires row < |AllDescriptors(env)|
    ensures |AllDescriptors(env)| == RecordCount(env)
    ensures SpanOf(env, row).start <= SpanOf(env, row).end <= |env.src|
    ensures AllDescriptors(env)[row] == DescriptorOf(env, row, SpanOf(env, row))
  {
    hide DescriptorOf, RecordsFrom;
    RecordSpansOk(env.format, env.src, 0);
    DescribeAt(env, 0, AllRecords(env.format, env.src));
  }

  lemma CountDescriptors(env: Env)
    ensures |AllDescriptors(env)| == RecordCount(env)
  {
    RecordSpansOk(env.format, env.src, 0);
    DescribeAt(env, 0, AllRecords(env.format, env.src));
  }

  /** Whatever is a permutation of the descriptors holds only truthful ones,
      each with its own row. */
  lemma Member(env: Env, d: Descriptor)
    requires d in multiset(AllDescriptors(env))
    ensures |AllDescriptors(env)| == RecordCount(env)
    ensures Describes(env, d) && d.row < RecordCount(env) && d == AllDescriptors(env)[d.row]
    ensures SpanOf(env, d.row) == Span(d.start, d.end) && d.start <= d.end <= |env.src|
    ensures KeyIn(env, d) == FieldOf(env, d.row)
  {
    hide DescriptorOf, Describes, KeyIn, KeyBytes, AllDescriptors, AllRecords;
    var row :| 0 <= row < |AllDescriptors(env)| && AllDescriptors(env)[row] == d;
    DescriptorAt(env, row);
    DescriptorTellsTruth(env, row, SpanOf(env, row));
  }

  function EntryOf(d: Descriptor): Entry {
    Entry(d.row, d.start, d.end)
  }

  /** A sorted permutation of the descriptors is the sorted order. */
  lemma SortedFileIsOrder(env: Env, file: seq<Descriptor>, order: seq<Entry>)
    requires Sorted(LeOf(env), file) && multiset(file) == multiset(AllDescriptors(env))
    requires |order| == |file| && forall r :: 0 <= r < |file| ==> order[r] == EntryOf(file[r])
    ensures IsSorted(env, order)
    ensures forall i, j :: 0 <= i < j < |file| ==> file[i].row != file[j].row
  {
    hide AllDescriptors, AllRecords, KeyIn, Describes, KeyBytes, KeyCompare;
    CountDescriptors(env);
    assert |multiset(file)| == |file| && |multiset(AllDescriptors(env))| == |AllDescriptors(env)|;
    forall r | 0 <= r < |file|
      ensures order[r].row < RecordCount(env) && Span(order[r].start, order[r].end) == SpanOf(env, order[r].row)
    {
      assert file[r] in multiset(file);
      Member(env, file[r]);
    }
    forall i, j | 0 <= i < j < |file|
      ensures ShownBefore(env, order[i].row, order[j].row) && file[i].row != file[j].row
    {
      InOrder(env, file, i, j);
    }
  }

  lemma InOrder(env: Env, file: seq<Descriptor>, i: nat, j: nat)
    requires i < j < |file| && Sorted(LeOf(env), file) && multiset(file) == multiset(AllDescriptors(env))
    ensures file[i].row != file[j].row
    ensures file[i].row < RecordCount(env) && file[j].row < RecordCount(env)
    ensures ShownBefore(env, file[i].row, file[j].row)
  {
    hide AllDescriptors, AllRecords, KeyIn, Describes, KeyBytes, KeyCompare;
    assert file[i] in multiset(file) && file[j] in multiset(file);
    Member(env, file[i]);
    Member(env, file[j]);
    assert LeOf(env)(file[i], file[j]);
    if file[i].row == file[j].row {
      TwiceInFile(file, i, j);
      OnceInAll(env, file[i]);
    }
  }

  lemma TwiceInFile(file: seq<Descriptor>, i: nat, j: nat)
    requires i < j < |file| && file[i] == file[j]
    ensures multiset(file)[file[i]] >= 2
  {
    var d := file[i];
    assert file == file[..j] + [file[j]] + file[j + 1..];
    assert d == file[..j][i];
    assert d in multiset(file[..j]);
  }

  lemma OnceInAll(env: Env, d: Descriptor)
    requires d in multiset(AllDescriptors(env))
    ensures multiset(AllDescriptors(env))[d] == 1
  {
    hide AllDescriptors, AllRecords, KeyIn, Describes, KeyBytes;
    var all := AllDescriptors(env);
    Member(env, d);
    var before, after := all[..d.row], all[d.row + 1..];
    assert all == before + [d] + after;
    forall i | 0 <= i < |all| && i != d.row
      ensures all[i] != d
    {
      assert all[i] in multiset(all);
      Member(env, all[i]);
      DescriptorAt(env, i);
      DescriptorTellsTruth(env, i, SpanOf(env, i));
    }
    assert d !in before && d !in after;
  }

  // ---------------------------------------------------------------- uniqueness

  lemma ShownBeforeTransitive(env: Env, a: nat, b: nat, c: nat)
    requires a < RecordCount(env) && b < RecordCount(env) && c < RecordCount(env)
    requires ShownBefore(env, a, b) && ShownBefore(env, b, c)
    ensures ShownBefore(env, a, c)
  {
    hide AllRecords, KeyBytes, KeyCompare;
    KeyTransitive(env.request, FieldOf(env, a), FieldOf(env, b), FieldOf(env, c));
  }

  lemma ShownBeforeAsymmetric(env: Env, a: nat, b: nat)
    requires a < RecordCount(env) && b < RecordCount(env) && ShownBefore(env, a, b)
    ensures !ShownBefore(env, b, a) && a != b
  {
    hide AllRecords, KeyBytes, KeyCompare;
    KeyAntisymmetric(env.request, FieldOf(env, a), FieldOf(env, b));
  }

  lemma RowsDistinct(env: Env, order: seq<Entry>, i: nat, j: nat)
    requires IsSorted(env, order) && i < |order| && j < |order| && i != j
    ensures order[i].row != order[j].row
  {
    hide AllRecords, ShownBefore;
    if i < j {
      ShownBeforeAsymmetric(env, order[i].row, order[j].row);
    } else {
      ShownBeforeAsymmetric(env, order[j].row, order[i].row);
    }
  }

  /** Every row of the source is in a sorted order. */
  lemma EveryRowListed(env: Env, order: seq<Entry>, row: nat) returns (r: nat)
    requires IsSorted(env, order) && row < RecordCount(env)
    ensures r < |order| && order[r].row == row
  {
    hide AllRecords, ShownBefore;
    var ps := seq(|order|, i requires 0 <= i < |order| => Inverse.Pair(order[i].row, i));
    forall i, j | 0 <= i < j < |ps|
      ensures ps[i].row != ps[j].row
    {
      RowsDistinct(env, order, i, j);
    }
    Inverse.Pigeonhole(ps, 0, |order|);
    r := Inverse.RowFound(ps, row);
  }

  lemma {:induction false} SameUpTo(env: Env, a: seq<Entry>, b: seq<Entry>, k: nat)
    requires IsSorted(env, a) && IsSorted(env, b) && k <= |a|
    ensures a[..k] == b[..k]
    decreases k
  {
    hide AllRecords, ShownBefore;
    if k > 0 {
      SameUpTo(env, a, b, k - 1);
      var x, y := a[k - 1].row, b[k - 1].row;
      if x != y {
        Later(env, a, b, k - 1);
        Later(env, b, a, k - 1);
        ShownBeforeAsymmetric(env, x, y);
      }
      assert a[..k] == a[..k - 1] + [a[k - 1]] && b[..k] == b[..k - 1] + [b[k - 1]];
    }
  }

  /** Where two sorted orders first differ, the one's row comes later in the
      other. */
  lemma Later(env: Env, a: seq<Entry>, b: seq<Entry>, k: nat)
    requires IsSorted(env, a) && IsSorted(env, b) && k < |a| && a[..k] == b[..k] && a[k].row != b[k].row
    ensures ShownBefore(env, b[k].row, a[k].row)
  {
    hide AllRecords, ShownBefore;
    var r := EveryRowListed(env, b, a[k].row);
    if r < k {
      assert a[r] == a[..k][r] == b[..k][r] == b[r];
      RowsDistinct(env, a, r, k);
    }
  }

  /** A source has one sorted order: batch size, fan-in and step size cannot
      matter. */
  lemma SortedOrderIsUnique(env: Env, a: seq<Entry>, b: seq<Entry>)
    requires IsSorted(env, a) && IsSorted(env, b)
    ensures a == b
  {
    SameUpTo(env, a, b, |a|);
    assert a[..|a|] == a && b[..|b|] == b;
  }
}
