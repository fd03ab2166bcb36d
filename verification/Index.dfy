/** The adaptive checkpoint index: at most `capacityLimit` record starts,
    thinned to every other one whenever it is full. */
module Index {
  import opened Prelude

  datatype Checkpoint = Checkpoint(row: nat, offset: nat)

  datatype Cadence = Rows | Bytes

  datatype IndexUpdate = IndexUpdate(stored: bool, compacted: bool)

  // ------------------------------------------------------------ what it keeps

  function EveryOther(entries: seq<Checkpoint>): (r: seq<Checkpoint>)
    ensures |r| == (|entries| + 1) / 2
    ensures forall k :: 0 <= k < |r| ==> r[k] == entries[2 * k]
  {
    seq((|entries| + 1) / 2, k requires 0 <= k < (|entries| + 1) / 2 => entries[2 * k])
  }

  /** The first `write` places hold every other entry; the rest are as before. */
  ghost predicate Moved(now: seq<Checkpoint>, was: seq<Checkpoint>, write: nat) {
    && write <= |EveryOther(was)| && |now| == |was|
    && now[..write] == EveryOther(was)[..write] && now[write..] == was[write..]
  }

  lemma MoveNone(was: seq<Checkpoint>)
    requires |was| > 0
    ensures Moved(was, was, 1)
  {
    assert was[..1] == [was[0]] == EveryOther(was)[..1];
  }

  lemma MoveOne(now: seq<Checkpoint>, was: seq<Checkpoint>, write: nat)
    requires Moved(now, was, write) && 0 < write && 2 * write < |was|
    ensures |now| == |was| && Moved(now[write := now[2 * write]], was, write + 1)
  {
    var next, half := now[write := now[2 * write]], EveryOther(was);
    assert now[2 * write] == now[write..][write] == was[write..][write] == half[write];
    assert next[..write + 1] == now[..write] + [half[write]] == half[..write + 1];
    assert next[write + 1..] == now[write..][1..] == was[write..][1..] == was[write + 1..];
  }

  lemma MovedAll(now: seq<Checkpoint>, was: seq<Checkpoint>)
    requires Moved(now, was, |EveryOther(was)|)
    ensures |now| == |was| && now[..|EveryOther(was)|] == EveryOther(was)
  {
    var half := EveryOther(was);
    assert half[..|half|] == half;
  }

  function Distance(cadence: Cadence, from: Checkpoint, to: Checkpoint): nat {
    match cadence
    case Rows => Sub(to.row, from.row)
    case Bytes => Sub(to.offset, from.offset)
  }

  datatype Sample = Sample(entries: seq<Checkpoint>, stride: nat)

  /** A full sample is thinned and its stride doubled, up to 64 bits. */
  function Thinned(s: Sample, capacity: nat): (t: Sample)
    requires 0 < |s.entries| <= capacity && 2 <= capacity
    ensures 0 < |t.entries| < capacity
  {
    if |s.entries| == capacity then Sample(EveryOther(s.entries), Min(2 * s.stride, U64_MAX)) else s
  }

  function Added(s: Sample, cadence: Cadence, c: Checkpoint): Sample
    requires 0 < |s.entries|
  {
    if Distance(cadence, s.entries[|s.entries| - 1], c) >= s.stride then s.(entries := s.entries + [c]) else s
  }

  /** Rows and offsets both strictly increase, up to the last one observed. */
  ghost predicate Rising(entries: seq<Checkpoint>, last: Checkpoint) {
    && |entries| > 0 && entries[0] == Checkpoint(0, 0)
    && (forall i, j :: 0 <= i < j < |entries| ==>
       entries[i].row < entries[j].row && entries[i].offset < entries[j].offset)
    && entries[|entries| - 1].row <= last.row && entries[|entries| - 1].offset <= last.offset
  }

  lemma ThinnedRises(s: Sample, capacity: nat, last: Checkpoint)
    requires Rising(s.entries, last) && |s.entries| <= capacity && 2 <= capacity
    ensures Rising(Thinned(s, capacity).entries, last)
  {
    var n := |s.entries|;
    var m := 2 * ((n + 1) / 2 - 1);
    assert m == n - 1 || m < n - 1;
  }

  lemma AddedRises(s: Sample, cadence: Cadence, last: Checkpoint, c: Checkpoint)
    requires Rising(s.entries, last) && last.row < c.row && last.offset < c.offset
    ensures Rising(Added(s, cadence, c).entries, c)
  {
    var m := |s.entries| - 1;
    forall i | 0 <= i < m
      ensures s.entries[i].row < c.row && s.entries[i].offset < c.offset
    {
      assert s.entries[i].row < s.entries[m].row;
    }
  }

  /** How many leading entries lie at or before `row`. */
  function PartitionPoint(entries: seq<Checkpoint>, row: nat): (n: nat)
    ensures n <= |entries|
    ensures forall i :: 0 <= i < n ==> entries[i].row <= row
    ensures n < |entries| ==> entries[n].row > row
  {
    if entries == [] || entries[0].row > row then 0
    else
      var n := PartitionPoint(entries[1..], row);
      assert forall i :: 1 <= i <= n ==> entries[i] == entries[1..][i - 1];
      1 + n
  }

  class AdaptiveIndex {
    var entries: seq<Checkpoint>
    var stride: nat
    var lastObserved: Checkpoint
    const capacityLimit: nat
    const cadence: Cadence

    ghost predicate Valid()
      reads this
    {
      && 2 <= capacityLimit && 0 < stride <= U64_MAX && |entries| <= capacityLimit
      && Rising(entries, lastObserved)
    }

    constructor (capacity: nat, initialStride: nat, cadence: Cadence)
      requires 2 <= capacity && 0 < initialStride <= U64_MAX
      ensures Valid() && capacityLimit == capacity && stride == initialStride && this.cadence == cadence
      ensures entries == [Checkpoint(0, 0)] && lastObserved == Checkpoint(0, 0)
    {
      entries, stride := [Checkpoint(0, 0)], initialStride;
      capacityLimit, this.cadence := capacity, cadence;
      lastObserved := Checkpoint(0, 0);
    }

    /** Keeps every other entry, moving each down in place. */
    method Compact()
      requires |entries| > 0
      modifies this`entries, this`stride
      ensures entries == EveryOther(old(entries)) && stride == Min(2 * old(stride), U64_MAX)
    {
      hide Moved;
      ghost var was, half := entries, EveryOther(entries);
      MoveNone(entries);
      var oldLen := |entries|;
      var write, read := 1, 2;
      while read < oldLen
        invariant read == 2 * write && 1 <= write <= |half|
        invariant Moved(entries, was, write) && stride == old(stride)
      {
        MoveOne(entries, was, write);
        entries := entries[write := entries[read]];
        write := write + 1;
        read := read + 2;
      }
      MovedAll(entries, was);
      entries := entries[..write];
      stride := Min(2 * stride, U64_MAX);
    }

    /** Observes a record boundary. It is refused when it does not come after
        the last one in both row and offset. */
    method Observe(candidate: Checkpoint) returns (r: Result<IndexUpdate>)
      requires Valid()
      modifies this`entries, this`stride, this`lastObserved
      ensures Valid()
      ensures r.Err? <==>
              && candidate != old(lastObserved)
              && (candidate.row <= old(lastObserved.row) || candidate.offset <= old(lastObserved.offset))
      ensures r.Err? || candidate == old(lastObserved) ==>
                entries == old(entries) && stride == old(stride) && lastObserved == old(lastObserved)
      ensures r.Ok? && candidate != old(lastObserved) ==>
                && lastObserved == candidate
                && var thinned := Thinned(old(Sample(entries, stride)), capacityLimit);
                && Sample(entries, stride) == Added(thinned, cadence, candidate)
                && r.value == IndexUpdate(|entries| > |thinned.entries|, |old(entries)| == capacityLimit)
    {
      hide Rising;
      if candidate == lastObserved {
        return Ok(IndexUpdate(false, false));
      }
      if candidate.row <= lastObserved.row || candidate.offset <= lastObserved.offset {
        return Err(NonMonotonic);
      }
      NotEmpty();
      ThinnedRises(Sample(entries, stride), capacityLimit, lastObserved);
      AddedRises(Thinned(Sample(entries, stride), capacityLimit), cadence, lastObserved, candidate);
      lastObserved := candidate;
      var compacted := |entries| == capacityLimit;
      if compacted {
        Compact();
      }
      var stored := Distance(cadence, entries[|entries| - 1], candidate) >= stride;
      if stored {
        entries := entries + [candidate];
      }
      r := Ok(IndexUpdate(stored, compacted));
    }

    lemma NotEmpty()
      requires Rising(entries, lastObserved)
      ensures |entries| > 0
    {}

    /** The last checkpoint at or before `row`. */
    function Nearest(row: nat): (c: Checkpoint)
      reads this
      requires Valid()
      ensures c in entries && c.row <= row
      ensures forall e :: e in entries && e.row <= row ==> e.row <= c.row
    {
      var after := PartitionPoint(entries, row);
      assert after > 0;
      entries[after - 1]
    }
  }

  /** An index holding the origin, unless it could not be thinned or sampled. */
  method NewIndex(capacity: nat, initialStride: nat, cadence: Cadence, calm: bool) returns (r: Result<AdaptiveIndex>)
    requires initialStride <= U64_MAX
    ensures r.Ok? ==>
              && fresh(r.value) && r.value.Valid()
              && r.value.capacityLimit == capacity && r.value.stride == initialStride && r.value.cadence == cadence
              && r.value.entries == [Checkpoint(0, 0)] && r.value.lastObserved == Checkpoint(0, 0)
    ensures r == Err(InvalidConfig) <==> capacity < 2 || initialStride == 0
    ensures calm && r.Err? ==> r.error == InvalidConfig
  {
    if capacity < 2 || initialStride == 0 {
      return Err(InvalidConfig);
    }
    var refused := Disturbed(calm);
    if refused {
      return Err(Allocation);
    }
    var index := new AdaptiveIndex(capacity, initialStride, cadence);
    r := Ok(index);
  }

  // ---------------------------------------------------------------- exactness

  /** Entry `k` is row `k * stride`, at its true start. */
  ghost predicate EntryOk(e: Checkpoint, row: int, starts: seq<nat>) {
    e.row == row && e.row < |starts| && e.offset == starts[e.row]
  }

  /** The sample holds exactly the rows 0, s, 2s, ... among those recorded. */
  ghost predicate Samples(s: Sample, starts: seq<nat>) {
    && |s.entries| > 0 && s.stride > 0
    && (starts == [] ==> s.entries == [Checkpoint(0, 0)])
    && (starts != [] ==>
          && (forall k :: 0 <= k < |s.entries| ==> EntryOk(s.entries[k], k * s.stride, starts))
          && |starts| <= |s.entries| * s.stride)
  }

  /** Thinning a full sample leaves a sample of the doubled stride. */
  lemma ThinnedSamples(s: Sample, capacity: nat, starts: seq<nat>)
    requires Samples(s, starts) && |s.entries| <= capacity && 2 <= capacity && 0 < |starts| < U64_MAX
    ensures Samples(Thinned(s, capacity), starts)
    ensures var t := Thinned(s, capacity);
            t.stride == s.stride || t.stride * (capacity - 1) <= 2 * (|starts| - 1)
  {
    if |s.entries| == capacity {
      if 2 * s.stride <= U64_MAX {
        DoubledSamples(s, capacity, starts);
      } else {
        SaturatedSamples(s, capacity, starts);
      }
    }
  }

  lemma DoubledSamples(s: Sample, capacity: nat, starts: seq<nat>)
    requires Samples(s, starts) && |s.entries| == capacity && 2 <= capacity && 0 < |starts|
    ensures Samples(Sample(EveryOther(s.entries), 2 * s.stride), starts)
    ensures 2 * s.stride * (capacity - 1) <= 2 * (|starts| - 1)
  {
    var t, last := EveryOther(s.entries), capacity - 1;
    forall k | 0 <= k < |t|
      ensures EntryOk(t[k], k * (2 * s.stride), starts)
    {
      assert EntryOk(s.entries[2 * k], (2 * k) * s.stride, starts);
      Twice(k, s.stride);
    }
    Covers(|s.entries|, |t|, s.stride);
    assert EntryOk(s.entries[last], last * s.stride, starts);
    Twice(last, s.stride);
  }

  lemma SaturatedSamples(s: Sample, capacity: nat, starts: seq<nat>)
    requires Samples(s, starts) && |s.entries| == capacity && 2 <= capacity && 0 < |starts| < U64_MAX
    requires 2 * s.stride > U64_MAX
    ensures Samples(Sample(EveryOther(s.entries), U64_MAX), starts)
    ensures U64_MAX * (capacity - 1) <= 2 * (|starts| - 1)
  {
    var last := capacity - 1;
    assert EntryOk(s.entries[last], last * s.stride, starts);
    Saturated(capacity, s.stride, |starts|);
    assert EntryOk(s.entries[0], 0 * s.stride, starts);
    assert EveryOther(s.entries) == [s.entries[0]];
  }

  lemma Covers(n: nat, m: nat, stride: nat)
    requires n <= 2 * m
    ensures n * stride <= m * (2 * stride)
  {
    Twice(m, stride);
    Monotone(n, 2 * m, stride);
  }

  lemma Twice(k: nat, stride: nat)
    ensures (2 * k) * stride == k * (2 * stride) == 2 * (k * stride) == 2 * stride * k
  {}

  lemma Monotone(a: nat, b: nat, c: nat)
    requires a <= b
    ensures a * c <= b * c
  {
    assert (b - a) * c >= 0;
  }

  /** A stride that can no longer double has sampled two rows at most. */
  lemma Saturated(capacity: nat, stride: nat, rows: nat)
    requires 2 <= capacity && 2 * stride > U64_MAX && rows < U64_MAX && (capacity - 1) * stride < rows
    ensures capacity == 2
  {
    if capacity > 2 {
      Monotone(2, capacity - 1, stride);
    }
  }

  /** The next row is sampled exactly when it is the next multiple. */
  lemma AddedSamples(s: Sample, starts: seq<nat>, offset: nat)
    requires Samples(s, starts) && |starts| > 0
    ensures Samples(Added(s, Rows, Checkpoint(|starts|, offset)), starts + [offset])
    ensures Added(s, Rows, Checkpoint(|starts|, offset)).stride == s.stride
  {
    var n := |s.entries|;
    var more := starts + [offset];
    assert EntryOk(s.entries[n - 1], (n - 1) * s.stride, starts);
    assert (n - 1) * s.stride + s.stride == n * s.stride;
    forall k | 0 <= k < n
      ensures EntryOk(s.entries[k], k * s.stride, more)
    {
      assert EntryOk(s.entries[k], k * s.stride, starts);
    }
    if |starts| - (n - 1) * s.stride >= s.stride {
      assert |starts| == n * s.stride;
      assert EntryOk(Checkpoint(|starts|, offset), n * s.stride, more);
      assert (n + 1) * s.stride == n * s.stride + s.stride;
    }
  }

  /** A lookup is less than one stride back, at that row's true start. */
  lemma NearestIsClose(index: AdaptiveIndex, starts: seq<nat>, row: nat)
    requires index.Valid() && Samples(Sample(index.entries, index.stride), starts) && row < |starts|
    ensures var c := index.Nearest(row);
            c.row <= row < c.row + index.stride && c.row < |starts| && c.offset == starts[c.row]
  {
    var n := PartitionPoint(index.entries, row);
    var s := index.stride;
    assert EntryOk(index.entries[n - 1], (n - 1) * s, starts);
    assert (n - 1) * s + s == n * s;
    if n < |index.entries| {
      assert EntryOk(index.entries[n], n * s, starts);
    }
  }

  /** A row recorded is in the sample exactly when the stride divides it, and
      the sample holds nothing else. */
  lemma SampledRows(s: Sample, starts: seq<nat>, row: nat)
    requires Samples(s, starts) && row < |starts| && s.stride > 0
    ensures Checkpoint(row, starts[row]) in s.entries <==> row % s.stride == 0
    ensures forall e :: e in s.entries ==> e.row < |starts| && e.offset == starts[e.row]
  {
    hide Samples;
    forall e | e in s.entries
      ensures e.row < |starts| && e.offset == starts[e.row] && e.row % s.stride == 0
    {
      EntryIsMultiple(s, starts, e);
    }
    if row % s.stride == 0 {
      MultipleIsEntry(s, starts, row);
    }
  }

  lemma EntryIsMultiple(s: Sample, starts: seq<nat>, e: Checkpoint)
    requires Samples(s, starts) && starts != [] && e in s.entries
    ensures e.row < |starts| && e.offset == starts[e.row] && e.row % s.stride == 0
  {
    var k :| 0 <= k < |s.entries| && s.entries[k] == e;
    assert EntryOk(s.entries[k], k * s.stride, starts);
    Divides(k, s.stride);
  }

  lemma MultipleIsEntry(s: Sample, starts: seq<nat>, row: nat)
    requires Samples(s, starts) && row < |starts| && row % s.stride == 0
    ensures Checkpoint(row, starts[row]) in s.entries
  {
    var k := row / s.stride;
    assert row == k * s.stride;
    if k < |s.entries| {
      assert EntryOk(s.entries[k], k * s.stride, starts);
      assert s.entries[k] == Checkpoint(row, starts[row]);
    } else {
      Monotone(|s.entries|, k, s.stride);
    }
  }

  lemma Divides(k: nat, d: nat)
    requires d > 0
    ensures (k * d) % d == 0
  {
    var q := k * d / d;
    if k > q {
      Monotone(q + 1, k, d);
    } else if k < q {
      Monotone(k + 1, q, d);
    }
  }
}
