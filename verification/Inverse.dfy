/** The row-to-rank map, built with sequential writes: pairs are collected into
    one bucket per block of rows, then each bucket is placed in memory and
    written out. It succeeds exactly when the rows are a permutation. */
module Inverse {
  import opened Prelude

  datatype Pair = Pair(row: nat, rank: nat)

  /** Pairs placed per call, and map entries written at a time. */
  const CHUNK_PAIRS: nat := 4096
  const CHUNK_RANKS: nat := 8192

  /** How a call that places pairs fails: its pairs cannot be read, or only so
      many ranks of the block can be written. */
  datatype PlaceFault = Unread | HalfWritten(ranks: nat)

  /** The pairs whose row lies in block `b` of `w` rows, in order. */
  ghost function InBucket(pushed: seq<Pair>, w: nat, b: nat): seq<Pair>
    requires w > 0
  {
    if pushed == [] then []
    else
      var rest := InBucket(pushed[..|pushed| - 1], w, b);
      var last := pushed[|pushed| - 1];
      if last.row / w == b then rest + [last] else rest
  }

  /** No row is ranked twice. */
  ghost predicate Distinct(ps: seq<Pair>) {
    forall i, j :: 0 <= i < j < |ps| ==> ps[i].row != ps[j].row
  }

  ghost predicate InRange(ps: seq<Pair>, n: nat) {
    forall i :: 0 <= i < |ps| ==> ps[i].row < n && ps[i].rank < n
  }

  ghost function Rows(ps: seq<Pair>): set<nat> {
    if ps == [] then {} else Rows(ps[..|ps| - 1]) + {ps[|ps| - 1].row}
  }

  lemma {:induction false} RowAt(ps: seq<Pair>, i: nat)
    requires i < |ps|
    ensures ps[i].row in Rows(ps)
    decreases |ps|
  {
    if i < |ps| - 1 {
      RowAt(ps[..|ps| - 1], i);
    }
  }

  lemma {:induction false} RowFound(ps: seq<Pair>, r: nat) returns (i: nat)
    requires r in Rows(ps)
    ensures i < |ps| && ps[i].row == r
    decreases |ps|
  {
    if ps[|ps| - 1].row == r {
      i := |ps| - 1;
    } else {
      i := RowFound(ps[..|ps| - 1], r);
    }
  }

  ghost function Block(start: nat, len: nat): (rows: set<nat>)
    ensures forall r :: r in rows <==> start <= r < start + len
    ensures |rows| == len
  {
    if len == 0 then {} else Block(start, len - 1) + {start + len - 1}
  }

  // ------------------------------------------------------------- counting rows

  lemma {:induction false} RowsSize(ps: seq<Pair>)
    requires Distinct(ps)
    ensures |Rows(ps)| == |ps|
    decreases |ps|
  {
    if ps != [] {
      var front, last := ps[..|ps| - 1], ps[|ps| - 1];
      RowsSize(front);
      if last.row in Rows(front) {
        var i := RowFound(front, last.row);
      }
    }
  }

  lemma SubsetSize(a: set<nat>, b: set<nat>)
    requires a <= b
    ensures |a| <= |b|
    ensures |a| == |b| ==> a == b
  {
    var rest := b - a;
    assert b == a + rest;
    if |a| == |b| {
      assert |rest| == 0;
    }
  }

  /** Distinct rows of a block are at most its length, and all of it when they
      are as many. */
  lemma Pigeonhole(ps: seq<Pair>, start: nat, len: nat)
    requires Distinct(ps) && forall i :: 0 <= i < |ps| ==> start <= ps[i].row < start + len
    ensures |ps| <= len
    ensures |ps| == len ==> Rows(ps) == Block(start, len)
  {
    RowsSize(ps);
    forall r | r in Rows(ps)
      ensures r in Block(start, len)
    {
      var i := RowFound(ps, r);
    }
    SubsetSize(Rows(ps), Block(start, len));
  }

  // ------------------------------------------------------------------- buckets

  lemma BucketAppend(pushed: seq<Pair>, p: Pair, w: nat, b: nat)
    requires w > 0
    ensures InBucket(pushed + [p], w, b) ==
            InBucket(pushed, w, b) + if p.row / w == b then [p] else []
  {
    assert (pushed + [p])[..|pushed|] == pushed;
  }

  lemma {:induction false} BucketHolds(pushed: seq<Pair>, w: nat, b: nat, i: nat)
    requires w > 0 && i < |InBucket(pushed, w, b)|
    ensures InBucket(pushed, w, b)[i] in pushed && InBucket(pushed, w, b)[i].row / w == b
    decreases |pushed|
  {
    var front, last := pushed[..|pushed| - 1], pushed[|pushed| - 1];
    if i < |InBucket(front, w, b)| {
      BucketHolds(front, w, b, i);
    }
  }

  lemma {:induction false} BucketFinds(pushed: seq<Pair>, w: nat, i: nat) returns (k: nat)
    requires w > 0 && i < |pushed|
    ensures var bucket := InBucket(pushed, w, pushed[i].row / w);
            k < |bucket| && bucket[k] == pushed[i]
    decreases |pushed|
  {
    var front := pushed[..|pushed| - 1];
    if i < |front| {
      k := BucketFinds(front, w, i);
    } else {
      k := |InBucket(front, w, pushed[i].row / w)|;
    }
  }

  lemma {:induction false} BucketDistinct(pushed: seq<Pair>, w: nat, b: nat)
    requires w > 0 && Distinct(pushed)
    ensures Distinct(InBucket(pushed, w, b))
    decreases |pushed|
  {
    if pushed != [] {
      var front, last := pushed[..|pushed| - 1], pushed[|pushed| - 1];
      BucketDistinct(front, w, b);
      forall i | 0 <= i < |InBucket(front, w, b)|
        ensures InBucket(front, w, b)[i].row != last.row
      {
        BucketHolds(front, w, b, i);
      }
    }
  }

  /** Rows of different blocks differ, so blocks with distinct rows make the
      whole distinct. */
  lemma DistinctFromBuckets(pushed: seq<Pair>, w: nat)
    requires w > 0 && forall b: nat :: Distinct(InBucket(pushed, w, b))
    ensures Distinct(pushed)
  {
    forall i, j | 0 <= i < j < |pushed|
      ensures pushed[i].row != pushed[j].row
    {
      if pushed[i].row == pushed[j].row {
        SameRowTwice(pushed, w, i, j);
      }
    }
  }

  lemma {:induction false} SameRowTwice(pushed: seq<Pair>, w: nat, i: nat, j: nat)
    requires w > 0 && i < j < |pushed| && pushed[i].row == pushed[j].row
    ensures !Distinct(InBucket(pushed, w, pushed[i].row / w))
    decreases |pushed|
  {
    var front, b := pushed[..|pushed| - 1], pushed[i].row / w;
    var inFront := InBucket(front, w, b);
    if j < |front| {
      SameRowTwice(front, w, i, j);
      var x, y :| 0 <= x < y < |inFront| && inFront[x].row == inFront[y].row;
      assert InBucket(pushed, w, b)[x].row == InBucket(pushed, w, b)[y].row;
    } else {
      var k := BucketFinds(front, w, i);
      assert InBucket(pushed, w, b)[k].row == InBucket(pushed, w, b)[|inFront|].row;
    }
  }

  // ------------------------------------------------------- blocks of the map

  function CeilDiv(n: nat, w: nat): nat
    requires w > 0
  {
    (n + w - 1) / w
  }

  lemma BlockStart(n: nat, w: nat, b: nat)
    requires w > 0
    ensures b < CeilDiv(n, w) <==> b * w < n
  {
    var c := CeilDiv(n, w);
    assert c * w <= n + w - 1 < c * w + w;
    if b < c {
      assert b * w <= (c - 1) * w;
    } else {
      assert c * w <= b * w;
    }
  }

  lemma RowBlock(row: nat, w: nat, b: nat)
    requires w > 0
    ensures row / w == b <==> b * w <= row < b * w + w
  {
    var q := row / w;
    assert q * w <= row < q * w + w;
    if q < b {
      assert (q + 1) * w <= b * w;
    } else if b < q {
      assert (b + 1) * w <= q * w;
    }
  }

  lemma BlocksApart(w: nat, b: nat, c: nat)
    requires b < c
    ensures b * w + w <= c * w
  {
    assert (b + 1) * w <= c * w;
  }

  /** Entries of one bucket are placed: each slot holds its row's rank, or the
      empty marker if its row has not come. */
  ghost predicate Slots(region: seq<Pair>, base: nat, len: nat, ranks: seq<nat>) {
    && len <= |ranks| && Distinct(region)
    && (forall k :: 0 <= k < |region| ==>
          base <= region[k].row < base + len && ranks[region[k].row - base] == region[k].rank)
    && (forall s :: 0 <= s < len && ranks[s] != U64_MAX ==> base + s in Rows(region))
  }

  lemma SlotTaken(region: seq<Pair>, base: nat, len: nat, ranks: seq<nat>, p: Pair)
    requires Slots(region, base, len, ranks) && base <= p.row < base + len && ranks[p.row - base] != U64_MAX
    ensures !Distinct(region + [p])
  {
    var k := RowFound(region, p.row);
    assert (region + [p])[k].row == (region + [p])[|region|].row;
  }

  lemma RowsAppend(ps: seq<Pair>, p: Pair)
    ensures Rows(ps + [p]) == Rows(ps) + {p.row}
  {
    assert (ps + [p])[..|ps|] == ps;
  }

  lemma SlotFilled(region: seq<Pair>, base: nat, len: nat, ranks: seq<nat>, p: Pair)
    requires Slots(region, base, len, ranks) && base <= p.row < base + len
    requires ranks[p.row - base] == U64_MAX && forall k :: 0 <= k < |region| ==> region[k].rank < U64_MAX
    ensures Slots(region + [p], base, len, ranks[p.row - base := p.rank])
  {
    var region', ranks' := region + [p], ranks[p.row - base := p.rank];
    forall k | 0 <= k < |region|
      ensures region[k].row != p.row
    {
      assert ranks[region[k].row - base] == region[k].rank;
    }
    RowsAppend(region, p);
    assert forall s :: 0 <= s < len && ranks'[s] != U64_MAX ==> base + s in Rows(region');
    DistinctAppend(region, p);
  }

  lemma DistinctAppend(ps: seq<Pair>, p: Pair)
    requires Distinct(ps) && forall k :: 0 <= k < |ps| ==> ps[k].row != p.row
    ensures Distinct(ps + [p])
  {}

  /** A positioned write. */
  function Overwrite<T>(file: seq<T>, at: nat, data: seq<T>): (r: seq<T>)
    requires at + |data| <= |file|
    ensures |r| == |file|
  {
    file[..at] + data + file[at + |data|..]
  }

  lemma OverwriteElsewhere<T>(file: seq<T>, at: nat, data: seq<T>, a: nat, b: nat)
    requires at + |data| <= |file| && a <= b <= |file| && (b <= at || at + |data| <= a)
    ensures Overwrite(file, at, data)[a..b] == file[a..b]
  {}

  lemma OverwriteHere<T>(file: seq<T>, a: nat, at: nat, data: seq<T>)
    requires a <= at && at + |data| <= |file|
    ensures Overwrite(file, at, data)[a..at + |data|] + [] == file[a..at] + data
  {}

  class InverseBuilder {
    const records: nat
    const bucketRows: nat
    const bufferPairs: nat
    const buckets: nat
    var pairs: seq<Pair>
    var buffers: seq<seq<Pair>>
    var written: seq<nat>
    var ranks: seq<nat>
    var bucket: nat
    var read: nat
    ghost var pushed: seq<Pair>

    function Start(b: nat): nat {
      b * bucketRows
    }

    function Len(b: nat): nat {
      if Start(b) <= records then Min(bucketRows, records - Start(b)) else 0
    }

    ghost function Expected(b: nat): seq<Pair>
      reads this`pushed
      requires bucketRows > 0
    {
      InBucket(pushed, bucketRows, b)
    }

    ghost predicate Shaped()
      reads this`pairs, this`buffers, this`written, this`ranks, this`pushed
    {
      && 0 < bucketRows && 0 < bufferPairs && records <= U64_MAX
      && buckets == CeilDiv(records, bucketRows)
      && |pairs| == records && |buffers| == |written| == buckets && |ranks| == Min(bucketRows, records)
      && InRange(pushed, records)
    }

    /** What bucket `b` was given is in its own region of the file and its
        buffer, in order. */
    ghost predicate BucketOk(b: nat)
      reads this`pairs, this`buffers, this`written, this`pushed
      requires b < |buffers| && b < |written| && bucketRows > 0
    {
      && written[b] <= Len(b) && Start(b) + written[b] <= |pairs|
      && Expected(b) == pairs[Start(b)..Start(b) + written[b]] + buffers[b]
    }

    ghost predicate Collecting()
      reads this
    {
      && Shaped() && bucket == read == 0
      && (forall b :: 0 <= b < buckets ==> BucketOk(b) && |buffers[b]| < bufferPairs)
    }

    /** The buffer that pairs of `row` go to has no room. */
    ghost predicate Full(row: nat)
      reads this`buffers
    {
      0 < bucketRows && row / bucketRows < |buffers| && |buffers[row / bucketRows]| == bufferPairs
    }

    /** Where in the one array of all buffers the next pair of bucket `b` goes. */
    ghost function Slot(b: nat): nat
      reads this`buffers
      requires b < |buffers|
    {
      b * bufferPairs + |buffers[b]|
    }

    /** A pair for a full buffer would go to the next bucket's first place, or
        past the end of the array. */
    lemma FullSpills(row: nat)
      requires Full(row) && 0 < bufferPairs
      ensures var b := row / bucketRows;
              if b + 1 < |buffers| then Slot(b) == (b + 1) * bufferPairs else Slot(b) == |buffers| * bufferPairs
    {
      var b := row / bucketRows;
      assert (b + 1) * bufferPairs == b * bufferPairs + bufferPairs;
    }

    constructor (records: nat, bucketRows: nat, bufferPairs: nat)
      requires 0 < bucketRows && 0 < bufferPairs && records <= U64_MAX
      ensures Collecting() && pushed == [] && this.records == records
    {
      this.records := records;
      this.bucketRows := bucketRows;
      this.bufferPairs := bufferPairs;
      buckets := CeilDiv(records, bucketRows);
      pairs := seq(records, _ => Pair(0, 0));
      buffers := seq(CeilDiv(records, bucketRows), _ => []);
      written := seq(CeilDiv(records, bucketRows), _ => 0);
      ranks := seq(Min(bucketRows, records), _ => 0);
      bucket, read, pushed := 0, 0, [];
      new;
      forall b | 0 <= b < buckets
        ensures BucketOk(b)
      {
        BlockStart(records, bucketRows, b);
      }
    }

    /** Writes one bucket's buffer to the bucket's region. It fails only if a
        row of the block was ranked twice or the disk refuses the write, and
        then changes nothing. */
    method Flush(b: nat, unwritten: bool) returns (r: Result<()>)
      requires Shaped() && b < buckets
      requires forall c :: 0 <= c < buckets ==> BucketOk(c)
      modifies this`pairs, this`buffers, this`written
      ensures Shaped() && forall c :: 0 <= c < buckets ==> BucketOk(c)
      ensures r.Ok? ==> buffers == old(buffers)[b := []]
      ensures r.Ok? ==> written == old(written)[b := |Expected(b)|]
      ensures r.Err? ==> buffers == old(buffers) && written == old(written) && pairs == old(pairs)
      ensures r.Err? ==> (r.error == InvalidScratch && !Distinct(pushed)) || (r.error == ScratchIo && unwritten)
      ensures !unwritten ==> r != Err(ScratchIo)
    {
      hide InBucket, CeilDiv, Distinct, InRange, Start, Len;
      var count := |buffers[b]|;
      if count == 0 {
        assert BucketOk(b) && buffers[b] == [];
        assert |Expected(b)| == written[b];
        return Ok(());
      }
      assert BucketOk(b);
      if written[b] + count > Len(b) {
        TooMany(b);
        return Err(InvalidScratch);
      }
      if unwritten {
        return Err(ScratchIo);
      }
      FlushWrites(b);
      r := Ok(());
    }

    method FlushWrites(b: nat)
      requires Shaped() && b < buckets && written[b] + |buffers[b]| <= Len(b)
      requires forall c :: 0 <= c < buckets ==> BucketOk(c)
      modifies this`pairs, this`buffers, this`written
      ensures Shaped() && forall c :: 0 <= c < buckets ==> BucketOk(c)
      ensures buffers == old(buffers)[b := []]
      ensures written == old(written)[b := |Expected(b)|]
    {
      hide InBucket, CeilDiv, Distinct, InRange, Start, Len;
      ghost var before := pairs;
      assert BucketOk(b);
      LenBounds(b);
      var offset := Start(b) + written[b];
      pairs := Overwrite(pairs, offset, buffers[b]);
      written := written[b := written[b] + |buffers[b]|];
      buffers := buffers[b := []];
      forall c | 0 <= c < buckets
        ensures BucketOk(c)
      {
        assert old(BucketOk(c));
        LenBounds(c);
        if c != b {
          RegionsApart(b, c);
          OverwriteElsewhere(before, offset, old(buffers[b]), Start(c), Start(c) + written[c]);
        } else {
          OverwriteHere(before, Start(b), offset, old(buffers[b]));
        }
      }
    }

    lemma LenBounds(b: nat)
      requires 0 < bucketRows && b < CeilDiv(records, bucketRows)
      ensures Start(b) + Len(b) <= records && Len(b) <= bucketRows && Len(b) > 0
    {
      BlockStart(records, bucketRows, b);
    }

    /** Two buckets' regions never overlap. */
    lemma RegionsApart(b: nat, c: nat)
      requires b != c
      ensures Start(b) + Len(b) <= Start(c) || Start(c) + Len(c) <= Start(b)
    {
      if b < c {
        BlocksApart(bucketRows, b, c);
      } else {
        BlocksApart(bucketRows, c, b);
      }
    }

    lemma ExpectedInBlock(b: nat, i: nat)
      requires Shaped() && b < buckets && i < |Expected(b)|
      ensures Start(b) <= Expected(b)[i].row < Start(b) + Len(b)
      ensures Expected(b)[i].rank < records
    {
      BucketHolds(pushed, bucketRows, b, i);
      var k :| 0 <= k < |pushed| && pushed[k] == Expected(b)[i];
      RowBlock(Expected(b)[i].row, bucketRows, b);
    }

    /** More pairs than rows: some row came twice. */
    lemma TooMany(b: nat)
      requires Shaped() && b < buckets && |Expected(b)| > Len(b)
      ensures !Distinct(pushed)
    {
      if Distinct(pushed) {
        BucketDistinct(pushed, bucketRows, b);
        forall i | 0 <= i < |Expected(b)|
          ensures Start(b) <= Expected(b)[i].row < Start(b) + Len(b)
        {
          ExpectedInBlock(b, i);
        }
        Pigeonhole(Expected(b), Start(b), Len(b));
      }
    }

    /** Collects one pair in its bucket. Only a value out of range or a second
        rank for a row is refused, and the disk may refuse a write. The pair is
        then in a full buffer, with no room for another. */
    method Push(row: nat, rank: nat, unwritten: bool) returns (r: Result<()>)
      requires Collecting()
      modifies this
      ensures r.Ok? ==> Collecting() && pushed == old(pushed) + [Pair(row, rank)]
      ensures r == Err(InvalidScratch) ==>
                row >= records || rank >= records || !Distinct(old(pushed) + [Pair(row, rank)])
      ensures r == Err(ScratchIo) ==> unwritten && Full(row) && !Collecting()
      ensures r.Err? ==> r.error == InvalidScratch || r.error == ScratchIo
    {
      hide InBucket, CeilDiv, Distinct, Start, Len;
      if row >= records || rank >= records {
        return Err(InvalidScratch);
      }
      var b := row / bucketRows;
      RowBlock(row, bucketRows, b);
      BlockStart(records, bucketRows, b);
      Append(b, Pair(row, rank));
      r := Ok(());
      if |buffers[b]| == bufferPairs {
        r := Flush(b, unwritten);
      }
    }

    method Append(b: nat, p: Pair)
      requires Collecting() && b < buckets && p.row / bucketRows == b && p.row < records && p.rank < records
      modifies this`buffers, this`pushed
      ensures Shaped() && pushed == old(pushed) + [p]
      ensures buffers == old(buffers)[b := old(buffers)[b] + [p]]
      ensures forall c :: 0 <= c < buckets ==> BucketOk(c)
    {
      hide InBucket, CeilDiv, Start, Len;
      buffers := buffers[b := buffers[b] + [p]];
      pushed := pushed + [p];
      forall c | 0 <= c < buckets
        ensures BucketOk(c)
      {
        assert old(BucketOk(c));
        BucketAppend(old(pushed), p, bucketRows, c);
        ghost var stored := pairs[Start(c)..Start(c) + written[c]];
        if c == b {
          assert (stored + old(buffers)[b]) + [p] == stored + (old(buffers)[b] + [p]);
        } else {
          assert old(Expected(c)) + [] == old(Expected(c));
        }
      }
    }

    /** If every row is ranked once, every block has as many pairs as rows. */
    lemma PermutationFillsBlocks(b: nat)
      requires Shaped() && b < buckets && Distinct(pushed) && |pushed| == records
      ensures |Expected(b)| == Len(b)
    {
      hide InBucket, CeilDiv;
      Pigeonhole(pushed, 0, records);
      LenBounds(b);
      BucketDistinct(pushed, bucketRows, b);
      forall i | 0 <= i < |Expected(b)|
        ensures Start(b) <= Expected(b)[i].row < Start(b) + Len(b)
      {
        ExpectedInBlock(b, i);
      }
      Pigeonhole(Expected(b), Start(b), Len(b));
      forall r | r in Block(Start(b), Len(b))
        ensures r in Rows(Expected(b))
      {
        var i := RowFound(pushed, r);
        RowBlock(r, bucketRows, b);
        var k := BucketFinds(pushed, bucketRows, i);
        RowAt(Expected(b), k);
      }
      RowsSize(Expected(b));
      SubsetSize(Block(Start(b), Len(b)), Rows(Expected(b)));
    }

    /** Every pair is in its bucket's region and every region is full. */
    ghost predicate Collected()
      reads this`pairs, this`buffers, this`written, this`ranks, this`pushed
    {
      && Shaped()
      && forall b :: 0 <= b < buckets ==>
           Start(b) + Len(b) <= |pairs| && Expected(b) == pairs[Start(b)..Start(b) + Len(b)]
    }

    /** Writes what is left in the buffers. It fails only if the pushed rows
        are not a permutation or the disk refuses the write of bucket
        `unwritten`, and then it can be done again. */
    method FinishCollecting(unwritten: Option<nat>) returns (r: Result<()>)
      requires Collecting()
      modifies this`pairs, this`buffers, this`written
      ensures Collecting()
      ensures r.Ok? ==> Collected()
      ensures r == Err(InvalidScratch) ==> !(Distinct(pushed) && |pushed| == records)
      ensures r == Err(ScratchIo) ==> unwritten.Some?
      ensures r.Err? ==> r.error == InvalidScratch || r.error == ScratchIo
    {
      hide InBucket, CeilDiv, Distinct, InRange, Start, Len;
      var b := 0;
      while b < buckets
        invariant b <= buckets && Shaped()
        invariant forall c :: 0 <= c < buckets ==> BucketOk(c) && |buffers[c]| < bufferPairs
        invariant forall c :: 0 <= c < b ==> buffers[c] == [] && written[c] == Len(c)
      {
        r := Flush(b, unwritten == Some(b));
        if r.Err? {
          return;
        }
        if written[b] != Len(b) {
          if Distinct(pushed) && |pushed| == records {
            PermutationFillsBlocks(b);
          }
          return Err(InvalidScratch);
        }
        b := b + 1;
      }
      forall c | 0 <= c < buckets
        ensures Start(c) + Len(c) <= |pairs| && Expected(c) == pairs[Start(c)..Start(c) + Len(c)]
      {
        assert BucketOk(c);
        assert pairs[Start(c)..Start(c) + Len(c)] + [] == pairs[Start(c)..Start(c) + Len(c)];
      }
      r := Ok(());
    }

    /** The map holds every rank of block `b`, whose rows are distinct. */
    ghost predicate BlockDone(b: nat, map_: seq<nat>)
      reads this`pushed
      requires bucketRows > 0
    {
      && Distinct(Expected(b))
      && forall k :: 0 <= k < |Expected(b)| ==>
           Expected(b)[k].row < |map_| && map_[Expected(b)[k].row] == Expected(b)[k].rank
    }

    /** `map_` is complete up to the block being placed. */
    ghost predicate Placing(map_: seq<nat>)
      reads this
    {
      && Collected() && bucket <= buckets && |map_| == records
      && (read > 0 ==> bucket < buckets && read <= Len(bucket)
                       && Slots(Expected(bucket)[..read], Start(bucket), Len(bucket), ranks))
      && forall b :: 0 <= b < bucket ==> BlockDone(b, map_)
    }

    /** Places the pairs `from..to` of the block at hand. */
    method PlacePairs(from: nat, to: nat) returns (ok: bool)
      requires Collected() && bucket < buckets && from <= to <= Len(bucket)
      requires Slots(Expected(bucket)[..from], Start(bucket), Len(bucket), ranks)
      modifies this`ranks
      ensures |ranks| == old(|ranks|)
      ensures ok ==> Slots(Expected(bucket)[..to], Start(bucket), Len(bucket), ranks)
      ensures !ok ==> !Distinct(pushed)
    {
      hide InBucket, CeilDiv, Distinct, InRange, Start, Len, Slots;
      ghost var region := Expected(bucket);
      var base, len := Start(bucket), Len(bucket);
      var k := from;
      while k < to
        invariant from <= k <= to && |ranks| == old(|ranks|)
        invariant Slots(region[..k], base, len, ranks)
      {
        var p := pairs[base + k];
        assert p == region[k];
        ExpectedInBlock(bucket, k);
        SlotsLength(region[..k], base, len, ranks);
        assert region[..k + 1] == region[..k] + [p];
        // The row lies in this block, so the slot exists.
        if ranks[p.row - base] != U64_MAX {
          SlotTaken(region[..k], base, len, ranks, p);
          if Distinct(pushed) {
            BucketDistinct(pushed, bucketRows, bucket);
            DistinctPrefix(region, k + 1);
          }
          return false;
        }
        RanksBelow(bucket, k);
        SlotFilled(region[..k], base, len, ranks, p);
        ranks := ranks[p.row - base := p.rank];
        k := k + 1;
      }
      ok := true;
    }

    /** The map holds a rank for the row, not the empty marker. */
    ghost predicate RowFilled(map_: seq<nat>, row: nat) {
      row < |map_| && map_[row] < records
    }

    ghost predicate BlockFilled(b: nat, map_: seq<nat>) {
      forall row: nat :: Start(b) <= row < Start(b) + Len(b) ==> RowFilled(map_, row)
    }

    /** A block given as many distinct rows as it has was given every row. */
    lemma EveryRowOfBlock(b: nat, row: nat) returns (k: nat)
      requires Collected() && b < buckets && Distinct(Expected(b)) && Start(b) <= row < Start(b) + Len(b)
      ensures k < |Expected(b)| && Expected(b)[k].row == row && Expected(b)[k].rank < records
    {
      hide InBucket, CeilDiv, Start, Len, Distinct;
      forall i | 0 <= i < |Expected(b)|
        ensures Start(b) <= Expected(b)[i].row < Start(b) + Len(b)
      {
        ExpectedInBlock(b, i);
      }
      Pigeonhole(Expected(b), Start(b), Len(b));
      k := RowFound(Expected(b), row);
      ExpectedInBlock(b, k);
    }

    /** Once all its pairs are placed each slot holds its row's own rank. */
    lemma SlotsFilled(row: nat)
      requires Collected() && bucket < buckets && Slots(Expected(bucket), Start(bucket), Len(bucket), ranks)
      requires Start(bucket) <= row < Start(bucket) + Len(bucket)
      ensures Len(bucket) <= |ranks|
      ensures var rank := ranks[row - Start(bucket)];
              rank < records && Pair(row, rank) in Expected(bucket)
    {
      hide InBucket, CeilDiv, Start, Len;
      var k := EveryRowOfBlock(bucket, row);
      assert Expected(bucket)[k] == Pair(row, ranks[row - Start(bucket)]);
    }

    lemma DoneIsFilled(b: nat, map_: seq<nat>)
      requires Collected() && b < buckets && BlockDone(b, map_)
      ensures BlockFilled(b, map_)
    {
      hide InBucket, CeilDiv, Start, Len, Distinct;
      forall row: nat | Start(b) <= row < Start(b) + Len(b)
        ensures RowFilled(map_, row)
      {
        var k := EveryRowOfBlock(b, row);
      }
    }

    /** Writes the placed block to the map in large pieces: each row of it now
        has the rank it was pushed with, and no other row changes. */
    method WriteBlock(map_: seq<nat>) returns (written_: seq<nat>)
      requires Collected() && bucket < buckets && |map_| == records
      requires Slots(Expected(bucket), Start(bucket), Len(bucket), ranks)
      requires Start(bucket) + Len(bucket) <= records && Len(bucket) <= |ranks|
      ensures written_ == Overwrite(map_, Start(bucket), ranks[..Len(bucket)])
      ensures forall row :: Start(bucket) <= row < Start(bucket) + Len(bucket) ==>
                Pair(row, written_[row]) in Expected(bucket)
      ensures BlockFilled(bucket, written_)
      ensures forall row :: 0 <= row < records && !(Start(bucket) <= row < Start(bucket) + Len(bucket)) ==>
                written_[row] == map_[row]
    {
      written_ := WritePieces(map_);
      BlockPieces(map_);
    }

    lemma BlockPieces(map_: seq<nat>)
      requires Collected() && bucket < buckets && |map_| == records
      requires Slots(Expected(bucket), Start(bucket), Len(bucket), ranks)
      requires Start(bucket) + Len(bucket) <= records && Len(bucket) <= |ranks|
      ensures var base, len := Start(bucket), Len(bucket);
              var map' := Overwrite(map_, base, ranks[..len]);
              && (forall row :: base <= row < base + len ==> Pair(row, map'[row]) in Expected(bucket))
              && BlockFilled(bucket, map')
              && (forall row :: 0 <= row < records && !(base <= row < base + len) ==> map'[row] == map_[row])
    {
      hide InBucket, CeilDiv, Start, Len, Slots, Expected;
      var base, len := Start(bucket), Len(bucket);
      var map' := Overwrite(map_, base, ranks[..len]);
      forall row: nat | base <= row < base + len
        ensures RowFilled(map', row) && Pair(row, map'[row]) in Expected(bucket)
      {
        SlotsFilled(row);
        assert map'[row] == ranks[row - base];
      }
    }

    method WritePieces(map_: seq<nat>) returns (written_: seq<nat>)
      requires |map_| == records && Len(bucket) <= |ranks| && Start(bucket) + Len(bucket) <= records
      ensures written_ == Overwrite(map_, Start(bucket), ranks[..Len(bucket)])
    {
      hide InBucket, CeilDiv, InRange, Start, Len;
      var base, rows := Start(bucket), Len(bucket);
      written_ := map_;
      var done := 0;
      while done < rows
        invariant done <= rows && |written_| == |map_|
        invariant written_ == Overwrite(map_, base, ranks[..done])
      {
        var take := Min(rows - done, CHUNK_RANKS);
        ghost var before := written_;
        written_ := Overwrite(written_, base + done, ranks[done..done + take]);
        OverwriteTwice(map_, base, ranks[..done], ranks[done..done + take]);
        assert ranks[..done] + ranks[done..done + take] == ranks[..done + take];
        done := done + take;
      }
    }

    /** A full block of distinct rows, written out, is done; earlier blocks
        stay done. */
    lemma BlockWritten(map_: seq<nat>)
      requires Collected() && bucket < buckets && |map_| == records
      requires forall b :: 0 <= b < bucket ==> BlockDone(b, map_)
      requires Slots(Expected(bucket), Start(bucket), Len(bucket), ranks)
      ensures Start(bucket) + Len(bucket) <= records && Len(bucket) <= |ranks|
      ensures var map' := Overwrite(map_, Start(bucket), ranks[..Len(bucket)]);
              forall b :: 0 <= b <= bucket ==> BlockDone(b, map')
    {
      hide InBucket, CeilDiv, Start, Len, Distinct;
      LenBounds(bucket);
      var base, len := Start(bucket), Len(bucket);
      var map' := Overwrite(map_, base, ranks[..len]);
      forall b | 0 <= b <= bucket
        ensures BlockDone(b, map')
      {
        if b < bucket {
          EarlierBlockKept(map_, b, ranks[..len]);
        } else {
          forall k | 0 <= k < |Expected(b)|
            ensures Expected(b)[k].row < |map'| && map'[Expected(b)[k].row] == Expected(b)[k].rank
          {
            ExpectedInBlock(b, k);
            assert map'[Expected(b)[k].row] == ranks[Expected(b)[k].row - base];
          }
        }
      }
    }

    lemma StartsOrdered(b: nat, c: nat)
      requires b < c
      ensures Start(b) + Len(b) <= Start(c)
    {
      BlocksApart(bucketRows, b, c);
    }

    /** Earlier blocks stay done while this one is written. */
    lemma EarlierBlockKept(map_: seq<nat>, b: nat, data: seq<nat>)
      requires Collected() && b < bucket < buckets && |map_| == records && BlockDone(b, map_)
      requires |data| <= Len(bucket)
      ensures Start(bucket) + Len(bucket) <= records
      ensures BlockDone(b, Overwrite(map_, Start(bucket), data))
    {
      hide InBucket, CeilDiv, Start, Len, Distinct;
      LenBounds(bucket);
      var map' := Overwrite(map_, Start(bucket), data);
      forall k | 0 <= k < |Expected(b)|
        ensures Expected(b)[k].row < |map'| && map'[Expected(b)[k].row] == Expected(b)[k].rank
      {
        ExpectedInBlock(b, k);
        RegionsApart(b, bucket);
        StartsOrdered(b, bucket);
        assert map'[Expected(b)[k].row] == map_[Expected(b)[k].row];
      }
    }

    /** Half a block written leaves the map as good as before. */
    lemma HalfBlock(map_: seq<nat>, data: seq<nat>)
      requires Placing(map_) && bucket < buckets && |data| <= Len(bucket)
      ensures Start(bucket) + Len(bucket) <= records
      ensures Placing(Overwrite(map_, Start(bucket), data))
    {
      hide Collected, BlockDone, Slots, Start, Len, CeilDiv;
      BlockFits();
      forall b | 0 <= b < bucket
        ensures BlockDone(b, Overwrite(map_, Start(bucket), data))
      {
        EarlierBlockKept(map_, b, data);
      }
    }

    lemma BlockFits()
      requires Collected() && bucket < buckets
      ensures Start(bucket) + Len(bucket) <= records && Len(bucket) > 0 && Len(bucket) <= |ranks| && bucketRows > 0
    {
      hide InBucket;
      LenBounds(bucket);
    }

    /** Moves on in the bucket at hand, and to the next once its block of the map
        is written. Only a second rank for a row is refused, and the map is
        complete exactly when every row has its rank. A failed read or write
        can be done again. */
    method Place(map_: seq<nat>, budget: nat, fault: Option<PlaceFault>)
      returns (r: Result<bool>, map': seq<nat>, left: nat)
      requires Placing(map_)
      modifies this`ranks, this`bucket, this`read
      ensures left <= budget
      ensures r.Ok? ==> Placing(map') && (r.value <==> bucket == buckets)
      ensures r.Ok? && !r.value ==>
                && old(bucket) < buckets
                && (bucket > old(bucket) || (bucket == old(bucket) && read > old(read)))
      ensures r.Ok? && r.value ==> IsInverse(map')
      ensures r.Ok? ==> forall b :: 0 <= b < bucket ==> BlockFilled(b, map')
      ensures r == Err(InvalidScratch) ==> !Distinct(pushed)
      ensures r == Err(ScratchIo) ==> fault.Some? && Placing(map') && bucket == old(bucket)
      ensures r.Err? ==> r.error == InvalidScratch || r.error == ScratchIo
    {
      hide InBucket, CeilDiv, Distinct, InRange, Start, Len, Slots, BlockFilled, BlockDone;
      map', left := map_, budget;
      if bucket == buckets {
        AllBlocksDone(map_);
        DoneAreFilled(map_);
        return Ok(true), map_, left;
      }
      LenBounds(bucket);
      var len := Len(bucket);
      var count := Min(len - read, CHUNK_PAIRS);
      if read == 0 {
        ranks := seq(len, _ => U64_MAX) + ranks[len..];
        EmptySlots(Start(bucket), len, ranks);
        assert Expected(bucket)[..0] == [];
      }
      if fault == Some(Unread) && count > 0 {
        return Err(ScratchIo), map_, left;
      }
      var ok := PlacePairs(read, read + count);
      if !ok {
        return Err(InvalidScratch), map_, left;
      }
      read := read + count;
      left := if budget > 16 * count then budget - 16 * count else 0;
      if read == len && fault.Some? && fault.value.HalfWritten? && fault.value.ranks < len {
        HalfBlock(map_, ranks[..fault.value.ranks]);
        return Err(ScratchIo), Overwrite(map_, Start(bucket), ranks[..fault.value.ranks]), left;
      }
      if read == len {
        map' := NextBlock(map_);
      }
      if bucket == buckets {
        AllBlocksDone(map');
      }
      DoneAreFilled(map');
      r := Ok(bucket == buckets);
    }

    /** Writes the block out and turns to the next bucket. */
    method NextBlock(map_: seq<nat>) returns (map': seq<nat>)
      requires Placing(map_) && bucket < buckets && read == Len(bucket) > 0
      modifies this`bucket, this`read
      ensures Placing(map') && bucket == old(bucket) + 1 && read == 0
    {
      hide InBucket, CeilDiv, Distinct, InRange, Start, Len, Slots, BlockFilled, BlockDone;
      assert Expected(bucket)[..read] == Expected(bucket);
      BlockWritten(map_);
      map' := WriteBlock(map_);
      bucket, read := bucket + 1, 0;
    }

    lemma DoneAreFilled(map_: seq<nat>)
      requires Placing(map_)
      ensures forall b :: 0 <= b < bucket ==> BlockFilled(b, map_)
    {
      hide Collected, BlockDone, BlockFilled, Slots, Start, Len;
      forall b | 0 <= b < bucket
        ensures BlockFilled(b, map_)
      {
        DoneIsFilled(b, map_);
      }
    }

    /** Every pushed row maps to its rank, and every row was pushed once. */
    ghost predicate IsInverse(map_: seq<nat>)
      reads this`pushed
    {
      && |map_| == records && Distinct(pushed) && |pushed| == records
      && (forall i :: 0 <= i < |pushed| ==> pushed[i].row < records && map_[pushed[i].row] == pushed[i].rank)
      && (forall row :: 0 <= row < records ==> map_[row] < records)
    }

    lemma NoOtherBuckets(b: nat)
      requires Shaped() && b >= buckets
      ensures Expected(b) == []
    {
      if Expected(b) != [] {
        BucketHolds(pushed, bucketRows, b, 0);
        var p := Expected(b)[0];
        var k :| 0 <= k < |pushed| && pushed[k] == p;
        RowBlock(p.row, bucketRows, b);
        BlockStart(records, bucketRows, b);
      }
    }

    /** Every row of the map was pushed. */
    lemma EveryRowPushed(map_: seq<nat>, row: nat)
      requires Collected() && row < records && forall b :: 0 <= b < buckets ==> BlockDone(b, map_)
      ensures row in Rows(pushed)
    {
      hide InBucket, CeilDiv, Start, Len;
      var b := row / bucketRows;
      RowBlock(row, bucketRows, b);
      BlockStart(records, bucketRows, b);
      LenBounds(b);
      BlockOfRow(row, b);
      assert BlockDone(b, map_);
      forall i | 0 <= i < |Expected(b)|
        ensures Start(b) <= Expected(b)[i].row < Start(b) + Len(b)
      {
        ExpectedInBlock(b, i);
      }
      Pigeonhole(Expected(b), Start(b), Len(b));
      var k := RowFound(Expected(b), row);
      BucketHolds(pushed, bucketRows, b, k);
      var i :| 0 <= i < |pushed| && pushed[i] == Expected(b)[k];
      RowAt(pushed, i);
    }

    lemma BlockOfRow(row: nat, b: nat)
      requires 0 < bucketRows && row < records && b == row / bucketRows
      ensures Start(b) <= row < Start(b) + Len(b)
    {
      RowBlock(row, bucketRows, b);
    }

    lemma AllBlocksDone(map_: seq<nat>)
      requires Placing(map_) && bucket == buckets
      ensures IsInverse(map_)
    {
      hide InBucket, CeilDiv, Start, Len, Slots;
      forall b: nat
        ensures Distinct(InBucket(pushed, bucketRows, b))
      {
        if b < buckets {
          assert BlockDone(b, map_);
        } else {
          NoOtherBuckets(b);
        }
      }
      DistinctFromBuckets(pushed, bucketRows);
      forall i | 0 <= i < |pushed|
        ensures pushed[i].row < records && map_[pushed[i].row] == pushed[i].rank
      {
        var k := BucketFinds(pushed, bucketRows, i);
        RowBlock(pushed[i].row, bucketRows, pushed[i].row / bucketRows);
        BlockStart(records, bucketRows, pushed[i].row / bucketRows);
        assert BlockDone(pushed[i].row / bucketRows, map_);
      }
      forall r | r in Block(0, records)
        ensures r in Rows(pushed)
      {
        EveryRowPushed(map_, r);
      }
      RowsSize(pushed);
      Pigeonhole(pushed, 0, records);
      SubsetSize(Block(0, records), Rows(pushed));
      forall row | 0 <= row < records
        ensures map_[row] < records
      {
        var i := RowFound(pushed, row);
      }
    }

    lemma RanksBelow(b: nat, k: nat)
      requires Shaped() && b < buckets && k <= |Expected(b)|
      ensures forall i :: 0 <= i < k ==> Expected(b)[..k][i].rank < U64_MAX
    {
      forall i | 0 <= i < k
        ensures Expected(b)[..k][i].rank < U64_MAX
      {
        ExpectedInBlock(b, i);
      }
    }
  }

  lemma EmptySlots(base: nat, len: nat, ranks: seq<nat>)
    requires len <= |ranks| && forall s :: 0 <= s < len ==> ranks[s] == U64_MAX
    ensures Slots([], base, len, ranks)
  {}

  lemma OverwriteTwice<T>(file: seq<T>, at: nat, a: seq<T>, b: seq<T>)
    requires at + |a| + |b| <= |file|
    ensures Overwrite(Overwrite(file, at, a), at + |a|, b) == Overwrite(file, at, a + b)
  {}

  lemma SlotsLength(region: seq<Pair>, base: nat, len: nat, ranks: seq<nat>)
    requires Slots(region, base, len, ranks)
    ensures len <= |ranks|
  {}

  lemma DistinctPrefix(ps: seq<Pair>, k: nat)
    requires Distinct(ps) && k <= |ps|
    ensures Distinct(ps[..k])
  {}

  // ------------------------------------------------------------------ whole run

  /** Every row below `n` is ranked once, with ranks below `n`. */
  ghost predicate RanksEveryRow(ps: seq<Pair>, n: nat) {
    InRange(ps, n) && Distinct(ps) && |ps| == n
  }

  /** A whole run, for any bucket and buffer sizes: it succeeds exactly when
      every row is ranked once, and then the map holds each row's rank. */
  method BuildMap(records: nat, bucketRows: nat, bufferPairs: nat, ps: seq<Pair>) returns (r: Option<seq<nat>>)
    requires 0 < bucketRows && 0 < bufferPairs && records <= U64_MAX
    ensures r.Some? <==> RanksEveryRow(ps, records)
    ensures r.Some? ==>
              && |r.value| == records
              && (forall i :: 0 <= i < |ps| ==> ps[i].row < records && r.value[ps[i].row] == ps[i].rank)
              && (forall row :: 0 <= row < records ==> r.value[row] < records)
  {
    hide InverseBuilder.Collecting, InverseBuilder.Collected, InverseBuilder.Placing, Distinct, InRange;
    var builder := new InverseBuilder(records, bucketRows, bufferPairs);
    for i := 0 to |ps|
      invariant fresh(builder) && builder.records == records
      invariant builder.Collecting() && builder.pushed == ps[..i]
    {
      assert ps[..i] + [ps[i]] == ps[..i + 1];
      var ok := builder.Push(ps[i].row, ps[i].rank, false);
      if ok.Err? {
        NotEveryRow(ps, records, i);
        return None;
      }
    }
    assert ps[..|ps|] == ps;
    CollectingInRange(builder);
    BuilderEmpty(builder);
    var ok := builder.FinishCollecting(None);
    if ok.Err? {
      return None;
    }
    r := PlaceAll(builder);
  }

  lemma BuilderEmpty(b: InverseBuilder)
    requires b.Collecting()
    ensures b.bucket == 0 && b.read == 0
  {}

  lemma CollectingInRange(b: InverseBuilder)
    requires b.Collecting()
    ensures InRange(b.pushed, b.records)
  {}

  lemma NotEveryRow(ps: seq<Pair>, n: nat, i: nat)
    requires i < |ps| && (ps[i].row >= n || ps[i].rank >= n || !Distinct(ps[..i + 1]))
    ensures !RanksEveryRow(ps, n)
  {}

  method PlaceAll(builder: InverseBuilder) returns (r: Option<seq<nat>>)
    requires builder.Collected() && builder.bucket == builder.read == 0
    modifies builder`ranks, builder`bucket, builder`read
    ensures r.None? ==> !Distinct(builder.pushed)
    ensures r.Some? ==> builder.IsInverse(r.value)
  {
    hide InverseBuilder.Collected, InverseBuilder.Placing, Distinct;
    var map_ := seq(builder.records, _ => 0);
    StartPlacing(builder, map_);
    while true
      invariant builder.Placing(map_) && builder.read <= builder.records && builder.bucket <= builder.buckets
      decreases builder.buckets - builder.bucket, builder.records - builder.read
    {
      var done, next, _ := builder.Place(map_, 0, None);
      if done.Err? {
        return None;
      }
      if done.value {
        return Some(next);
      }
      map_ := next;
      PlacingBounds(builder, map_);
    }
  }

  lemma StartPlacing(b: InverseBuilder, map_: seq<nat>)
    requires b.Collected() && b.bucket == b.read == 0 && |map_| == b.records
    ensures b.Placing(map_)
  {
    hide InverseBuilder.Collected;
  }

  lemma PlacingBounds(b: InverseBuilder, map_: seq<nat>)
    requires b.Placing(map_)
    ensures b.read <= b.records && b.bucket <= b.buckets
  {
    hide InverseBuilder.Collected, Slots;
  }
}
