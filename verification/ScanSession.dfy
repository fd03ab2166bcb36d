/** The incremental scan of a whole source, which counts records and fills the
    index as it goes. */
module ScanSession {
  import opened Prelude
  import opened Records
  import opened Scanner
  import opened Index

  datatype StepStatus = Progress | Complete | Cancelled

  datatype ScanStep = ScanStep(processed: nat, discovered: nat, status: StepStatus)

  /** Where the records start. */
  ghost function Starts(spans: seq<Span>): (r: seq<nat>)
    ensures |r| == |spans|
  {
    seq(|spans|, i requires 0 <= i < |spans| => spans[i].start)
  }

  /** Record starts rise from zero; rows stay below the last 64-bit number. */
  lemma StartsRise(f: Format, src: Source, row: nat)
    requires row < |AllRecords(f, src)|
    ensures row < U64_MAX && row <= AllRecords(f, src)[row].start
    ensures row == 0 ==> AllRecords(f, src)[row].start == 0
    ensures row > 0 ==> AllRecords(f, src)[row - 1].start < AllRecords(f, src)[row].start
  {
    RestartAt(f, src, 0, row);
    if row > 0 {
      RestartAt(f, src, 0, row - 1);
    }
  }

  class ScanSession {
    const src: Source
    const format: Format
    const index: AdaptiveIndex
    const initialStride: nat
    const bufferBytes: nat
    const checkEvery: nat
    var scanner: BoundaryScanner?
    var recordCount: nat
    var diagnostic: Option<Diagnostic>
    var sourceFailed: bool

    ghost function All(): seq<Span> {
      AllRecords(format, src)
    }

    ghost predicate ScanOk(row: nat)
      reads this`scanner, this`diagnostic, scanner
    {
      && row <= |All()|
      && if scanner == null then row == |All()| && diagnostic == DiagnosticFrom(format, src, 0)
         else
           && scanner.format == format && scanner.Valid(src)
           && scanner.Unread(src) == All()[row..]
           && diagnostic.None?
           && DiagnosticFrom(format, src, scanner.recordStart) == DiagnosticFrom(format, src, 0)
    }

    /** The index samples exactly the records counted so far, and its stride is
        no more than their number asks for. */
    ghost predicate IndexOk(rows: nat)
      reads index
    {
      && index.Valid() && index.cadence == Rows && rows <= |All()|
      && Samples(Sample(index.entries, index.stride), Starts(All()[..rows]))
      && index.lastObserved == (if rows == 0 then Checkpoint(0, 0) else Checkpoint(rows - 1, All()[rows - 1].start))
      && (index.stride <= initialStride || index.stride * (index.capacityLimit - 1) <= 2 * (rows - 1))
    }

    ghost predicate Valid()
      reads this, scanner, index
    {
      bufferBytes > 0 && checkEvery > 0 && ScanOk(recordCount) && IndexOk(recordCount)
    }

    ghost function Scanned(): nat
      reads this`scanner, scanner
    {
      if scanner == null then |src| else scanner.offset
    }

    constructor (src: Source, format: Format, index: AdaptiveIndex, bufferBytes: nat, checkEvery: nat)
      requires index.Valid() && index.cadence == Rows && bufferBytes > 0 && checkEvery > 0
      requires index.entries == [Checkpoint(0, 0)] && index.lastObserved == Checkpoint(0, 0)
      ensures Valid() && fresh(scanner) && recordCount == 0 && !sourceFailed
      ensures this.src == src && this.format == format && this.index == index && initialStride == index.stride
    {
      this.src, this.format, this.index, initialStride := src, format, index, index.stride;
      this.bufferBytes, this.checkEvery := bufferBytes, checkEvery;
      scanner := new BoundaryScanner(format, 0, src);
      recordCount, diagnostic, sourceFailed := 0, None, false;
    }

    /** Counts a record and shows its start to the index, which never refuses
        it. */
    method ObserveRecord(span: Span)
      requires IndexOk(recordCount) && recordCount < |All()| && span == All()[recordCount]
      modifies this`recordCount, index
      ensures IndexOk(recordCount) && recordCount == old(recordCount) + 1
    {
      hide AllRecords, AdaptiveIndex.Valid, Samples, Starts;
      StartsRise(format, src, recordCount);
      ghost var was, starts := Sample(index.entries, index.stride), Starts(All()[..recordCount]);
      ObserveSamples(was, recordCount);
      var seen := index.Observe(Checkpoint(recordCount, span.start));
      assert seen.Ok?;
      recordCount := recordCount + 1;
    }

    /** What the index becomes still samples the records counted. */
    lemma ObserveSamples(was: Sample, row: nat)
      requires IndexOk(row) && row < |All()| && was == Sample(index.entries, index.stride)
      ensures row == 0 ==> Samples(was, Starts(All()[..1])) && All()[0].start == 0
      ensures row > 0 ==>
                && var thinned := Thinned(was, index.capacityLimit);
                && var next := Added(thinned, Rows, Checkpoint(row, All()[row].start));
                && Samples(next, Starts(All()[..row + 1]))
                && (next.stride == was.stride || next.stride * (index.capacityLimit - 1) <= 2 * (row - 1))
    {
      hide AllRecords, Thinned, Added;
      StartsRise(format, src, row);
      var starts, offset := Starts(All()[..row]), All()[row].start;
      assert All()[..row + 1] == All()[..row] + [All()[row]];
      assert Starts(All()[..row + 1]) == starts + [offset];
      if row == 0 {
        assert EntryOk(was.entries[0], 0 * was.stride, [0]);
      } else {
        ThinnedSamples(was, index.capacityLimit, starts);
        AddedSamples(Thinned(was, index.capacityLimit), starts, offset);
      }
    }

    /** Counts the records a chunk completed, in order. */
    method ObserveAll(spans: seq<Span>)
      requires IndexOk(recordCount) && recordCount + |spans| <= |All()|
      requires spans == All()[recordCount..recordCount + |spans|]
      modifies this`recordCount, index
      ensures IndexOk(recordCount) && recordCount == old(recordCount) + |spans|
    {
      hide AllRecords, IndexOk;
      for i := 0 to |spans|
        invariant IndexOk(recordCount) && recordCount == old(recordCount) + i
      {
        assert spans[i] == All()[recordCount];
        ObserveRecord(spans[i]);
      }
    }

    /** A changed source is remembered; every later step fails. */
    method EnsureUnchanged(calm: bool) returns (r: Result<()>)
      modifies this`sourceFailed
      ensures r.Ok? <==> !sourceFailed
      ensures old(sourceFailed) ==> sourceFailed
      ensures sourceFailed ==> old(sourceFailed) || !calm
    {
      if sourceFailed {
        return Err(SourceChanged);
      }
      var changed := Disturbed(calm);
      sourceFailed := changed;
      r := if changed then Err(SourceChanged) else Ok(());
    }

    /** Ends the scan: the last record and the end-of-input diagnostic. */
    method Finalize()
      requires Valid() && scanner != null && scanner.offset == |src|
      modifies this`scanner, this`recordCount, this`diagnostic, scanner, index
      ensures Valid() && scanner == null && recordCount >= old(recordCount)
    {
      hide AllRecords, IndexOk, DiagnosticFrom, RecordsFrom, BoundaryScanner.Valid;
      ghost var rest := All()[recordCount..];
      var span;
      span, diagnostic := scanner.Finish(src);
      assert rest == AsSeq(span);
      assert rest == All()[recordCount..recordCount + |rest|];
      scanner := null;
      ObserveAll(AsSeq(span));
    }

    /** Feeds a chunk and counts what it completes. */
    method FeedChunk(chunk: seq<byte>, calm: bool) returns (consumed: nat, status: ScanStatus)
      requires Valid() && scanner != null
      requires scanner.offset + |chunk| <= |src| && chunk == src[scanner.offset..scanner.offset + |chunk|]
      modifies this`recordCount, scanner, index
      ensures Valid() && consumed <= |chunk| && scanner.offset == old(scanner.offset) + consumed
      ensures recordCount >= old(recordCount)
      ensures status == ScanStatus.Complete ==> consumed == |chunk|
      ensures status != ScanStatus.Stopped && (status == ScanStatus.Cancelled ==> !calm)
    {
      hide AllRecords, IndexOk, DiagnosticFrom, RecordsFrom, BoundaryScanner.Valid;
      ghost var rest := All()[recordCount..];
      var spans;
      consumed, status, spans := scanner.Feed(src, chunk, Some(checkEvery), None, calm);
      ghost var n := recordCount + |spans|;
      assert rest[..|spans|] == spans && rest[|spans|..] == scanner.Unread(src);
      assert rest[..|spans|] == All()[recordCount..n] && rest[|spans|..] == All()[n..];
      ObserveAll(spans);
    }

    /** Scans at most `quantum` bytes. Whatever happens, the index stays exact
        for the records counted; a step that makes progress consumes bytes. A
        calm step makes progress or completes the scan. */
    method Step(quantum: nat, calm: bool) returns (r: Result<ScanStep>)
      requires Valid()
      modifies this, scanner, index
      ensures Valid() && (scanner == old(scanner) || scanner == null)
      ensures quantum == 0 ==> r == Err(ZeroWork)
      ensures old(sourceFailed) ==> sourceFailed && (r.Err? || r.value.status == StepStatus.Cancelled)
      ensures r.Ok? ==>
                && r.value.processed <= quantum && Scanned() == old(Scanned()) + r.value.processed
                && recordCount == old(recordCount) + r.value.discovered
                && (r.value.status == Progress ==> r.value.processed > 0 && scanner != null)
                && (r.value.status == StepStatus.Complete ==> scanner == null)
      ensures calm && quantum > 0 && !old(sourceFailed) ==>
                !sourceFailed && r.Ok? && r.value.status != StepStatus.Cancelled
    {
      hide Valid;
      if quantum == 0 {
        return Err(ZeroWork);
      }
      var cancelled := Disturbed(calm);
      if cancelled {
        return Ok(ScanStep(0, 0, StepStatus.Cancelled));
      }
      var checked := Recheck(calm);
      if checked.Err? {
        return Err(SourceChanged);
      }
      if scanner == null {
        return Ok(ScanStep(0, 0, StepStatus.Complete));
      }
      ScannerInside();
      var before := recordCount;
      if scanner.offset == |src| {
        Finalize();
        return Ok(ScanStep(0, recordCount - before, StepStatus.Complete));
      }
      r := ReadOn(quantum, calm);
    }

    /** Calm steps end, with every record counted. */
    method Run(quantum: nat, calm: bool) returns (r: Result<ScanStep>)
      requires Valid() && quantum > 0
      modifies this, scanner, index
      ensures Valid() && (scanner == old(scanner) || scanner == null)
      ensures r.Ok? ==> r.value.status != Progress
      ensures calm && !old(sourceFailed) ==>
                && r.Ok? && r.value.status == StepStatus.Complete
                && recordCount == |AllRecords(format, src)| && diagnostic == DiagnosticFrom(format, src, 0)
      decreases |src| - Scanned()
    {
      hide Valid, AllRecords, DiagnosticFrom;
      r := Step(quantum, calm);
      ScannedInside();
      if r.Ok? && r.value.status == Progress {
        r := Run(quantum, calm);
      } else if r.Ok? && r.value.status == StepStatus.Complete {
        FinishedScanIsWhole();
      }
    }

    lemma ScannedInside()
      requires Valid()
      ensures Scanned() <= |src|
    {
      hide AllRecords, IndexOk, DiagnosticFrom, RecordsFrom, ScanRecord;
    }

    method Recheck(calm: bool) returns (r: Result<()>)
      requires Valid()
      modifies this`sourceFailed
      ensures Valid() && (r.Ok? <==> !sourceFailed) && (old(sourceFailed) ==> sourceFailed)
      ensures sourceFailed ==> old(sourceFailed) || !calm
    {
      hide AllRecords, ScanOk, IndexOk;
      r := EnsureUnchanged(calm);
    }

    lemma ScannerInside()
      requires Valid() && scanner != null
      ensures scanner.offset <= |src| && bufferBytes > 0
    {}

    method ReadOn(quantum: nat, calm: bool) returns (r: Result<ScanStep>)
      requires Valid() && scanner != null && scanner.offset < |src| && quantum > 0 && !sourceFailed
      modifies this, scanner, index
      ensures Valid() && (scanner == old(scanner) || scanner == null)
      ensures r.Ok? ==>
                && r.value.processed <= quantum && Scanned() == old(Scanned()) + r.value.processed
                && recordCount == old(recordCount) + r.value.discovered
                && (r.value.status == Progress ==> r.value.processed > 0 && scanner != null)
                && (r.value.status == StepStatus.Complete ==> scanner == null)
      ensures calm ==> !sourceFailed && r.Ok? && r.value.status != StepStatus.Cancelled
    {
      hide Valid;
      ScannerInside();
      var before := recordCount;
      var chunk := ReadAt(src, scanner.offset, Min(|src| - scanner.offset, Min(quantum, bufferBytes)), calm);
      if chunk.Err? {
        return Err(chunk.error);
      }
      var checked := Recheck(calm);
      if checked.Err? {
        return Err(SourceChanged);
      }
      var consumed, status := FeedChunk(chunk.value, calm);
      if status == ScanStatus.Cancelled {
        return Ok(ScanStep(consumed, recordCount - before, StepStatus.Cancelled));
      }
      if scanner.offset == |src| {
        checked := Recheck(calm);
        if checked.Err? {
          return Err(SourceChanged);
        }
        Finalize();
        return Ok(ScanStep(consumed, recordCount - before, StepStatus.Complete));
      }
      r := Ok(ScanStep(consumed, recordCount - before, Progress));
    }

    /** At any moment a lookup lands on a record that was counted, less than a
        stride before the row asked for. */
    lemma LookupIsExact(row: nat)
      requires Valid() && row < recordCount
      ensures var c := index.Nearest(row);
              && c.row <= row < c.row + index.stride && c.row < |All()| && c.offset == All()[c.row].start
      ensures |index.entries| <= index.capacityLimit
      ensures index.stride <= Max(initialStride, 2 * (recordCount - 1) / (index.capacityLimit - 1))
    {
      hide AllRecords;
      NearestIsClose(index, Starts(All()[..recordCount]), row);
      if index.stride > initialStride {
        QuotientAtLeast(index.stride, index.capacityLimit - 1, 2 * (recordCount - 1));
      }
    }

    /** The index holds exactly the counted rows its stride divides. */
    lemma IndexIsExact(row: nat)
      requires Valid() && row < recordCount
      ensures recordCount <= |All()|
      ensures Checkpoint(row, All()[row].start) in index.entries <==> row % index.stride == 0
      ensures forall e :: e in index.entries ==> e.row < recordCount && e.offset == All()[e.row].start
    {
      hide AllRecords, Samples;
      SampledRows(Sample(index.entries, index.stride), Starts(All()[..recordCount]), row);
    }

    /** A finished scan has counted every record. */
    lemma FinishedScanIsWhole()
      requires Valid() && scanner == null
      ensures recordCount == |AllRecords(format, src)| && diagnostic == DiagnosticFrom(format, src, 0)
    {}
  }

  lemma QuotientAtLeast(s: nat, d: nat, n: nat)
    requires d > 0 && s * d <= n
    ensures s <= n / d
  {
    if n / d + 1 <= s {
      Monotone(n / d + 1, s, d);
    }
  }

  /** Opens a scan, unless its limits make no sense. */
  method Open(src: Source, format: Format, indexCapacity: nat, initialStride: nat, bufferBytes: nat, checkEvery: nat,
              calm: bool)
    returns (r: Result<ScanSession>)
    requires initialStride <= U64_MAX
    ensures r.Ok? ==>
              && fresh(r.value) && fresh(r.value.index) && fresh(r.value.scanner) && r.value.Valid()
              && r.value.src == src && r.value.format == format && r.value.recordCount == 0 && !r.value.sourceFailed
              && r.value.initialStride == initialStride && r.value.index.capacityLimit == indexCapacity
    ensures r == Err(InvalidConfig) <==>
            bufferBytes == 0 || checkEvery == 0 || indexCapacity < 2 || initialStride == 0
    ensures calm && r.Err? ==> r.error == InvalidConfig
  {
    if bufferBytes == 0 || checkEvery == 0 {
      return Err(InvalidConfig);
    }
    var index := NewIndex(indexCapacity, initialStride, Rows, calm);
    if index.Err? {
      return Err(index.error);
    }
    var session := new ScanSession(src, format, index.value, bufferBytes, checkEvery);
    r := Ok(session);
  }
}
