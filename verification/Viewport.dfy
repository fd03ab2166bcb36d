/** Reconstructing a window of rows from a checkpoint, and copying a bounded
    preview of each. */
module Viewport {
  import opened Prelude
  import opened Records
  import opened Scanner
  import opened Index
  import ScanSession

  datatype Limits = Limits(records: nat, bufferBytes: nat, checkEvery: nat, perRecord: nat, payload: nat)

  datatype RowSpan = RowSpan(row: nat, span: Span)

  datatype RecordPreview = RecordPreview(row: nat, span: Span, bytes: seq<byte>, truncated: bool)

  datatype View = View(records: seq<RecordPreview>, reachedEof: bool, diagnostic: Option<Diagnostic>)

  /** A checkpoint names the origin or a record's own start. */
  ghost predicate Boundary(f: Format, src: Source, c: Checkpoint) {
    || c == Checkpoint(0, 0)
    || (c.row < |AllRecords(f, src)| && c.offset == AllRecords(f, src)[c.row].start)
  }

  /** Rows `from` to `to` of the whole scan, numbered. */
  ghost function Window(f: Format, src: Source, from: nat, to: nat): (w: seq<RowSpan>)
    requires to <= |AllRecords(f, src)|
    ensures |w| == Sub(to, from)
  {
    seq(Sub(to, from), i requires 0 <= i < Sub(to, from) => RowSpan(from + i, AllRecords(f, src)[from + i]))
  }

  lemma WindowGrows(f: Format, src: Source, from: nat, to: nat)
    requires to < |AllRecords(f, src)|
    ensures Window(f, src, from, to + 1) ==
            Window(f, src, from, to) + if to >= from then [RowSpan(to, AllRecords(f, src)[to])] else []
  {
    hide AllRecords;
  }

  // ---------------------------------------------------------------- collecting

  /** Numbers the records it is shown and keeps those from `firstRow` on. */
  class SpanCollector {
    const firstRow: nat
    const limit: nat
    var nextRow: nat
    var spans: seq<RowSpan>

    /** It has kept exactly the window up to the next row. */
    ghost predicate Valid(f: Format, src: Source)
      reads this
    {
      nextRow <= |AllRecords(f, src)| && spans == Window(f, src, firstRow, nextRow) && |spans| <= limit
    }

    constructor (firstRow: nat, limit: nat, nextRow: nat, ghost f: Format, ghost src: Source)
      requires nextRow <= firstRow && nextRow <= |AllRecords(f, src)|
      ensures Valid(f, src) && this.firstRow == firstRow && this.limit == limit && this.nextRow == nextRow
      ensures spans == []
    {
      this.firstRow, this.limit, this.nextRow, spans := firstRow, limit, nextRow, [];
    }

    /** Asks to stop when the window is full. */
    method Accept(span: Span, ghost f: Format, ghost src: Source) returns (stop: bool)
      requires Valid(f, src) && |spans| < limit
      requires nextRow < |AllRecords(f, src)| && span == AllRecords(f, src)[nextRow]
      modifies this`nextRow, this`spans
      ensures Valid(f, src) && nextRow == old(nextRow) + 1
      ensures stop <==> |spans| == limit
    {
      hide AllRecords, Window;
      WindowGrows(f, src, firstRow, nextRow);
      var row := nextRow;
      nextRow := nextRow + 1;
      if row >= firstRow {
        spans := spans + [RowSpan(row, span)];
      }
      stop := |spans| == limit;
    }

    /** How many more records it would take. */
    function Wanted(): nat
      reads this
    {
      Sub(firstRow, nextRow) + Sub(limit, |spans|)
    }

    lemma WantedIsLeft(f: Format, src: Source)
      requires Valid(f, src) && limit > 0
      ensures |spans| < limit <==> nextRow < firstRow + limit
      ensures |spans| < limit ==> Wanted() == firstRow + limit - nextRow
      ensures |spans| == limit ==> nextRow == firstRow + limit
    {}

    /** Takes the records one chunk completed. */
    method AcceptAll(found: seq<Span>, ghost f: Format, ghost src: Source)
      requires Valid(f, src) && limit > 0 && |found| <= Wanted() && |spans| < limit
      requires nextRow + |found| <= |AllRecords(f, src)| && found == AllRecords(f, src)[nextRow..nextRow + |found|]
      modifies this`nextRow, this`spans
      ensures Valid(f, src) && nextRow == old(nextRow) + |found|
    {
      hide AllRecords, Window, Wanted;
      WantedIsLeft(f, src);
      for i := 0 to |found|
        invariant Valid(f, src) && nextRow == old(nextRow) + i
      {
        WantedIsLeft(f, src);
        assert found[i] == AllRecords(f, src)[nextRow];
        var _ := Accept(found[i], f, src);
      }
    }
  }

  /** The scanner and the collector stand at the same row. */
  ghost predicate InStep(f: Format, src: Source, scanner: BoundaryScanner, collector: SpanCollector)
    reads scanner, collector
  {
    && scanner.format == f && scanner.Valid(src) && collector.Valid(f, src) && collector.limit > 0
    && scanner.Unread(src) == AllRecords(f, src)[collector.nextRow..]
    && DiagnosticFrom(f, src, scanner.recordStart) == DiagnosticFrom(f, src, 0)
    && (|collector.spans| == collector.limit ==> scanner.recordStart == scanner.offset)
  }

  /** A scan started at a checkpoint is the whole scan from that row on. */
  lemma StartsInStep(f: Format, src: Source, c: Checkpoint)
    requires Boundary(f, src, c)
    ensures c.row <= |AllRecords(f, src)| && c.offset <= |src|
    ensures RecordsFrom(f, src, c.offset) == AllRecords(f, src)[c.row..]
    ensures DiagnosticFrom(f, src, c.offset) == DiagnosticFrom(f, src, 0)
  {
    if c != Checkpoint(0, 0) {
      RestartAt(f, src, 0, c.row);
    }
  }

  method FeedCollector(f: Format, ghost src: Source, scanner: BoundaryScanner, chunk: seq<byte>, checkEvery: nat,
                       collector: SpanCollector, calm: bool)
    returns (status: ScanStatus)
    requires InStep(f, src, scanner, collector) && |collector.spans| < collector.limit && 0 < |chunk| && checkEvery > 0
    requires scanner.offset + |chunk| <= |src| && chunk == src[scanner.offset..scanner.offset + |chunk|]
    modifies scanner, collector
    ensures InStep(f, src, scanner, collector)
    ensures status == Stopped <==> |collector.spans| == collector.limit
    ensures status == Complete ==> scanner.offset > old(scanner.offset)
    ensures status == Cancelled ==> !calm
    ensures scanner.offset <= |src|
  {
    hide AllRecords, DiagnosticFrom, RecordsFrom, BoundaryScanner.Valid, Window;
    ghost var from, rest := collector.nextRow, AllRecords(f, src)[collector.nextRow..];
    collector.WantedIsLeft(f, src);
    var consumed, found;
    consumed, status, found := scanner.Feed(src, chunk, Some(checkEvery), Some(collector.Wanted()), calm);
    ghost var to := from + |found|;
    assert rest[..|found|] == found && rest[|found|..] == scanner.Unread(src);
    assert rest[..|found|] == AllRecords(f, src)[from..to] && rest[|found|..] == AllRecords(f, src)[to..];
    collector.AcceptAll(found, f, src);
    collector.WantedIsLeft(f, src);
  }

  /** Scans from the checkpoint until the window is full or the source ends. */
  method CollectWindow(src: Source, f: Format, c: Checkpoint, firstRow: nat, limits: Limits, calm: bool)
    returns (r: Result<seq<RowSpan>>, reachedEof: bool, diagnostic: Option<Diagnostic>)
    requires Boundary(f, src, c) && c.row <= firstRow
    requires limits.records > 0 && limits.bufferBytes > 0 && limits.checkEvery > 0
    ensures r.Ok? ==>
              && r.value == Window(f, src, firstRow, Min(firstRow + limits.records, |AllRecords(f, src)|))
              && (reachedEof <==> firstRow + limits.records >= |AllRecords(f, src)|)
              && diagnostic == (if reachedEof then DiagnosticFrom(f, src, 0) else None)
    ensures r.Err? ==> !calm && r.error != InvalidCheckpoint
  {
    hide AllRecords, DiagnosticFrom, RecordsFrom, BoundaryScanner.Valid, Window;
    StartsInStep(f, src, c);
    var scanner := new BoundaryScanner(f, c.offset, src);
    var collector := new SpanCollector(firstRow, limits.records, c.row, f, src);
    reachedEof, diagnostic := false, None;
    while scanner.offset < |src| && |collector.spans| < collector.limit
      invariant fresh(scanner) && fresh(collector)
      invariant InStep(f, src, scanner, collector) && scanner.offset <= |src|
      decreases |src| - scanner.offset, collector.limit - |collector.spans|
    {
      var cancelled := Disturbed(calm);
      if cancelled {
        return Err(OperationCancelled), false, None;
      }
      var chunk := ReadAt(src, scanner.offset, Min(|src| - scanner.offset, limits.bufferBytes), calm);
      if chunk.Err? {
        return Err(chunk.error), false, None;
      }
      var status := FeedCollector(f, src, scanner, chunk.value, limits.checkEvery, collector, calm);
      match status
      case Cancelled => return Err(OperationCancelled), false, None;
      case Stopped => break;
      case Complete =>
    }
    reachedEof := scanner.offset == |src|;
    if reachedEof && |collector.spans| < collector.limit {
      diagnostic := FinishWindow(f, src, scanner, collector);
    } else {
      WindowFull(f, src, scanner, collector);
    }
    r := Ok(collector.spans);
    FinalWindow(f, src, collector);
  }

  /** At the end of the source the last record may only be known now. */
  method FinishWindow(f: Format, ghost src: Source, scanner: BoundaryScanner, collector: SpanCollector)
    returns (diagnostic: Option<Diagnostic>)
    requires InStep(f, src, scanner, collector) && |collector.spans| < collector.limit && scanner.offset == |src|
    modifies scanner, collector
    ensures collector.Valid(f, src) && collector.nextRow == |AllRecords(f, src)|
    ensures diagnostic == DiagnosticFrom(f, src, 0)
  {
    hide AllRecords, DiagnosticFrom, RecordsFrom, BoundaryScanner.Valid, Window;
    ghost var rest := AllRecords(f, src)[collector.nextRow..];
    var span;
    span, diagnostic := scanner.Finish(src);
    assert rest == AsSeq(span);
    if span.Some? {
      assert rest[0] == span.value;
      var _ := collector.Accept(span.value, f, src);
    }
  }

  /** A full window ends the source exactly when nothing is unread. */
  lemma WindowFull(f: Format, src: Source, scanner: BoundaryScanner, collector: SpanCollector)
    requires InStep(f, src, scanner, collector) && |collector.spans| == collector.limit
    ensures scanner.offset == |src| <==> collector.nextRow == |AllRecords(f, src)|
    ensures scanner.offset == |src| ==> DiagnosticFrom(f, src, 0) == None
  {
    hide AllRecords, Window;
  }

  lemma FinalWindow(f: Format, src: Source, collector: SpanCollector)
    requires collector.Valid(f, src) && collector.limit > 0
    requires |collector.spans| == collector.limit || collector.nextRow == |AllRecords(f, src)|
    ensures collector.spans == Window(f, src, collector.firstRow,
              Min(collector.firstRow + collector.limit, |AllRecords(f, src)|))
    ensures collector.nextRow == |AllRecords(f, src)| <==> collector.firstRow + collector.limit >= |AllRecords(f, src)|
  {
    hide AllRecords;
    var all := |AllRecords(f, src)|;
    collector.WantedIsLeft(f, src);
    if collector.nextRow == all && all < collector.firstRow {
      assert Window(f, src, collector.firstRow, all) == [];
    }
  }

  // ------------------------------------------------------------------ previews

  predicate Inside(src: Source, rs: RowSpan) {
    rs.span.start <= rs.span.end <= |src|
  }

  function Record(src: Source, rs: RowSpan): seq<byte>
    requires Inside(src, rs)
  {
    src[rs.span.start..rs.span.end]
  }

  /** As much of a record as its own limit and the payload left allow. */
  function PreviewOf(src: Source, rs: RowSpan, perRecord: nat, left: nat): RecordPreview
    requires Inside(src, rs)
  {
    var full := Record(src, rs);
    var size := Min(|full|, Min(perRecord, left));
    RecordPreview(rs.row, rs.span, full[..size], size < |full|)
  }

  function Payload(records: seq<RecordPreview>): nat {
    if records == [] then 0 else Payload(records[..|records| - 1]) + |records[|records| - 1].bytes|
  }

  /** A row is shown exactly as far as the rows before it leave room. */
  ghost predicate ShowsRow(src: Source, rs: RowSpan, limits: Limits, before: seq<RecordPreview>, shown: RecordPreview) {
    && Inside(src, rs) && Payload(before) <= limits.payload
    && shown == PreviewOf(src, rs, limits.perRecord, limits.payload - Payload(before))
  }

  ghost predicate Shows(src: Source, spans: seq<RowSpan>, limits: Limits, records: seq<RecordPreview>)
    decreases |records|
  {
    var n := |records|;
    n > 0 ==>
      && n <= |spans| && Shows(src, spans, limits, records[..n - 1])
      && ShowsRow(src, spans[n - 1], limits, records[..n - 1], records[n - 1])
  }

  lemma ShowsOneMore(src: Source, spans: seq<RowSpan>, limits: Limits, records: seq<RecordPreview>, next: RecordPreview)
    requires Shows(src, spans, limits, records) && |records| < |spans| && Inside(src, spans[|records|])
    requires Payload(records) <= limits.payload
    requires next == PreviewOf(src, spans[|records|], limits.perRecord, limits.payload - Payload(records))
    ensures Shows(src, spans, limits, records + [next])
    ensures Payload(records + [next]) == Payload(records) + |next.bytes| <= limits.payload
  {
    assert (records + [next])[..|records|] == records;
  }

  /** Row `i` was shown by the same rule, so the payload is never exceeded. */
  lemma {:induction false} ShowsEach(src: Source, spans: seq<RowSpan>, limits: Limits, records: seq<RecordPreview>,
                                     i: nat)
    requires Shows(src, spans, limits, records) && i < |records| <= |spans|
    ensures ShowsRow(src, spans[i], limits, records[..i], records[i])
    ensures Payload(records[..i + 1]) == Payload(records[..i]) + |records[i].bytes|
    ensures Payload(records) <= limits.payload
    decreases |records|
  {
    hide PreviewOf, ShowsRow;
    var n := |records|;
    LastFits(src, spans[n - 1], limits, records[..n - 1], records[n - 1]);
    if i < n - 1 {
      ShowsEach(src, spans, limits, records[..n - 1], i);
      assert records[..n - 1][..i] == records[..i] && records[..n - 1][..i + 1] == records[..i + 1];
    } else {
      assert records[..n] == records;
    }
  }

  lemma LastFits(src: Source, rs: RowSpan, limits: Limits, before: seq<RecordPreview>, shown: RecordPreview)
    requires ShowsRow(src, rs, limits, before, shown)
    ensures Payload(before) + |shown.bytes| <= limits.payload
  {
    hide Payload;
  }

  /** Every preview is a prefix of its own record, marked exactly when it is
      cut, and cut only by a limit that is used up. */
  lemma PreviewsArePrefixes(src: Source, spans: seq<RowSpan>, limits: Limits, records: seq<RecordPreview>, i: nat)
    requires Shows(src, spans, limits, records) && i < |records| <= |spans|
    ensures Inside(src, spans[i])
    ensures records[i].row == spans[i].row && records[i].span == spans[i].span
    ensures records[i].bytes <= Record(src, spans[i]) && |records[i].bytes| <= limits.perRecord
    ensures records[i].truncated <==> records[i].bytes != Record(src, spans[i])
    ensures records[i].truncated ==>
              |records[i].bytes| == limits.perRecord || Payload(records[..i + 1]) == limits.payload
    ensures Payload(records) <= limits.payload
  {
    hide Payload, Shows;
    ShowsEach(src, spans, limits, records, i);
    if !records[i].truncated {
      assert records[i].bytes == Record(src, spans[i]);
    }
  }

  /** Reads `size` bytes at `start`, however short each read is. */
  method FillPreview(src: Source, start: nat, size: nat, calm: bool) returns (r: Result<seq<byte>>)
    requires start + size <= |src|
    ensures r.Ok? ==> r.value == src[start..start + size]
    ensures r.Err? ==> !calm && r.error != InvalidCheckpoint
  {
    var bytes := [];
    while |bytes| < size
      invariant |bytes| <= size && bytes == src[start..start + |bytes|]
      decreases size - |bytes|
    {
      var cancelled := Disturbed(calm);
      if cancelled {
        return Err(OperationCancelled);
      }
      var chunk := ReadAt(src, start + |bytes|, size - |bytes|, calm);
      if chunk.Err? {
        return Err(chunk.error);
      }
      bytes := bytes + chunk.value;
    }
    r := Ok(bytes);
  }

  method MaterializePreviews(src: Source, spans: seq<RowSpan>, limits: Limits, calm: bool)
    returns (r: Result<seq<RecordPreview>>)
    requires forall i :: 0 <= i < |spans| ==> Inside(src, spans[i])
    ensures r.Ok? ==> |r.value| == |spans| && Shows(src, spans, limits, r.value)
    ensures r.Err? ==> !calm && r.error != InvalidCheckpoint
  {
    hide Shows, Payload, PreviewOf;
    var remaining := limits.payload;
    var records := [];
    ShowsNone(src, spans, limits);
    for i := 0 to |spans|
      invariant |records| == i && Shows(src, spans, limits, records)
      invariant 0 <= remaining == limits.payload - Payload(records)
    {
      var span := spans[i].span;
      assert Inside(src, spans[i]);
      var size := Min(span.end - span.start, Min(limits.perRecord, remaining));
      var bytes := FillPreview(src, span.start, size, calm);
      if bytes.Err? {
        return Err(bytes.error);
      }
      var preview := RecordPreview(spans[i].row, span, bytes.value, size < span.end - span.start);
      PreviewIsCopied(src, spans[i], limits.perRecord, remaining);
      ShowsOneMore(src, spans, limits, records, preview);
      remaining := remaining - size;
      records := records + [preview];
    }
    r := Ok(records);
  }

  lemma PreviewIsCopied(src: Source, rs: RowSpan, perRecord: nat, left: nat)
    requires Inside(src, rs)
    ensures var size := Min(rs.span.end - rs.span.start, Min(perRecord, left));
            && rs.span.start + size <= |src|
            && PreviewOf(src, rs, perRecord, left) ==
               RecordPreview(rs.row, rs.span, src[rs.span.start..rs.span.start + size],
                 size < rs.span.end - rs.span.start)
  {
    var size := Min(rs.span.end - rs.span.start, Min(perRecord, left));
    assert Record(src, rs)[..size] == src[rs.span.start..rs.span.start + size];
  }

  lemma ShowsNone(src: Source, spans: seq<RowSpan>, limits: Limits)
    ensures Shows(src, spans, limits, []) && Payload([]) == 0
  {}

  // ------------------------------------------------------------------ viewport

  /** The view of rows `firstRow` on is that slice of the whole scan. */
  ghost predicate Views(f: Format, src: Source, firstRow: nat, limits: Limits, v: View) {
    && var all := |AllRecords(f, src)|;
    && var window := Window(f, src, firstRow, Min(firstRow + limits.records, all));
    && |v.records| == |window| && Shows(src, window, limits, v.records)
    && (v.reachedEof <==> firstRow + limits.records >= all)
    && v.diagnostic == if v.reachedEof then DiagnosticFrom(f, src, 0) else None
  }

  lemma WindowInside(f: Format, src: Source, from: nat, to: nat, i: nat)
    requires to <= |AllRecords(f, src)| && i < Sub(to, from)
    ensures Inside(src, Window(f, src, from, to)[i])
  {
    RestartAt(f, src, 0, from + i);
  }

  /** A calm view is refused only for a checkpoint past its first row. */
  method ReadViewport(src: Source, f: Format, c: Checkpoint, firstRow: nat, limits: Limits, calm: bool)
    returns (r: Result<View>)
    requires Boundary(f, src, c)
    requires limits.records > 0 && limits.bufferBytes > 0 && limits.checkEvery > 0
    ensures r.Ok? ==> Views(f, src, firstRow, limits, r.value)
    ensures r == Err(InvalidCheckpoint) ==> c.row > firstRow
    ensures c.row > firstRow ==> r == Err(InvalidCheckpoint) || r == Err(OperationCancelled)
    ensures calm ==> (r.Ok? <==> c.row <= firstRow) && (r.Err? ==> r.error == InvalidCheckpoint)
  {
    hide Shows, Window, AllRecords, DiagnosticFrom, Boundary;
    var cancelled := Disturbed(calm);
    if cancelled {
      return Err(OperationCancelled);
    }
    if c.row > firstRow || c.offset > |src| {
      StartsInStep(f, src, c);
      return Err(InvalidCheckpoint);
    }
    var spans, reachedEof, diagnostic := CollectWindow(src, f, c, firstRow, limits, calm);
    if spans.Err? {
      return Err(spans.error);
    }
    forall i | 0 <= i < |spans.value|
      ensures Inside(src, spans.value[i])
    {
      WindowInside(f, src, firstRow, Min(firstRow + limits.records, |AllRecords(f, src)|), i);
    }
    var records := MaterializePreviews(src, spans.value, limits, calm);
    if records.Err? {
      return Err(records.error);
    }
    r := Ok(View(records.value, reachedEof, diagnostic));
  }

  /** From whatever a scan has indexed so far, complete or not, a view shows
      the rows the whole scan will find there. */
  method ViewRows(session: ScanSession.ScanSession, firstRow: nat, limits: Limits, calm: bool) returns (r: Result<View>)
    requires session.Valid()
    requires limits.records > 0 && limits.bufferBytes > 0 && limits.checkEvery > 0
    ensures r.Ok? ==> Views(session.format, session.src, firstRow, limits, r.value)
    ensures r != Err(InvalidCheckpoint) && (calm ==> r.Ok?)
  {
    hide AllRecords, Views, AdaptiveIndex.Valid, Samples, Boundary;
    LookupIsBoundary(session, firstRow);
    var c := session.index.Nearest(firstRow);
    r := ReadViewport(session.src, session.format, c, firstRow, limits, calm);
  }

  lemma LookupIsBoundary(session: ScanSession.ScanSession, row: nat)
    requires session.Valid()
    ensures session.index.Valid()
    ensures Boundary(session.format, session.src, session.index.Nearest(row)) && session.index.Nearest(row).row <= row
  {
    hide AllRecords;
    var c := session.index.Nearest(row);
    if session.recordCount > 0 {
      session.IndexIsExact(0);
    }
  }
}
