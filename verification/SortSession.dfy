/** The resumable external sort. Every step works under a byte budget and may
    stop in the middle of a comparison; whatever the slicing, a session that
    completes has written the one sorted order of its source. */
module SortSession {
  import opened Prelude
  import opened Records
  import opened Scanner
  import opened Fields
  import opened Key
  import opened KeyOrder
  import opened Comparing
  import opened Sorting
  import opened SortSpec
  import opened Storage
  import BM = BatchMerge
  import WT = WinnerTree
  import Passes
  import Inverse

  datatype SortPhase = Extracting | SortingRuns | Merging | BuildingInverse | Complete | Cancelled

  const BUCKET_ROWS: nat := 524288
  const BUCKET_PAIRS: nat := 1024
  const SCAN_BYTES: nat := 65536

  function Power(b: nat, e: nat): nat {
    if e == 0 then 1 else b * Power(b, e - 1)
  }

  /** A page that holds nothing yet. */
  function EmptyPage(): ReadPage<Descriptor> {
    NewPage(Blank(0, Span(0, 0)))
  }

  /** The inverse map gives each row the rank it is listed at. */
  ghost predicate Inverts(order: seq<Entry>, inverse: seq<nat>) {
    && |inverse| == |order|
    && forall r :: 0 <= r < |order| ==> order[r].row < |inverse| && inverse[order[r].row] == r
  }

  /** A finished sort's two maps, of `count` entries each. A map of any other
      length is refused. */
  datatype SortedOrder = SortedOrder(order: seq<Entry>, inverse: seq<nat>, count: nat, sourceSize: nat) {
    function RecordAt(rank: nat): Result<Entry> {
      if |order| != count || rank >= count then Err(InvalidScratch)
      else
        var e := order[rank];
        if e.row >= count || e.end > sourceSize || e.end < e.start then Err(InvalidScratch) else Ok(e)
    }

    function RankOf(row: nat): Result<nat> {
      if |inverse| != count || row >= count then Err(InvalidScratch)
      else if inverse[row] >= count then Err(InvalidScratch)
      else Ok(inverse[row])
    }
  }

  /** Looking up a rank and looking up a row undo each other. */
  lemma LookupsInvert(env: Env, maps: SortedOrder, i: nat)
    requires IsSorted(env, maps.order) && Inverts(maps.order, maps.inverse) && maps.sourceSize == |env.src|
    requires i < RecordCount(env) && maps.count == |maps.order|
    ensures var e := maps.RecordAt(i);
            e.Ok? && Span(e.value.start, e.value.end) == SpanOf(env, e.value.row) && maps.RankOf(e.value.row) == Ok(i)
    ensures var rank := maps.RankOf(i);
            rank.Ok? && maps.RecordAt(rank.value).Ok? && maps.RecordAt(rank.value).value.row == i
  {
    hide ShownBefore, RecordsFrom, RecordEnd;
    var r := EveryRowListed(env, maps.order, i);
    RestartAt(env.format, env.src, 0, maps.order[i].row);
    RestartAt(env.format, env.src, 0, maps.order[r].row);
  }

  /** Some record's key is a number whose exponent does not fit. */
  ghost predicate SomeKeyOutOfRange(env: Env) {
    && env.request.mode == Numeric
    && exists row :: 0 <= row < RecordCount(env) && KeyOutOfRange(env, SpanOf(env, row))
  }

  // -------------------------------------------------------------- failing disks

  type ScratchError = e: Error | e == ScratchIo || e == Quota || e == Allocation witness ScratchIo

  /** The scratch operation that fails in a step, if the step comes to it: the
      writes and flush of the run file, the start of the next stage, the reads
      and writes of a merge, and those of the two maps. */
  datatype ScratchFault =
    | RunWrite(how: WriteFault)
    | RunFlush
    | PagesRefused(made: nat)
    | PassCreate(error: ScratchError)
    | MapsCreate(error: ScratchError)
    | HeadLoad(run: nat, load: Fault<Descriptor>)
    | MergedWrite(how: WriteFault)
    | NextLoad(load: Fault<Descriptor>)
    | RankLoad(load: Fault<Descriptor>)
    | OrderWrite(how: WriteFault)
    | PairWrite
    | PairsFlush(bucket: nat)
    | OrderFlush
    | Placement(what: Inverse.PlaceFault)

  function ErrorOf(fault: ScratchFault): ScratchError {
    match fault
    case RunWrite(how) => if how == OverQuota then Quota else ScratchIo
    case MergedWrite(how) => if how == OverQuota then Quota else ScratchIo
    case OrderWrite(how) => if how == OverQuota then Quota else ScratchIo
    case PagesRefused(_) => Allocation
    case PassCreate(e) => e
    case MapsCreate(e) => e
    case _ => ScratchIo
  }

  /** The operations whose failure cannot be made good by advancing again. A
      merge has taken the record it writes, and the pass file it turned to; a
      rank is in the order map before its pair is collected. */
  predicate Fatal(phase: SortPhase, fault: ScratchFault) {
    match fault
    case MergedWrite(_) => true
    case NextLoad(_) => true
    case PairWrite => true
    case RunFlush => phase == Merging
    case PagesRefused(_) => phase == Merging
    case PassCreate(_) => phase == Merging
    case MapsCreate(_) => phase == Merging
    case _ => false
  }

  class SortSession {
    const env: Env
    const batchCapacity: nat
    const fanIn: nat
    const stepBytes: nat
    var phase: SortPhase
    var scanner: BoundaryScanner?
    var scanBuffer: seq<byte>
    var scanPos: nat
    var locator: Locator?
    var builder: Builder?
    ghost var span: Span
    ghost var keyRead: seq<byte>
    var batch: seq<Descriptor>
    var alternate: seq<Descriptor>
    var merge: BM.Merge
    var comparison: Comparison?
    var writeAt: nat
    var records: nat
    var runFile: Option<seq<Descriptor>>
    var runClaimed: nat
    var passFile: Option<seq<Descriptor>>
    var passClaimed: nat
    var runWidth: nat
    var pass: nat
    ghost var passes: nat
    ghost var uncreated: nat
    var groupStart: nat
    var tree: WT.Tree<Descriptor>
    var pages: seq<ReadPage<Descriptor>>
    var order: seq<Entry>
    var inverse: seq<nat>
    var inverseAt: nat
    var inverseBuilder: Inverse.InverseBuilder?
    ghost var sorted: seq<Descriptor>

    // ------------------------------------------------------------ extraction

    /** A numeric key whose exponent does not fit was met. */
    ghost predicate KeyError(e: Error) {
      e == NumericRange && SomeKeyOutOfRange(env)
    }

    ghost predicate ConfigOk() {
      0 < batchCapacity <= U64_MAX && 2 <= fanIn <= WT.EMPTY && 0 < stepBytes
    }

    /** The run file is charged with no less than it holds. */
    ghost predicate Claims()
      reads this`runFile, this`runClaimed
    {
      runFile.Some? ==> |runFile.value| <= runClaimed
    }

    /** A write the disk refused is still charged to the run file. */
    ghost predicate Excess()
      reads this`runFile, this`runClaimed
    {
      runFile.Some? && |runFile.value| < runClaimed
    }

    /** The count of passes that is reported takes in those whose file could not
        be created. */
    ghost predicate PassCount()
      reads this`pass, this`passes, this`uncreated
    {
      pass == passes + uncreated
    }

    /** The scanner and its read-ahead stand at the same place. */
    ghost predicate Scanning()
      reads this`scanner, this`scanBuffer, this`scanPos, scanner
    {
      scanner != null ==>
        && scanner.format == env.format && scanner.Valid(env.src)
        && Aligned(scanBuffer, scanPos, env.src, scanner.offset)
    }

    ghost function Unscanned(): seq<Span>
      reads this`scanner, scanner
    {
      if scanner == null || scanner.recordStart > |env.src| then []
      else RecordsFrom(env.format, env.src, scanner.recordStart)
    }

    /** How much of the source the scanner has read. */
    ghost function Reached(): nat
      reads this`scanner, scanner
    {
      if scanner == null then |env.src| else scanner.offset
    }

    ghost predicate HasPending()
      reads this`locator, this`builder
    {
      locator != null || builder != null
    }

    ghost function BuilderParts(): set<object>
      reads this`builder
    {
      if builder == null then {} else {builder, builder.cursor, builder.number}
    }

    ghost predicate PendingOk()
      reads this`locator, this`builder, this`records, this`span, this`keyRead, locator, BuilderParts()
    {
      && (locator != null ==>
            && builder == null && locator.format == env.format && locator.target == env.request.column
            && locator.Valid(env.src, records, span))
      && (builder != null ==> builder.Valid(env, records, span, keyRead))
    }

    /** The records not yet described: the one at hand, then those unscanned. */
    ghost function ToCome(): seq<Span>
      reads this`locator, this`builder, this`span, this`scanner, scanner
    {
      (if HasPending() then [span] else []) + Unscanned()
    }

    ghost predicate Extracted()
      reads this`scanner, this`scanBuffer, this`scanPos, scanner,
            this`locator, this`builder, this`records, this`span, this`keyRead, locator, BuilderParts()
    {
      && Scanning() && PendingOk() && SpansOk(env.src, ToCome())
      && records <= |AllDescriptors(env)|
      && AllDescriptors(env)[records..] == Describe(env, records, ToCome())
    }

    /** The same with no record at hand. */
    ghost predicate Scanned()
      reads this`scanner, this`scanBuffer, this`scanPos, scanner, this`records
    {
      && Scanning() && SpansOk(env.src, Unscanned())
      && records <= |AllDescriptors(env)|
      && AllDescriptors(env)[records..] == Describe(env, records, Unscanned())
    }

    lemma ScannedIsExtracted()
      requires !HasPending()
      ensures Scanned() <==> Extracted()
    {
      hide Scanning, Describe, SpansOk, AllDescriptors;
      assert ToCome() == Unscanned();
    }

    /** Every number in the first `n` records can be sorted. */
    ghost predicate Sortable(n: nat) {
      env.request.mode == Numeric ==>
        forall row :: 0 <= row < n && row < RecordCount(env) ==> !KeyOutOfRange(env, SpanOf(env, row))
    }

    lemma SortableNext(n: nat)
      requires Sortable(n) && n < RecordCount(env)
      requires env.request.mode == Numeric ==> !KeyOutOfRange(env, SpanOf(env, n))
      ensures Sortable(n + 1)
    {
      hide AllRecords, KeyOutOfRange;
    }

    /** Of the records described, `base` is on disk in full runs and the batch
        holds the rest. */
    ghost predicate Stored(base: seq<Descriptor>)
      reads this`batch, this`records
    {
      && |batch| <= batchCapacity
      && |base| + |batch| == records <= |AllDescriptors(env)|
      && multiset(base) + multiset(batch) == multiset(AllDescriptors(env)[..records])
      && Sortable(records)
    }

    ghost predicate Quiet()
      reads this`comparison, this`inverseBuilder, this`pass, this`passes, this`uncreated, this`runWidth, this`pages
    {
      && comparison == null && inverseBuilder == null && BeforeMerge()
    }

    /** No pass of the disk merge has begun. */
    ghost predicate BeforeMerge()
      reads this`pass, this`passes, this`uncreated, this`runWidth, this`pages
    {
      && passes == 0 && PassCount() && runWidth == batchCapacity
      && 1 <= |pages| <= fanIn
    }

    /** Only the first `used` runs of the tree have anything to read. */
    ghost predicate IdleTree(t: WT.Tree<Descriptor>, limit: nat, used: nat) {
      && t.Shaped() && t.leaves > 1 && |t.heads| == fanIn && t.stage.Idle?
      && (forall r :: 0 <= r < fanIn ==> t.next[r] <= t.end[r] <= limit)
      && (forall r :: used <= r < fanIn ==> t.heads[r].None? && t.next[r] == t.end[r])
    }

    /** What sorting a batch and merging runs work with. */
    ghost predicate Buffers()
      reads this`alternate, this`tree, this`pages
    {
      |alternate| == batchCapacity && IdleTree(tree, 0, |pages|)
    }

    /** One run holds everything: neither a batch nor a merge will follow. */
    ghost predicate Drained()
      reads this`scanner, this`locator, this`builder, this`batch, this`records
    {
      scanner == null && !HasPending() && batch == [] && records <= batchCapacity
    }

    ghost predicate ExtractingOk()
      reads this`scanner, this`scanBuffer, this`scanPos, scanner,
            this`locator, this`builder, this`records, this`span, this`keyRead, locator, BuilderParts(),
            this`batch, this`alternate, this`runFile, this`runClaimed,
            this`comparison, this`inverseBuilder, this`pass, this`passes, this`uncreated, this`runWidth, this`pages,
            this`tree
    {
      && ConfigOk() && Extracted() && Quiet() && runFile.Some? && Claims() && (Buffers() || Drained())
      && Stored(runFile.value)
      && Runs(LeOf(env), runFile.value, batchCapacity)
      && (HasPending() ==> |batch| < batchCapacity)
      && ((scanner == null && !HasPending() && batch == []) || FullRuns(LeOf(env), runFile.value, batchCapacity))
    }

    lemma DescribeNext(all: seq<Descriptor>, n: nat, first: Span, rest: seq<Span>)
      requires SpansOk(env.src, [first] + rest) && n <= |all|
      requires all[n..] == Describe(env, n, [first] + rest)
      ensures n < |all| && all[n] == DescriptorOf(env, n, first)
      ensures SpansOk(env.src, rest) && all[n + 1..] == Describe(env, n + 1, rest)
    {
      hide DescriptorOf;
      assert ([first] + rest)[1..] == rest;
      assert all[n..][0] == all[n];
      assert all[n..][1..] == all[n + 1..];
      forall i | 0 <= i < |rest|
        ensures rest[i].start <= rest[i].end <= |env.src|
      {
        assert ([first] + rest)[i + 1] == rest[i];
      }
    }

    lemma PendingSpanOk()
      requires PendingOk() && HasPending()
      ensures span.start <= span.end <= |env.src|
    {}

    /** Looks for the key of the record at hand. */
    method Locate(budget: nat, calm: bool) returns (r: Result<()>, left: nat)
      requires ExtractingOk() && locator != null
      modifies this`locator, this`builder, this`keyRead, locator
      ensures r.Ok? ==> ExtractingOk() && left <= budget
      ensures r.Ok? && locator != null ==>
                locator == old(locator) && builder == null && left == 0 &&
                  locator.cursor == old(locator.cursor) + budget
      ensures r.Ok? && locator == null ==> builder != null && fresh(BuilderParts())
      ensures r.Err? ==> !calm && SourceError(r.error) && ExtractingOk() && locator == old(locator) && builder == null
    {
      hide Describe, AllDescriptors, DescriptorOf, FullRuns, Runs, Located, LeOf, RecordsFrom, SpansOk;
      hide Stored, Quiet, Scanning, Locator.Valid, Builder.Valid, Buffers, Claims, ConfigOk;
      PendingSpanOk();
      var found;
      found, left := locator.Advance(env.src, records, span, budget, calm);
      if found.Err? {
        return Err(found.error), left;
      }
      if found.value.Some? {
        builder := new Builder(found.value.value, QuoteOf(env.format), env, records, span);
        locator := null;
        keyRead := [];
      }
      r := Ok(());
    }

    /** Decodes the key of the record at hand; a finished descriptor joins the
        batch. */
    method BuildKey(budget: nat, calm: bool) returns (r: Result<()>, left: nat)
      requires ExtractingOk() && builder != null
      modifies this`builder, this`keyRead, this`batch, this`records, BuilderParts()
      ensures r.Ok? ==> ExtractingOk() && left <= budget && locator == null
      ensures r.Ok? && builder != null ==>
                && builder == old(builder) && left == 0 && records == old(records) && batch == old(batch)
                && builder.cursor.offset == old(builder.cursor.offset) + budget
      ensures r.Ok? && builder == null ==> records == old(records) + 1
      ensures r.Err? ==> (!calm && SourceError(r.error)) || KeyError(r.error)
      ensures r.Err? ==> builder == old(builder) && locator == null && ExtractingOk()
    {
      hide Buffers, Claims, ConfigOk, Quiet, Stored, Scanning;
      hide Describe, AllDescriptors, DescriptorOf, FullRuns, Runs, Located, LeOf, RecordsFrom, KeyBytes;
      PendingRow();
      var found;
      ghost var w;
      found, left, w := builder.Advance(env.src, budget, env.request.mode, calm, env, records, span, keyRead);
      if found.Err? {
        keyRead := w;
        if found.error == NumericRange {
          OutOfRangeRow();
        }
        return Err(found.error), left;
      }
      if found.value.None? {
        keyRead := w;
        return Ok(()), left;
      }
      Collect(found.value.value);
      r := Ok(());
    }

    /** The record at hand is row `records` of the source. */
    lemma PendingRow()
      requires Extracted() && HasPending()
      ensures records < RecordCount(env) && SpanOf(env, records) == span
    {
      hide DescriptorOf, RecordsFrom, Scanning, PendingOk, Describe, AllDescriptors, SpansOk, Describes, KeyBytes;
      DescribeNext(AllDescriptors(env), records, span, Unscanned());
      DescriptorAt(env, records);
      FirstSpanOk(env.src, span, Unscanned());
      DescriptorTellsTruth(env, records, span);
      DescriptorTellsTruth(env, records, SpanOf(env, records));
    }

    lemma FirstSpanOk(src: Source, first: Span, rest: seq<Span>)
      requires SpansOk(src, [first] + rest)
      ensures first.start <= first.end <= |src|
    {
      assert ([first] + rest)[0] == first;
    }

    lemma OutOfRangeRow()
      requires records < RecordCount(env) && SpanOf(env, records) == span
      requires env.request.mode == Numeric && KeyOutOfRange(env, span)
      ensures SomeKeyOutOfRange(env)
    {
      hide KeyOutOfRange, RecordsFrom;
    }

    method Collect(d: Descriptor)
      requires ConfigOk() && Quiet() && Scanning() && SpansOk(env.src, ToCome())
      requires builder != null && locator == null && records <= |AllDescriptors(env)|
      requires AllDescriptors(env)[records..] == Describe(env, records, ToCome())
      requires runFile.Some? && Stored(runFile.value) && |batch| < batchCapacity && Claims() && Buffers()
      requires FullRuns(LeOf(env), runFile.value, batchCapacity) && Runs(LeOf(env), runFile.value, batchCapacity)
      requires d == DescriptorOf(env, records, span) && records < RecordCount(env) && SpanOf(env, records) == span
      requires env.request.mode == Numeric ==> !KeyOutOfRange(env, span)
      modifies this`builder, this`batch, this`records
      ensures ExtractingOk() && builder == null && records == old(records) + 1
    {
      hide Describe, AllDescriptors, DescriptorOf, FullRuns, Runs, LeOf, RecordsFrom, SpansOk;
      hide KeyOutOfRange, AllRecords, Sortable, Buffers, Claims, ConfigOk, Stored, Quiet, Scanning;
      StoredBounds(runFile.value);
      SortableNext(records);
      DescribeNext(AllDescriptors(env), records, span, Unscanned());
      ghost var rest := Unscanned();
      AddToBatch(d, runFile.value);
      builder := null;
      assert ToCome() == rest;
    }

    lemma StoredBounds(base: seq<Descriptor>)
      requires Stored(base)
      ensures Sortable(records) && records <= |AllDescriptors(env)|
    {
      hide AllDescriptors, Sortable;
    }

    method AddToBatch(d: Descriptor, ghost base: seq<Descriptor>)
      requires Stored(base) && |batch| < batchCapacity && Sortable(records + 1)
      requires records < |AllDescriptors(env)| && AllDescriptors(env)[records] == d
      modifies this`batch, this`records
      ensures Stored(base) && batch == old(batch) + [d] && records == old(records) + 1
    {
      hide AllDescriptors, Sortable;
      ghost var all := AllDescriptors(env);
      assert all[..records + 1] == all[..records] + [d];
      batch := batch + [d];
      records := records + 1;
    }

    /** The scanner has emitted a record; its key is to be located next. */
    method Pend(s: Span, ghost coming: seq<Span>)
      requires ConfigOk() && Quiet() && Scanning() && !HasPending()
      requires [s] + Unscanned() == coming && SpansOk(env.src, coming)
      requires records <= |AllDescriptors(env)| && AllDescriptors(env)[records..] == Describe(env, records, coming)
      requires runFile.Some? && Stored(runFile.value) && |batch| < batchCapacity && Claims() && Buffers()
      requires FullRuns(LeOf(env), runFile.value, batchCapacity) && Runs(LeOf(env), runFile.value, batchCapacity)
      modifies this`locator, this`span
      ensures ExtractingOk() && locator != null && fresh(locator) && builder == null
      ensures locator.cursor <= span.end <= |env.src|
    {
      hide Describe, AllDescriptors, DescriptorOf, FullRuns, Runs, LeOf, RecordsFrom;
      hide Quiet, Scanning, Stored, Locator.Valid;
      assert coming[0] == s;
      ghost var rest := Unscanned();
      locator := new Locator(records, s, env.format, env.request.column, env.src);
      span := s;
      assert ToCome() == [s] + rest;
    }

    /** The source is read to its end. */
    method FinishScan() returns (r: Result<()>)
      requires ExtractingOk() && !HasPending() && scanner != null && scanner.offset == |env.src|
      requires |batch| < batchCapacity
      modifies this`scanner, this`locator, this`span, scanner
      ensures r.Ok? && ExtractingOk() && scanner == null && builder == null
      ensures locator == null ==> old(Unscanned()) == []
      ensures locator != null ==> |old(Unscanned())| == 1 && fresh(locator) && locator.cursor <= span.end <= |env.src|
    {
      hide Describe, AllDescriptors, DescriptorOf, FullRuns, Runs, LeOf, RecordsFrom, DiagnosticFrom;
      hide Quiet, Stored, Buffers, Claims, ConfigOk, SpansOk;
      ghost var coming := ToCome();
      var last, _ := scanner.Finish(env.src);
      scanner := null;
      assert coming == AsSeq(last) + [];
      if last.Some? {
        Pend(last.value, coming);
      }
      r := Ok(());
    }

    /** Fills the read-ahead when it is used up. */
    method ReadAhead(calm: bool) returns (r: Result<()>)
      requires scanner != null && Scanning() && scanner.offset < |env.src|
      modifies this`scanBuffer, this`scanPos
      ensures r.Ok? ==> Scanning() && scanPos < |scanBuffer|
      ensures r.Err? ==> !calm && SourceError(r.error) && Scanning()
    {
      if scanPos == |scanBuffer| {
        var chunk := ReadAt(env.src, scanner.offset, Min(SCAN_BYTES, |env.src| - scanner.offset), calm);
        if chunk.Err? {
          return Err(chunk.error);
        }
        scanBuffer, scanPos := chunk.value, 0;
      }
      r := Ok(());
    }

    /** Feeds the scanner up to the budget, stopping at the first record. */
    method FeedOnce(budget: nat) returns (consumed: nat, emitted: Option<Span>)
      requires scanner != null && Scanning() && scanPos < |scanBuffer| && budget > 0
      modifies this`scanPos, scanner
      ensures Scanning() && consumed <= budget && scanner.offset == old(scanner.offset) + consumed
      ensures old(Unscanned()) == AsSeq(emitted) + Unscanned()
      ensures emitted.None? ==> scanner.offset > old(scanner.offset)
    {
      hide RecordsFrom, DiagnosticFrom, BoundaryScanner.Valid, Aligned;
      scanner.Bounds(env.src);
      var n := Min(budget, |scanBuffer| - scanPos);
      var chunk := scanBuffer[scanPos..scanPos + n];
      AlignedChunk(scanBuffer, scanPos, env.src, scanner.offset, n);
      ghost var from := scanner.offset;
      var status, spans;
      consumed, status, spans := scanner.Feed(env.src, chunk, None, Some(1), true);
      scanner.Bounds(env.src);
      AlignedChunk(scanBuffer, scanPos, env.src, from, consumed);
      scanPos := scanPos + consumed;
      emitted := if |spans| == 0 then None else Some(spans[0]);
      assert spans == AsSeq(emitted);
    }

    method FeedScan(budget: nat, calm: bool) returns (r: Result<()>, left: nat)
      requires ExtractingOk() && !HasPending() && scanner != null && scanner.offset < |env.src|
      requires |batch| < batchCapacity && budget > 0
      modifies this`scanBuffer, this`scanPos, this`locator, this`span, scanner
      ensures left <= budget && (r.Ok? ==> Reached() == old(Reached()) + (budget - left))
      ensures r.Ok? && locator == null ==> left < budget && |Unscanned()| == |old(Unscanned())|
      ensures r.Ok? && locator != null ==>
                |Unscanned()| < |old(Unscanned())| && fresh(locator) && locator.cursor <= span.end <= |env.src|
      ensures r.Err? ==> !calm && SourceError(r.error) && locator == null
      ensures ExtractingOk() && builder == null
    {
      hide Describe, AllDescriptors, DescriptorOf, FullRuns, Runs, LeOf, RecordsFrom, SpansOk;
      hide Quiet, Stored, Scanning, Unscanned, Buffers, Claims, ConfigOk;
      left := budget;
      ghost var coming := ToCome();
      assert coming == Unscanned();
      r := ReadAhead(calm);
      if r.Err? {
        return;
      }
      var consumed, emitted := FeedOnce(budget);
      left := budget - consumed;
      if emitted.Some? {
        Pend(emitted.value, coming);
      } else {
        assert ToCome() == Unscanned() == coming;
      }
      r := Ok(());
    }

    // ------------------------------------------------------------ comparing

    ghost function ComparisonParts(): set<object>
      reads this`comparison
    {
      if comparison == null then {} else comparison.Footprint()
    }

    /** A comparison that is pending is of exactly this pair. */
    ghost predicate Comparing(a: Descriptor, b: Descriptor)
      reads this`comparison, ComparisonParts()
    {
      comparison != null ==> comparison.Valid(env) && comparison.a == a && comparison.b == b
    }

    /** The comparison's remaining work; one not begun counts for more. */
    ghost function Unread(): int
      reads this`comparison, ComparisonParts()
    {
      if comparison == null then 4 * |env.src| + 1 else comparison.Remaining()
    }

    lemma UnreadBounds(c: Comparison)
      requires c.Valid(env)
      ensures 0 <= c.Remaining() <= 4 * |env.src|
    {
      hide Describes, Decide, Comparison.Settles, Comparison.HeldOk;
    }

    /** Orders two descriptors. `None` means the budget ran out; the same pair
        must be asked about again. */
    method Compare(a: Descriptor, b: Descriptor, budget: nat, calm: bool)
      returns (r: Result<Option<Ordering>>, left: nat)
      requires Describes(env, a) && Describes(env, b) && Comparing(a, b)
      modifies this`comparison, ComparisonParts()
      ensures left <= budget
      ensures r.Ok? ==> Comparing(a, b) && fresh(ComparisonParts() - old(ComparisonParts()))
      ensures r.Ok? && r.value.Some? ==> r.value.value == Order(env, a, b) && comparison == null
      ensures r.Ok? && r.value.None? ==>
                comparison != null && left == 0 && (budget > 0 ==> 0 <= Unread() < old(Unread()))
      ensures r.Err? ==>
                && !calm && SourceError(r.error) && comparison != null && Comparing(a, b)
                && fresh(ComparisonParts() - old(ComparisonParts()))
    {
      hide Describes, Decide, Order, Comparison.Valid, Comparison.Remaining;
      left := budget;
      if comparison == null {
        DecideIsExact(env, a, b);
        var order := Decide(a, b, env.request);
        if order.Some? {
          return Ok(order), left;
        }
        comparison := new Comparison(a, b, env.request, QuoteOf(env.format), env);
      }
      UnreadBounds(comparison);
      r, left := comparison.Advance(env.src, budget, calm, env);
      if r.Ok? {
        if r.value.Some? {
          comparison := null;
        } else {
          UnreadBounds(comparison);
        }
      }
    }

    // --------------------------------------------------------- sorting a batch

    ghost function Base(): seq<Descriptor>
      reads this`runFile, this`writeAt
    {
      if runFile.Some? && writeAt <= |runFile.value| then runFile.value[..|runFile.value| - writeAt] else []
    }

    ghost predicate MergeOk()
      reads this`batch, this`alternate, this`merge, this`comparison, ComparisonParts()
    {
      && BM.Valid(LeOf(env), batch, alternate, merge)
      && (comparison != null ==>
            BM.Pairing(LeOf(env), batch, alternate, merge) && PairPending())
    }

    /** The comparison is of the heads of the two runs at hand. */
    ghost predicate PairPending()
      reads this`batch, this`merge, this`comparison, ComparisonParts()
    {
      && merge.left < merge.middle && merge.right < merge.end
      && merge.left < |batch| && merge.right < |batch|
      && Comparing(batch[merge.left], batch[merge.right])
    }

    ghost predicate WritingOk()
      reads this`batch, this`merge, this`comparison, this`runFile, this`writeAt
    {
      && comparison == null && merge.width > 0 && runFile.Some?
      && Runs(LeOf(env), batch, merge.width)
      && writeAt <= |batch| && writeAt <= |runFile.value|
      && runFile.value == Base() + batch[..writeAt]
    }

    ghost predicate SortingOk()
      reads this`scanner, this`scanBuffer, this`scanPos, scanner, this`locator, this`builder, this`records,
            this`batch, this`alternate, this`runFile, this`runClaimed, this`merge, this`writeAt, ComparisonParts(),
            this`comparison, this`inverseBuilder, this`pass, this`passes, this`uncreated, this`runWidth, this`pages,
            this`tree
    {
      && ConfigOk() && Scanned() && !HasPending() && inverseBuilder == null && BeforeMerge() && Buffers() && Claims()
      && 0 < |batch| && (|batch| == batchCapacity || scanner == null)
      && runFile.Some? && Stored(Base()) && FullRuns(LeOf(env), Base(), batchCapacity)
      && (if merge.width < |batch| then writeAt == 0 && MergeOk() else WritingOk())
    }

    function Spend(budget: nat, cost: nat): (left: nat)
      ensures left <= budget
    {
      if budget > cost then budget - cost else 0
    }

    /** Appends one record of the sorted batch to the run file. A write that fails
        can be made again. */
    method WriteOne(budget: nat, fault: Option<ScratchFault>) returns (r: Result<()>, left: nat)
      requires SortingOk() && merge.width >= |batch| && writeAt < |batch|
      modifies this`runFile, this`runClaimed, this`writeAt
      ensures left == Spend(budget, 128) && SortingOk()
      ensures r.Ok? ==> writeAt == old(writeAt) + 1 && (Excess() ==> old(Excess()))
      ensures r.Err? ==> fault.Some? && fault.value.RunWrite? && r.error == ErrorOf(fault.value)
      ensures r.Err? ==> runFile == old(runFile) && writeAt == old(writeAt)
    {
      hide Scanned, Stored, BeforeMerge, FullRuns, Runs, LeOf, Buffers, ConfigOk, MergeOk;
      left := Spend(budget, 128);
      ghost var base := Base();
      var how := if fault.Some? && fault.value.RunWrite? then Some(fault.value.how) else None;
      var file;
      r, file, runClaimed := Append(runFile.value, runClaimed, batch[writeAt], how);
      if r.Err? {
        return;
      }
      runFile := Some(file);
      assert base + batch[..writeAt] + [batch[writeAt]] == base + batch[..writeAt + 1];
      writeAt := writeAt + 1;
      assert Base() == base;
    }

    /** The batch is on disk as one more run. */
    method EndBatch()
      requires SortingOk() && merge.width >= |batch| && writeAt == |batch|
      modifies this`batch, this`phase
      ensures ExtractingOk() && phase == Extracting && batch == [] && !HasPending()
    {
      hide Buffers, Claims, ConfigOk, PassCount, Sortable;
      hide Scanned, BeforeMerge, FullRuns, Runs, LeOf, Sorted, AllDescriptors;
      ghost var base, run := Base(), batch;
      assert batch[..writeAt] == batch;
      WideRun(LeOf(env), batch, merge.width, merge.width);
      AppendRun(LeOf(env), base, batch, batchCapacity);
      batch := [];
      phase := Extracting;
      ScannedIsExtracted();
      assert multiset(base + run) == multiset(base) + multiset(run);
    }

    /** A pass over the batch is done: its copy has runs twice as wide. */
    method EndBatchPass(budget: nat) returns (left: nat)
      requires SortingOk() && merge.width < |batch| && merge.start >= |batch|
      modifies this`batch, this`merge
      ensures left == Spend(budget, 128 * |batch|) && SortingOk()
      ensures |batch| == old(|batch|) && merge.width == 2 * old(merge.width) && merge.out == 0
    {
      hide Scanned, BeforeMerge, FullRuns, Runs, LeOf, Sorted, AllDescriptors, BM.Valid, BM.Pairing;
      var n := |batch|;
      PassIsDone();
      batch := alternate[..n];
      merge := merge.(width := 2 * merge.width, start := 0, end := 0, out := 0);
      left := Spend(budget, 128 * n);
      if merge.width < n {
        BM.Begin(LeOf(env), batch, alternate, merge);
      } else {
        assert runFile.value == Base() + batch[..0];
      }
    }

    lemma PassIsDone()
      requires MergeOk() && merge.start >= |batch|
      ensures comparison == null && |batch| <= |alternate| && merge.width > 0
      ensures Runs(LeOf(env), alternate[..|batch|], 2 * merge.width)
      ensures multiset(alternate[..|batch|]) == multiset(batch)
    {
      hide Runs, FullRuns, LeOf, PartialMerge;
      BM.PassDone(LeOf(env), batch, alternate, merge);
    }

    /** Everything in the batch is a truthful descriptor. */
    lemma BatchDescribed(base: seq<Descriptor>, i: nat)
      requires Stored(base) && i < |batch|
      ensures Describes(env, batch[i])
    {
      hide AllDescriptors, Describes;
      var all := AllDescriptors(env);
      assert batch[i] in multiset(batch);
      assert batch[i] in multiset(all[..records]);
      assert all == all[..records] + all[records..];
      Member(env, batch[i]);
    }

    /** Which side of the pair the next record comes from, if that can be told
        within the budget. */
    method ChooseSide(budget: nat, calm: bool) returns (r: Result<Option<bool>>, left: nat)
      requires Stored(Base()) && BM.Pairing(LeOf(env), batch, alternate, merge)
      requires comparison != null ==> PairPending()
      modifies this`comparison, ComparisonParts()
      ensures left <= budget
      ensures r.Ok? ==> fresh(ComparisonParts() - old(ComparisonParts()))
      ensures r.Ok? && r.value.Some? ==>
                comparison == null && BM.MayTake(LeOf(env), batch, merge, r.value.value)
      ensures r.Ok? && r.value.None? ==>
                && left == 0 && comparison != null && PairPending()
                && (budget > 0 ==> 0 <= Unread() < old(Unread()))
      ensures r.Err? ==>
                && !calm && SourceError(r.error) && fresh(ComparisonParts() - old(ComparisonParts()))
                && comparison != null && PairPending()
    {
      hide AllDescriptors, Describes, Order, PartialMerge, Comparison.Valid, Comparison.Remaining;
      left := budget;
      if merge.left == merge.middle {
        return Ok(Some(false)), left;
      }
      if merge.right == merge.end {
        return Ok(Some(true)), left;
      }
      var a, b := batch[merge.left], batch[merge.right];
      BatchDescribed(Base(), merge.left);
      BatchDescribed(Base(), merge.right);
      var order;
      order, left := Compare(a, b, budget, calm);
      if order.Err? {
        return Err(order.error), left;
      }
      if order.value.None? {
        return Ok(None), left;
      }
      OrderAntisymmetric(env, a, b);
      r := Ok(Some(order.value.value != Greater));
    }

    /** Turns to the next pair of runs when the last one is merged. */
    method EnsurePair()
      requires SortingOk() && merge.width < |batch| && merge.start < |batch|
      modifies this`merge
      ensures SortingOk() && BM.Pairing(LeOf(env), batch, alternate, merge)
      ensures merge.out == old(merge.out) && merge.width == old(merge.width) && merge.start < |batch|
    {
      hide Scanned, BeforeMerge, FullRuns, Runs, LeOf, Stored, Comparing, BM.Merged, PartialMerge;
      if merge.out == merge.end {
        BM.StartPair(LeOf(env), batch, alternate, merge);
        merge := BM.NextPair(merge, |batch|);
      }
    }

    method TakeSide(takeLeft: bool)
      requires SortingOk() && merge.width < |batch| && comparison == null
      requires BM.Pairing(LeOf(env), batch, alternate, merge) && BM.MayTake(LeOf(env), batch, merge, takeLeft)
      modifies this`merge, this`alternate
      ensures SortingOk() && merge.out == old(merge.out) + 1 && merge.width == old(merge.width)
    {
      hide Scanned, BeforeMerge, FullRuns, Runs, LeOf, BM.Merged, BM.Pairing, BM.Valid, AllDescriptors;
      LeIsTotal(env);
      BM.Take(LeOf(env), batch, alternate, merge, takeLeft);
      PairFits();
      alternate := alternate[merge.out := batch[BM.TakenFrom(merge, takeLeft)]];
      merge := BM.Taken(merge, takeLeft);
    }

    lemma PairFits()
      requires BM.Pairing(LeOf(env), batch, alternate, merge)
      ensures merge.out < |alternate|
    {
      hide LeOf, PartialMerge;
    }

    /** Moves one record of the pair at hand to the copy. */
    method MergeOne(budget: nat, calm: bool) returns (r: Result<()>, left: nat)
      requires SortingOk() && merge.width < |batch| && merge.start < |batch|
      modifies this`merge, this`alternate, this`comparison, ComparisonParts()
      ensures left <= budget
      ensures r.Ok? ==> SortingOk() && fresh(ComparisonParts() - old(ComparisonParts()))
      ensures r.Ok? ==> merge.width == old(merge.width)
      ensures r.Ok? && merge.out != old(merge.out) + 1 ==>
                merge.out == old(merge.out) && left == 0 && (budget > 0 ==> 0 <= Unread() < old(Unread()))
      ensures r.Err? ==>
                !calm && SourceError(r.error) && SortingOk() && fresh(ComparisonParts() - old(ComparisonParts()))
    {
      hide Scanned, BeforeMerge, FullRuns, Runs, LeOf, Stored, Comparing, Unread, BM.Valid, BM.Pairing, BM.MayTake;
      hide Buffers, Claims, ConfigOk, WritingOk;
      EnsurePair();
      var side;
      side, left := ChooseSide(budget, calm);
      if side.Err? {
        return Err(side.error), left;
      }
      if side.value.Some? {
        TakeSide(side.value.value);
        left := Spend(left, 128);
      }
      r := Ok(());
    }

    // ------------------------------------------------------------ merging runs

    /** All records are on disk in runs of `runWidth`. */
    ghost predicate OnDisk()
      reads this`runFile, this`records
    {
      && runFile.Some? && records == |AllDescriptors(env)| <= U64_MAX && Sortable(records)
      && multiset(runFile.value) == multiset(AllDescriptors(env))
    }

    ghost predicate Idle()
      reads this`scanner, this`locator, this`builder, this`inverseBuilder
    {
      scanner == null && locator == null && builder == null && inverseBuilder == null
    }

    /** The width runs have after `p` passes. */
    ghost function WidthAfter(p: nat): nat {
      batchCapacity * Power(fanIn, p)
    }

    /** No fewer passes would have been enough. */
    ghost predicate PassNeeded()
      reads this`passes, this`records
    {
      passes > 0 ==> WidthAfter(passes - 1) < records
    }

    ghost predicate ReadyOk()
      reads this`runFile, this`runClaimed, this`records, this`scanner, this`locator, this`builder, this`inverseBuilder,
            this`comparison, this`runWidth, this`pass, this`passes, this`uncreated, this`pages, this`tree
    {
      && ConfigOk() && Idle() && comparison == null && OnDisk() && Claims() && PassCount()
      && 0 < runWidth == Min(WidthAfter(passes), U64_MAX) && PassNeeded()
      && Runs(LeOf(env), runFile.value, runWidth)
      && 1 <= |pages| <= fanIn && (records > runWidth ==> IdleTree(tree, records, |pages|))
    }

    ghost predicate PagesOk()
      reads this`pages, this`runFile
    {
      runFile.Some? && forall i :: 0 <= i < |pages| ==> PageOk(pages[i], runFile.value)
    }

    /** The first record of run `k` of the next group. */
    ghost function StartOf(k: nat): nat
      reads this`groupStart, this`runWidth, this`records
    {
      Min(groupStart + k * runWidth, records)
    }

    /** A page can be asked for the head of run `k`. */
    ghost predicate PageReady(page: ReadPage<Descriptor>, k: nat)
      reads this`runFile, this`groupStart, this`runWidth, this`records
    {
      && runFile.Some?
      && if StartOf(k) < records then MayAsk(page, runFile.value, StartOf(k)) else PageOk(page, runFile.value)
    }

    ghost predicate PagesReady()
      reads this`pages, this`runFile, this`groupStart, this`runWidth, this`records
    {
      runFile.Some? && forall k :: 0 <= k < |pages| ==> PageReady(pages[k], k)
    }

    lemma OkIsReady()
      requires PagesOk()
      ensures PagesReady()
    {
      forall k | 0 <= k < |pages|
        ensures PageReady(pages[k], k)
      {
        Asks(pages[k], runFile.value, StartOf(k));
      }
    }

    /** A group takes every run, or as many as can be merged at a time. */
    ghost predicate GroupSize()
      reads this`pages, this`runWidth, this`records
    {
      |pages| <= fanIn && (|pages| == fanIn || |pages| * runWidth >= records)
    }

    /** The comparison is of the heads of the two runs a node's children name. */
    ghost predicate NodePending()
      reads this`tree, this`comparison, ComparisonParts()
    {
      && tree.Shaped() && (tree.stage.Build? || tree.stage.Replay?) && 1 <= tree.stage.node < tree.leaves
      && var l, r := tree.nodes[2 * tree.stage.node], tree.nodes[2 * tree.stage.node + 1];
      && l < |tree.heads| && r < |tree.heads| && tree.heads[l].Some? && tree.heads[r].Some?
      && Comparing(tree.heads[l].value, tree.heads[r].value)
    }

    ghost predicate GroupState()
      reads this`tree, this`comparison, ComparisonParts(), this`groupStart, this`runFile, this`passFile, this`runWidth
    {
      && runFile.Some? && passFile.Some? && |tree.heads| == fanIn && tree.leaves > 1
      && WT.Valid(LeOf(env), tree)
      && Passes.GroupOk(LeOf(env), runFile.value, passFile.value, runWidth, runWidth * fanIn, groupStart, tree)
      && (comparison != null ==> NodePending())
    }

    /** Only runs with a page of their own have heads. */
    ghost predicate UnusedRuns()
      reads this`tree, this`pages
    {
      forall r :: |pages| <= r < |tree.heads| ==> tree.heads[r].None?
    }

    ghost predicate IdleState()
      reads this`tree, this`comparison, this`groupStart, this`runFile, this`passFile, this`runWidth, this`records,
            this`pages
    {
      && runFile.Some? && passFile.Some? && comparison == null && IdleTree(tree, records, |pages|)
      && groupStart == |passFile.value|
      && Passes.PassOk(LeOf(env), runFile.value, passFile.value, runWidth, runWidth * fanIn)
    }

    ghost predicate MergingOk()
      reads this`runFile, this`runClaimed, this`records, this`scanner, this`locator, this`builder, this`inverseBuilder,
            this`comparison, this`runWidth, this`pass, this`passes, this`uncreated, this`pages, this`tree,
            this`groupStart, this`passFile, this`passClaimed, ComparisonParts()
    {
      && ConfigOk() && Idle() && OnDisk() && GroupSize() && Claims() && PassCount()
      && 0 < passes && 0 < runWidth == WidthAfter(passes - 1) < records
      && 1 <= |pages| && passFile.Some? && passClaimed == |passFile.value|
      && (if tree.stage.Idle? then IdleState() && PagesReady() else GroupState() && UnusedRuns() && PagesOk())
    }

    /** Extraction is over: every record is on disk in runs of one batch. */
    lemma ExtractionDone()
      requires ExtractingOk() && scanner == null && !HasPending() && batch == []
      ensures ReadyOk()
    {
      hide Runs, FullRuns, LeOf, AllDescriptors, PageOk;
      assert ToCome() == [];
      assert AllDescriptors(env)[records..] == [];
      assert AllDescriptors(env)[..records] == AllDescriptors(env);
      CountDescriptors(env);
      CountBounded(env);
      assert WidthAfter(0) == batchCapacity * 1;
    }

    lemma EmptyTreeStarts(file: seq<Descriptor>, was: WT.Tree<Descriptor>, t: WT.Tree<Descriptor>)
      requires IdleTree(was, records, |pages|) && groupStart <= |file| == records && |pages| <= fanIn
      requires t == was.(nodes := t.nodes) && |t.nodes| == |was.nodes|
      requires forall i :: 0 <= i < |t.nodes| ==> t.nodes[i] == WT.EMPTY
      requires passFile.Some? && groupStart == |passFile.value|
      requires Passes.PassOk(LeOf(env), file, passFile.value, runWidth, runWidth * fanIn)
      ensures Passes.Starting(LeOf(env), file, t, runWidth, groupStart, 0, groupStart, |pages|)
      ensures t.Shaped() && t.leaves > 1 && t.stage.Idle? && |t.heads| == fanIn
    {
      hide Runs, FullRuns, LeOf;
      assert file[groupStart..groupStart] == [];
    }

    /** Reads the record at `start` of run `k`, if the run has one. A load that
        fails leaves a page that can be asked for it again. */
    method LoadRun(k: nat, start: nat, end: nat, load: Option<Fault<Descriptor>>)
      returns (r: Result<Option<Descriptor>>)
      requires runFile.Some? && Claims() && k < |pages| && start <= end <= |runFile.value|
      requires if start < end then MayAsk(pages[k], runFile.value, start) else PageOk(pages[k], runFile.value)
      modifies this`pages
      ensures |pages| == old(|pages|) && forall i :: 0 <= i < |pages| && i != k ==> pages[i] == old(pages)[i]
      ensures r.Ok? ==> PageOk(pages[k], runFile.value)
      ensures r.Ok? ==> r.value == if start < end then Some(runFile.value[start]) else None
      ensures r.Err? ==> start < end && MayAsk(pages[k], runFile.value, start)
      ensures r.Err? ==> (r.error == ScratchIo && load.Some?) || (r.error == InvalidScratch && Excess())
    {
      hide PageOk, MayAsk;
      if start >= end {
        return Ok(None);
      }
      var d, page := Record(pages[k], runFile.value, runClaimed, start, load);
      pages := pages[k := page];
      if d.Err? {
        Unreadable(runFile.value, runClaimed, start);
        return Err(d.error);
      }
      r := Ok(Some(d.value));
    }

    /** Sets up run `k`: its bounds first, then its head. */
    method SetUpRun(k: nat, start: nat, end: nat, load: Option<Fault<Descriptor>>) returns (r: Result<()>)
      requires runFile.Some? && Claims() && k < |pages| <= |tree.heads| == fanIn && |runFile.value| == records
      requires Passes.Starting(LeOf(env), runFile.value, tree, runWidth, groupStart, k, start, |pages|)
      requires start <= end == Min(start + runWidth, records)
      requires if start < end then MayAsk(pages[k], runFile.value, start) else PageOk(pages[k], runFile.value)
      modifies this`tree, this`pages
      ensures |pages| == old(|pages|) && forall i :: 0 <= i < |pages| && i != k ==> pages[i] == old(pages)[i]
      ensures r.Ok? ==> PageOk(pages[k], runFile.value)
      ensures r.Ok? ==> Passes.Starting(LeOf(env), runFile.value, tree, runWidth, groupStart, k + 1, end, |pages|)
      ensures tree.leaves == old(tree.leaves) && tree.stage == old(tree.stage)
      ensures r.Ok? ==> tree.Shaped() && |tree.heads| == fanIn
      ensures r.Err? ==> start < end && MayAsk(pages[k], runFile.value, start) && IdleTree(tree, records, |pages|)
      ensures r.Err? ==> (r.error == ScratchIo && load.Some?) || (r.error == InvalidScratch && Excess())
    {
      hide LeOf, PageOk, MayAsk, Runs, WT.RunOk, WT.AllUnread, Passes.LeafStarted, Claims, Excess;
      ghost var before := tree;
      tree := tree.(next := tree.next[k := start], end := tree.end[k := end]);
      var head := LoadRun(k, start, end, load);
      if head.Err? {
        return Err(head.error);
      }
      Passes.StartRun(LeOf(env), runFile.value, before, runWidth, groupStart, k, start, |pages|);
      tree := tree.(heads := tree.heads[k := head.value],
                    nodes := if head.value.Some? then tree.nodes[tree.leaves + k := k] else tree.nodes);
      assert tree == Passes.WithRun(before, k, start, end, head.value);
      r := Ok(());
    }

    /** Names the runs of the next group and loads their heads, one after another. */
    method LoadHeads(fault: Option<ScratchFault>) returns (r: Result<()>, start: nat)
      requires PagesReady() && Claims() && |runFile.value| == records && groupStart <= records && 0 < runWidth
      requires tree.Shaped() && tree.leaves > 1 && tree.stage.Idle? && 1 <= |pages| <= fanIn == |tree.heads|
      requires Passes.Starting(LeOf(env), runFile.value, tree, runWidth, groupStart, 0, groupStart, |pages|)
      modifies this`tree, this`pages
      ensures |pages| == old(|pages|) && tree.leaves == old(tree.leaves)
      ensures r.Ok? ==> PagesOk() && groupStart <= start == StartOf(|pages|) && |tree.heads| == fanIn
      ensures r.Ok? ==> tree.Shaped() && tree.stage.Idle?
      ensures r.Ok? ==>
                Passes.Starting(LeOf(env), runFile.value, tree, runWidth, groupStart, |pages|, start, |pages|)
      ensures r.Err? ==> PagesReady() && IdleTree(tree, records, |pages|) && tree.stage.Idle?
      ensures r.Err? ==>
                || (fault.Some? && fault.value.HeadLoad? && r.error == ErrorOf(fault.value))
                || (r.error == InvalidScratch && Excess())
    {
      hide LeOf, PageOk, MayAsk, Passes.Starting, IdleTree, StartOf, Excess, Claims;
      NextRunStart(0);
      start := groupStart;
      var run := 0;
      while run < |pages|
        invariant run <= |pages| == old(|pages|) && |tree.heads| == fanIn
        invariant forall i :: 0 <= i < run ==> PageOk(pages[i], runFile.value)
        invariant forall i :: run <= i < |pages| ==> PageReady(pages[i], i)
        invariant groupStart <= start <= records && start == StartOf(run)
        invariant tree.Shaped() && tree.leaves == old(tree.leaves) && tree.stage.Idle?
        invariant Passes.Starting(LeOf(env), runFile.value, tree, runWidth, groupStart, run, start, |pages|)
      {
        var end := Min(start + runWidth, records);
        assert PageReady(pages[run], run);
        var fails := fault.Some? && fault.value.HeadLoad? && fault.value.run == run;
        var load := if fails then Some(fault.value.load) else None;
        r := SetUpRun(run, start, end, load);
        if r.Err? {
          ReadyAgain(run);
          return;
        }
        NextRunStart(run);
        start := end;
        run := run + 1;
      }
      r := Ok(());
    }

    /** Loads the heads of the next group and turns to building the tree over
        them. A load that fails can be made again, all heads anew. */
    method StartGroup(fault: Option<ScratchFault>) returns (r: Result<()>)
      requires MergingOk() && tree.stage.Idle? && groupStart < records
      modifies this`tree, this`pages
      ensures MergingOk() && tree.leaves == old(tree.leaves)
      ensures r.Ok? ==> tree.stage.Build? && tree.stage.node < tree.leaves
      ensures r.Err? ==> tree.stage.Idle?
      ensures r.Err? ==>
                || (fault.Some? && fault.value.HeadLoad? && r.error == ErrorOf(fault.value))
                || (r.error == InvalidScratch && Excess())
    {
      hide Runs, FullRuns, LeOf, AllDescriptors, PageReady, PageOk, WidthAfter, OnDisk, Idle;
      hide Passes.PassOk, Passes.Starting, Passes.GroupOk, WT.Valid, Claims, Excess, PassCount, ConfigOk;
      hide StartOf, PagesOk, PagesReady, NodePending, Comparing, ErrorOf, IdleTree;
      FileLength();
      ghost var before := tree;
      tree := tree.(nodes := seq(|tree.nodes|, _ => WT.EMPTY));
      EmptyTreeStarts(runFile.value, before, tree);
      var start;
      r, start := LoadHeads(fault);
      if r.Err? {
        return;
      }
      GroupBegins(start);
      tree := tree.(groupEnd := start, stage := WT.Build(tree.leaves - 1));
    }

    lemma GroupBegins(start: nat)
      requires GroupSize() && 1 <= |pages| && 0 < runWidth && groupStart < records && start == StartOf(|pages|)
      requires runFile.Some? && |runFile.value| == records && passFile.Some? && groupStart == |passFile.value|
      requires Passes.PassOk(LeOf(env), runFile.value, passFile.value, runWidth, runWidth * fanIn)
      requires Passes.Starting(LeOf(env), runFile.value, tree, runWidth, groupStart, |pages|, start, |pages|)
      ensures tree.leaves > 1 && UnusedRuns()
      ensures var built := tree.(groupEnd := start, stage := WT.Build(tree.leaves - 1));
              && WT.Valid(LeOf(env), built)
              && Passes.GroupOk(LeOf(env), runFile.value, passFile.value, runWidth, runWidth * fanIn, groupStart, built)
    {
      hide Runs, FullRuns, LeOf, Passes.PassOk, Passes.Starting, Passes.GroupOk, WT.Valid;
      GroupWidth(start, |pages|);
      StartedRuns(runFile.value, |pages|, start);
      Passes.GroupStarts(LeOf(env), runFile.value, passFile.value, tree, runWidth, runWidth * fanIn, |pages|, start);
    }

    /** With the pages before `run` loaded and its own ready, all are ready. */
    lemma ReadyAgain(run: nat)
      requires runFile.Some? && run < |pages| && StartOf(run) < records
      requires forall i :: 0 <= i < run ==> PageOk(pages[i], runFile.value)
      requires MayAsk(pages[run], runFile.value, StartOf(run))
      requires forall i :: run < i < |pages| ==> PageReady(pages[i], i)
      ensures PagesReady()
    {
      hide PageOk, MayAsk, StartOf;
      forall i | 0 <= i < |pages|
        ensures PageReady(pages[i], i)
      {
        if i < run {
          Asks(pages[i], runFile.value, StartOf(i));
        }
      }
    }

    lemma StartedRuns(file: seq<Descriptor>, run: nat, start: nat)
      requires Passes.Starting(LeOf(env), file, tree, runWidth, groupStart, run, start, run)
      ensures tree.leaves > 1 && forall r :: run <= r < |tree.heads| ==> tree.heads[r].None?
    {}

    lemma FileLength()
      requires OnDisk()
      ensures |runFile.value| == records
    {
      hide AllDescriptors;
      assert |multiset(runFile.value)| == |runFile.value|;
      assert |multiset(AllDescriptors(env))| == |AllDescriptors(env)|;
    }

    lemma NextRunStart(run: nat)
      ensures groupStart <= records ==> StartOf(0) == groupStart
      ensures StartOf(run + 1) == Min(StartOf(run) + runWidth, records)
    {
      assert (run + 1) * runWidth == run * runWidth + runWidth;
    }

    /** A group is as wide as a group can be, or reaches the end. */
    lemma GroupWidth(start: nat, run: nat)
      requires GroupSize() && run == |pages| >= 1 && runWidth > 0 && groupStart < records
      requires start == Min(groupStart + run * runWidth, records)
      ensures groupStart < start && start - groupStart <= runWidth * fanIn
      ensures start < records ==> start - groupStart == runWidth * fanIn
    {
      assert run * runWidth >= 1 * runWidth;
      assert run * runWidth <= fanIn * runWidth;
    }

    /** A run's head is a truthful descriptor. */
    lemma HeadDescribed(r: nat)
      requires OnDisk() && GroupState() && r < |tree.heads| && tree.heads[r].Some?
      ensures Describes(env, tree.heads[r].value)
    {
      hide AllDescriptors, Describes, Runs, FullRuns, Sorted, AllBefore, WT.AllUnread, WT.Valid;
      var file := runFile.value;
      assert WT.RunOk(LeOf(env), file, tree, r);
      var d := tree.heads[r].value;
      assert d == file[tree.next[r]];
      assert d in multiset(file);
      Member(env, d);
    }

    /** A node's children name runs that have heads, or none. */
    lemma ChildrenNamed()
      requires WT.Valid(LeOf(env), tree) && (tree.stage.Build? || tree.stage.Replay?)
      ensures tree.Shaped() && 1 <= tree.stage.node < tree.leaves
      ensures WT.Named(tree, 2 * tree.stage.node) && WT.Named(tree, 2 * tree.stage.node + 1)
    {
      hide LeOf, WT.Named, WT.NodeOk, WT.LeafOk;
      WT.ChildNamed(LeOf(env), tree, 2 * tree.stage.node);
      WT.ChildNamed(LeOf(env), tree, 2 * tree.stage.node + 1);
    }

    /** The node at hand is won by run `w`. */
    ghost predicate WonBy(w: nat)
      reads this`tree
    {
      && tree.Shaped() && (tree.stage.Build? || tree.stage.Replay?) && 1 <= tree.stage.node < tree.leaves
      && w == WT.Winner(LeOf(env), tree.heads, tree.nodes[2 * tree.stage.node], tree.nodes[2 * tree.stage.node + 1])
    }

    /** The winner of one node's two children, if the budget allows. */
    method Play(budget: nat, calm: bool) returns (r: Result<Option<nat>>, left: nat)
      requires OnDisk() && GroupState() && (tree.stage.Build? || tree.stage.Replay?)
      modifies this`comparison, ComparisonParts()
      ensures left <= budget
      ensures r.Ok? ==> fresh(ComparisonParts() - old(ComparisonParts()))
      ensures r.Ok? && r.value.Some? ==> comparison == null && WonBy(r.value.value)
      ensures r.Ok? && r.value.None? ==>
                left == 0 && comparison != null && NodePending() && (budget > 0 ==> 0 <= Unread() < old(Unread()))
      ensures r.Err? ==>
                && !calm && SourceError(r.error) && fresh(ComparisonParts() - old(ComparisonParts()))
                && comparison != null && NodePending()
    {
      hide AllDescriptors, Describes, Order, WT.Valid, Passes.GroupOk, Comparison.Valid, Comparison.Remaining;
      left := budget;
      ChildrenNamed();
      var k := tree.stage.node;
      var l, rt := tree.nodes[2 * k], tree.nodes[2 * k + 1];
      if l == WT.EMPTY {
        return Ok(Some(rt)), left;
      }
      if rt == WT.EMPTY {
        return Ok(Some(l)), left;
      }
      HeadDescribed(l);
      HeadDescribed(rt);
      var order;
      order, left := Compare(tree.heads[l].value, tree.heads[rt].value, budget, calm);
      if order.Err? {
        return Err(order.error), left;
      }
      if order.value.None? {
        return Ok(None), left;
      }
      r := Ok(Some(if order.value.value == Greater then rt else l));
    }

    /** Plays the node at hand and moves to the next. */
    method PlayNode(budget: nat, calm: bool) returns (r: Result<()>, left: nat)
      requires MergingOk() && (tree.stage.Build? || tree.stage.Replay?)
      modifies this`tree, this`comparison, ComparisonParts()
      ensures left <= budget
      ensures r.Ok? ==> MergingOk() && fresh(ComparisonParts() - old(ComparisonParts())) && !tree.stage.Idle?
      ensures r.Ok? && tree == old(tree) ==> left == 0 && (budget > 0 ==> 0 <= Unread() < old(Unread()))
      ensures r.Ok? && tree != old(tree) ==>
                tree.leaves == old(tree.leaves) &&
                (tree.stage.Emit? || (!tree.stage.Emit? && tree.stage.node < old(tree.stage.node)))
      ensures r.Err? ==>
                && !calm && SourceError(r.error) && MergingOk() && fresh(ComparisonParts() - old(ComparisonParts()))
                && tree == old(tree)
    {
      hide AllDescriptors, Describes, WT.Valid, WT.Winner, Passes.GroupOk, Comparing, Unread;
      hide OnDisk, PagesOk, GroupSize, WidthAfter, LeOf, Idle, ConfigOk;
      hide Claims, PassCount, NodePending;
      var winner;
      winner, left := Play(budget, calm);
      if winner.Err? {
        return Err(winner.error), left;
      }
      if winner.value.None? {
        return Ok(()), left;
      }
      WT.PlayKeepsValid(LeOf(env), tree);
      ghost var before := tree;
      tree := WT.AfterPlay(tree, winner.value.value);
      Passes.GroupOfRuns(LeOf(env), runFile.value, passFile.value, runWidth, runWidth * fanIn, groupStart, before,
        tree);
      r := Ok(());
    }

    lemma EmitReady()
      requires GroupState() && tree.stage.Emit?
      ensures tree.Shaped() && comparison == null && runFile.Some? && passFile.Some?
    {}

    /** The root names a run whose head is gone, or the pass file is. Neither can
        be mended: every further turn is refused. */
    ghost predicate Stuck()
      reads this`phase, this`tree, this`groupStart, this`records, this`passFile
    {
      && ConfigOk() && phase == Merging
      && if tree.stage.Idle? then groupStart == records && passFile.None? else Headless()
    }

    ghost predicate Headless()
      reads this`tree
    {
      && tree.stage.Emit? && 1 < |tree.nodes| && tree.nodes[1] < |tree.heads|
      && tree.nodes[1] != WT.EMPTY && tree.heads[tree.nodes[1]].None?
    }

    lemma StuckIsNotValid()
      requires Stuck()
      ensures !MergingOk()
    {
      hide AllDescriptors, LeOf, PageOk, Runs, FullRuns, WT.AllUnread, Passes.GroupOk, Passes.PassOk, WT.Valid;
      RootHasHead();
    }

    /** The root names a run with a head, or none. */
    lemma RootHasHead()
      ensures MergingOk() && tree.stage.Emit? ==>
                && 1 < |tree.nodes| && comparison == null
                && (tree.nodes[1] == WT.EMPTY ||
                    (tree.nodes[1] < |tree.heads| && tree.heads[tree.nodes[1]].Some?))
    {
      hide AllDescriptors, LeOf, PageOk, Runs, FullRuns, WT.AllUnread, Passes.GroupOk, Passes.PassOk, WidthAfter;
      hide OnDisk, PagesOk, Idle, ConfigOk, GroupSize, Claims;
      if MergingOk() && tree.stage.Emit? {
        assert WT.Named(tree, 1);
      }
    }

    /** Takes the head of a run and writes it. */
    method WriteHead(run: nat, fault: Option<ScratchFault>) returns (r: Result<()>)
      requires run < |tree.heads| && tree.heads[run].Some? && passFile.Some? && passClaimed == |passFile.value|
      modifies this`tree, this`passFile, this`passClaimed
      ensures tree == old(tree).(heads := old(tree.heads)[run := None])
      ensures r.Ok? ==> passFile == Some(old(passFile.value) + [old(tree.heads[run].value)])
      ensures r.Ok? ==> passClaimed == |passFile.value|
      ensures r.Err? <==> fault.Some? && fault.value.MergedWrite?
      ensures r.Err? ==> r.error == ErrorOf(fault.value)
    {
      var d := tree.heads[run].value;
      tree := tree.(heads := tree.heads[run := None]);
      var how := if fault.Some? && fault.value.MergedWrite? then Some(fault.value.how) else None;
      var file;
      r, file, passClaimed := Append(passFile.value, passClaimed, d, how);
      if r.Ok? {
        passFile := Some(file);
      }
    }

    /** Loads the next head of a run whose head was written. */
    method LoadNext(run: nat, fault: Option<ScratchFault>) returns (r: Result<()>)
      requires PagesOk() && Claims() && tree.Shaped() && tree.leaves > 1 && run < |pages| <= |tree.heads|
      requires tree.next[run] < tree.end[run] <= |runFile.value|
      modifies this`tree, this`pages
      ensures |pages| == old(|pages|)
      ensures r.Ok? ==> PagesOk()
      ensures r.Ok? ==>
                var k := old(tree.next[run]) + 1;
                tree == WT.AfterEmit(old(tree), run, if k < old(tree.end[run]) then Some(runFile.value[k]) else None)
      ensures r.Err? ==> tree == old(tree).(next := tree.next)
      ensures r.Err? ==>
                || (fault.Some? && fault.value.NextLoad? && r.error == ErrorOf(fault.value))
                || (r.error == InvalidScratch && Excess())
    {
      hide PageOk, MayAsk;
      tree := tree.(next := tree.next[run := tree.next[run] + 1]);
      Asks(pages[run], runFile.value, tree.next[run]);
      var load := if fault.Some? && fault.value.NextLoad? then Some(fault.value.load) else None;
      var head := LoadRun(run, tree.next[run], tree.end[run], load);
      if head.Err? {
        return Err(head.error);
      }
      tree := tree.(heads := tree.heads[run := head.value],
                    nodes := tree.nodes[tree.leaves + run := if head.value.Some? then run else WT.EMPTY],
                    stage := WT.Replay((tree.leaves + run) / 2));
      r := Ok(());
    }

    /** The head of run `k` once its head now is written. */
    ghost function HeadAfter(k: nat): Option<Descriptor>
      reads this`tree, this`runFile
      requires tree.Shaped() && k < |tree.heads| && runFile.Some? && tree.end[k] <= |runFile.value|
    {
      if tree.next[k] + 1 < tree.end[k] then Some(runFile.value[tree.next[k] + 1]) else None
    }

    /** Writes the head of a run and loads its next one. */
    method EmitHead(run: nat, fault: Option<ScratchFault>) returns (r: Result<()>)
      requires PagesOk() && Claims() && tree.Shaped() && tree.leaves > 1 && run < |pages| <= |tree.heads|
      requires tree.heads[run].Some? && tree.next[run] < tree.end[run] <= |runFile.value|
      requires passFile.Some? && passClaimed == |passFile.value|
      modifies this`tree, this`pages, this`passFile, this`passClaimed
      ensures |pages| == old(|pages|)
      ensures r.Ok? ==> PagesOk() && tree == WT.AfterEmit(old(tree), run, old(HeadAfter(run)))
      ensures r.Ok? ==> passFile == Some(old(passFile.value) + [old(tree.heads[run].value)])
      ensures r.Ok? ==> passClaimed == |passFile.value|
      ensures r.Err? ==>
                tree.nodes == old(tree.nodes) && tree.stage == old(tree.stage)
                && |tree.heads| == |old(tree.heads)| && tree.heads[run].None?
      ensures fault.Some? && fault.value.MergedWrite? ==> r == Err(ErrorOf(fault.value))
      ensures r.Err? ==>
                || (&& fault.Some? && (fault.value.MergedWrite? || fault.value.NextLoad?)
                    && r.error == ErrorOf(fault.value))
                || (r.error == InvalidScratch && Excess())
    {
      hide PageOk;
      ghost var before := tree;
      r := WriteHead(run, fault);
      if r.Ok? {
        r := LoadNext(run, fault);
        assert r.Ok? ==> tree == WT.AfterEmit(before, run, old(HeadAfter(run)));
      }
    }

    lemma WinnerEmits()
      requires GroupState() && UnusedRuns() && tree.stage.Emit? && tree.nodes[1] != WT.EMPTY
      ensures comparison == null && tree.Shaped() && tree.nodes[1] < |tree.heads| && tree.nodes[1] < |pages|
      ensures var run := tree.nodes[1];
              && tree.heads[run].Some? && tree.next[run] < tree.end[run] <= |runFile.value|
              && var t := WT.AfterEmit(tree, run, HeadAfter(run));
              && WT.Valid(LeOf(env), t) && t.Shaped() && (t.leaves + run) / 2 < t.leaves
              && Passes.GroupOk(LeOf(env), runFile.value, passFile.value + [tree.heads[run].value], runWidth,
                   runWidth * fanIn, groupStart, t)
              && forall r :: |pages| <= r < |t.heads| ==> t.heads[r].None?
    {
      hide WT.Valid, Passes.GroupOk, NodePending, LeOf, TotalPreorder;
      LeIsTotal(env);
      EmitReady();
      Passes.GroupEmits(LeOf(env), runFile.value, passFile.value, runWidth, runWidth * fanIn, groupStart, tree);
    }

    /** Writes the winner and loads the next record of its run. When either fails
        the winner is gone. */
    method EmitOne(budget: nat, fault: Option<ScratchFault>) returns (r: Result<()>, left: nat)
      requires phase == Merging && MergingOk() && tree.stage.Emit? && tree.nodes[1] != WT.EMPTY
      modifies this`tree, this`pages, this`passFile, this`passClaimed
      ensures left == Spend(budget, 128)
      ensures r.Ok? ==> MergingOk() && comparison == null && tree.stage.Replay? && tree.leaves == old(tree.leaves)
      ensures r.Ok? ==> passFile.Some? && old(passFile.Some?) && |passFile.value| == |old(passFile.value)| + 1
      ensures r.Ok? ==> tree.stage.node < tree.leaves
      ensures fault.Some? && fault.value.MergedWrite? ==> r == Err(ErrorOf(fault.value))
      ensures r.Err? ==> Stuck()
      ensures r.Err? ==>
                || (&& fault.Some? && (fault.value.MergedWrite? || fault.value.NextLoad?)
                    && r.error == ErrorOf(fault.value))
                || (r.error == InvalidScratch && Excess())
    {
      hide AllDescriptors, WT.Valid, Passes.GroupOk, NodePending, Comparing, LeOf, Idle, WidthAfter, Claims;
      hide PagesOk, OnDisk, PassCount, ConfigOk, ErrorOf, Excess, HeadAfter;
      left := Spend(budget, 128);
      WinnerEmits();
      r := EmitHead(tree.nodes[1], fault);
    }

    lemma TwoRunsMerging(file: seq<Descriptor>, winner: nat)
      requires |file| == 2 && file == AllDescriptors(env) && batchCapacity == 1 && fanIn == 2 && ConfigOk() && Idle()
      requires comparison == null && records == 2 && runWidth == 1 && groupStart == 0 && pass == passes == 1
      requires uncreated == 0 && runFile == Some(file) && runClaimed == 2 && passFile == Some([]) && passClaimed == 0
      requires pages == [EmptyPage(), EmptyPage()] && tree == TwoRunTree(file, winner)
      requires Sortable(records) && WT.Valid(LeOf(env), tree) && Passes.GroupOk(LeOf(env), file, [], 1, 2, 0, tree)
      ensures MergingOk()
    {
      hide AllDescriptors, Sortable, LeOf, WT.Valid, Passes.GroupOk;
      assert WidthAfter(0) == 1 * Power(2, 0);
    }

    /** The group is written; the next one starts where it ended. */
    method EndGroup()
      requires MergingOk() && tree.stage.Emit? && tree.nodes[1] == WT.EMPTY
      modifies this`tree, this`groupStart
      ensures MergingOk() && tree.stage.Idle? && groupStart > old(groupStart) && passFile.Some? &&
                tree.leaves == old(tree.leaves)
    {
      hide AllDescriptors, WT.Valid, Passes.PassOk, Comparing, LeOf, Idle, ConfigOk, PageOk, WidthAfter, TotalPreorder;
      hide Runs, FullRuns, Sorted, AllBefore, WT.AllUnread;
      LeIsTotal(env);
      EmitReady();
      FileLength();
      Passes.GroupEnds(LeOf(env), runFile.value, passFile.value, runWidth, runWidth * fanIn, groupStart, tree);
      assert WT.InBounds(runFile.value, tree);
      groupStart := tree.groupEnd;
      tree := tree.(stage := WT.Idle);
      OkIsReady();
    }

    /** The pass is written: its file holds the runs now. */
    method EndPass()
      requires MergingOk() && tree.stage.Idle? && groupStart == records
      modifies this`runFile, this`runClaimed, this`passFile, this`passClaimed, this`runWidth
      ensures ReadyOk() && runWidth > old(runWidth) && passFile.None? && !Excess()
      ensures runFile == old(passFile) && |runFile.value| == records && runWidth == Min(old(runWidth) * fanIn, U64_MAX)
    {
      hide AllDescriptors, LeOf, Idle, PagesReady, Runs, FullRuns, WidthAfter, Passes.PassOk, GroupSize;
      FileLength();
      NextWidth();
      PageCount();
      PassWritten(LeOf(env), runFile.value, passFile.value, runWidth, runWidth * fanIn);
      runFile, runClaimed := passFile, passClaimed;
      passFile, passClaimed := None, 0;
      runWidth := Min(runWidth * fanIn, U64_MAX);
    }

    lemma PageCount()
      requires GroupSize()
      ensures |pages| <= fanIn
    {}

    lemma NextWidth()
      requires ConfigOk() && passes > 0 && 0 < runWidth == WidthAfter(passes - 1) < U64_MAX
      ensures runWidth * fanIn == WidthAfter(passes)
      ensures Min(runWidth * fanIn, U64_MAX) > runWidth
    {
      hide Power;
      WiderRuns(batchCapacity, fanIn, passes - 1);
      AtLeastTwice(runWidth, fanIn);
    }

    lemma PassWritten(le: (Descriptor, Descriptor) -> bool, file: seq<Descriptor>, p: seq<Descriptor>, width: nat,
                      wide: nat)
      requires Passes.PassOk(le, file, p, width, wide) && |p| == |file| <= U64_MAX
      ensures Runs(le, p, Min(wide, U64_MAX)) && multiset(p) == multiset(file)
    {
      assert file[..|p|] == file;
      if wide > U64_MAX {
        WideRun(le, p, wide, U64_MAX);
      }
    }

    // ------------------------------------------------------------------- maps

    /** Passes made are enough, and one fewer would not have been. */
    ghost predicate PassesUsed()
      reads this`passes, this`records
    {
      records <= WidthAfter(passes) && PassNeeded()
    }

    /** The maps hold the first `inverseAt` ranks of the sorted file. */
    ghost predicate MapsSoFar()
      reads this`sorted, this`order, this`inverseAt, this`inverseBuilder, inverseBuilder, this`records, this`inverse
    {
      && inverseBuilder != null && inverseBuilder.records == records == |inverse| == |sorted|
      && inverseAt == |order| == |inverseBuilder.pushed| <= records
      && (forall r :: 0 <= r < inverseAt ==> order[r] == EntryOf(sorted[r]))
      && (forall r :: 0 <= r < inverseAt ==> inverseBuilder.pushed[r] == Inverse.Pair(sorted[r].row, r))
    }

    ghost predicate SortedFile()
      reads this`sorted, this`records
    {
      && records == |AllDescriptors(env)| && Sortable(records)
      && Sorted(LeOf(env), sorted) && multiset(sorted) == multiset(AllDescriptors(env))
    }

    ghost predicate BuildingOk()
      reads this`sorted, this`order, this`inverseAt, this`inverseBuilder, inverseBuilder, this`records, this`inverse,
            this`runFile, this`runClaimed, this`pages, this`pass, this`passes, this`uncreated, this`comparison,
            this`scanner, this`locator, this`builder
    {
      && ConfigOk() && comparison == null && scanner == null && locator == null && builder == null
      && SortedFile() && MapsSoFar() && PassesUsed() && PassCount() && Claims()
      && match runFile
         case Some(file) =>
           && file == sorted && 1 <= |pages| && (inverseAt < records ==> MayAsk(pages[0], sorted, inverseAt))
           && inverseBuilder.Collecting()
         case None =>
           inverseAt == records && inverseBuilder.Placing(inverse)
    }

    /** The sort is done: the order map is the source's sorted order and the
        inverse map undoes it. */
    ghost predicate CompleteOk()
      reads this`order, this`inverse, this`records, this`pass, this`passes, this`uncreated, this`comparison,
        this`scanner, this`locator, this`builder, this`inverseBuilder
    {
      && ConfigOk() && comparison == null && scanner == null && locator == null && builder == null &&
         inverseBuilder == null
      && IsSorted(env, order) && PassesUsed() && PassCount() && Sortable(records)
      && records == |order| == |inverse|
      && (forall r :: 0 <= r < |order| ==> order[r].row < |inverse| && inverse[order[r].row] == r)
    }

    lemma LastRunIsSorted()
      requires ReadyOk() && records <= runWidth
      ensures runFile.Some? && |runFile.value| == records == |AllDescriptors(env)| <= U64_MAX
      ensures Sorted(LeOf(env), runFile.value) && multiset(runFile.value) == multiset(AllDescriptors(env))
      ensures ConfigOk() && Idle() && comparison == null && PassesUsed() && PassCount() && Claims() && Sortable(records)
    {
      hide Sortable, AllDescriptors, LeOf, WidthAfter, IdleTree, PassNeeded;
      FileLength();
      WideRun(LeOf(env), runFile.value, runWidth, runWidth);
    }

    /** The merge is over: its one run is the sorted file. What sorting needed is
        freed before the maps are made, also when they cannot be. */
    method BeginMaps(fault: Option<ScratchFault>) returns (r: Result<()>)
      requires ReadyOk() && records <= runWidth
      modifies this`batch, this`alternate, this`pages, this`tree, this`order, this`inverse, this`inverseAt,
               this`inverseBuilder, this`sorted, this`phase
      ensures r.Ok? ==> BuildingOk() && phase == BuildingInverse && fresh(inverseBuilder) && inverseAt == 0
      ensures r.Err? ==> fault.Some? && fault.value.MapsCreate? && r.error == ErrorOf(fault.value)
      ensures r.Err? ==>
                batch == [] && |pages| == 1 && tree.stage.Idle? && phase == old(phase) && inverseBuilder == null
    {
      hide AllDescriptors, LeOf, ReadyOk, ConfigOk, PassesUsed, Sorted, MapsSoFar, Inverse.InverseBuilder.Collecting;
      hide Sortable;
      hide Inverse.InverseBuilder.Placing, PassCount, Claims;
      LastRunIsSorted();
      batch, alternate, pages := [], [], [EmptyPage()];
      tree := WT.Tree(1, [WT.EMPTY, WT.EMPTY], [None], [0], [0], 0, WT.Idle);
      if fault.Some? && fault.value.MapsCreate? {
        return Err(fault.value.error);
      }
      EmptyMaps();
      NoRanks();
      r := Ok(());
    }

    /** Creates the maps' files and buckets. */
    method EmptyMaps()
      requires runFile.Some? && records <= U64_MAX
      modifies this`order, this`inverse, this`inverseAt, this`inverseBuilder, this`sorted, this`phase
      ensures order == [] && |inverse| == records && inverseAt == 0
      ensures inverseBuilder != null && fresh(inverseBuilder) && inverseBuilder.Collecting()
      ensures inverseBuilder.pushed == [] && inverseBuilder.records == records
      ensures sorted == runFile.value && phase == BuildingInverse
    {
      hide Inverse.InverseBuilder.Collecting;
      order, inverse, inverseAt := [], seq(records, _ => 0), 0;
      inverseBuilder := new Inverse.InverseBuilder(records, BUCKET_ROWS, BUCKET_PAIRS);
      sorted := runFile.value;
      phase := BuildingInverse;
    }

    lemma NoRanks()
      requires inverseBuilder != null && inverseBuilder.records == records == |inverse| == |sorted|
      requires inverseAt == 0 && order == [] && inverseBuilder.pushed == []
      ensures MapsSoFar()
    {}

    /** Starts the next merge pass, or the maps if one run is left. When that
        fails the run file and the phase are as they were. */
    method BeginDiskMerge(fault: Option<ScratchFault>) returns (r: Result<()>)
      requires ReadyOk()
      modifies this`pages, this`pass, this`passes, this`uncreated, this`passFile, this`passClaimed, this`groupStart,
               this`phase, this`tree, this`batch, this`alternate, this`order, this`inverse, this`inverseAt,
               this`inverseBuilder, this`sorted
      ensures r.Ok? && phase == Merging ==>
                MergingOk() && tree.stage.Idle? && groupStart == 0 && passFile == Some([]) && inverseBuilder == null &&
                  comparison == null
      ensures r.Ok? && phase != Merging ==> BuildingOk() && phase == BuildingInverse && fresh(inverseBuilder)
      ensures r.Err? ==> fault.Some? && StageFault(fault.value) && r.error == ErrorOf(fault.value) && NotBegun()
      ensures uncreated == old(uncreated) + if r.Err? && fault.value.PassCreate? then 1 else 0
      ensures r.Err? ==> phase == old(phase) && passFile == old(passFile) && groupStart == old(groupStart)
      ensures r.Err? ==> passes == old(passes) && (batch == [] || batch == old(batch))
      ensures r.Err? ==> tree == old(tree) || tree.stage.Idle?
      ensures r.Err? && records > runWidth ==>
                tree == old(tree) && alternate == old(alternate) && |pages| >= old(|pages|)
    {
      hide ReadyOk, MergingOk, BuildingOk;
      ReadyShape();
      if fault == Some(RunFlush) {
        return Err(ScratchIo);
      }
      if records <= runWidth {
        r := BeginMaps(fault);
      } else {
        r := BeginMergePass(fault);
      }
    }

    /** What can fail at the start of a stage. */
    predicate StageFault(fault: ScratchFault) {
      fault.RunFlush? || fault.PagesRefused? || fault.PassCreate? || fault.MapsCreate?
    }

    /** No stage was started. */
    ghost predicate NotBegun()
      reads this`comparison, this`inverseBuilder, this`pass, this`passes, this`uncreated, this`pages
    {
      comparison == null && inverseBuilder == null && PassCount() && 1 <= |pages| <= fanIn
    }

    lemma ReadyShape()
      requires ReadyOk()
      ensures NotBegun() && 2 <= fanIn && records <= U64_MAX
    {
      hide AllDescriptors, LeOf, WidthAfter, IdleTree, PassNeeded, Runs;
    }

    /** Makes as many pages as there are runs to merge at a time, counts the pass
        and creates its file. */
    method BeginMergePass(fault: Option<ScratchFault>) returns (r: Result<()>)
      requires ReadyOk() && records > runWidth
      modifies this`pages, this`pass, this`passes, this`uncreated, this`passFile, this`passClaimed, this`groupStart,
               this`phase, this`tree
      ensures r.Ok? ==> MergingOk() && phase == Merging && tree.stage.Idle? && groupStart == 0 && passFile == Some([])
      ensures r.Ok? ==> inverseBuilder == null && comparison == null && uncreated == old(uncreated)
      ensures r.Err? ==>
                && fault.Some? && (fault.value.PagesRefused? || fault.value.PassCreate?)
                && r.error == ErrorOf(fault.value) && NotBegun()
                && uncreated == old(uncreated) + if fault.value.PassCreate? then 1 else 0
      ensures r.Err? ==> phase == old(phase) && passFile == old(passFile) && groupStart == old(groupStart)
      ensures r.Err? ==> passes == old(passes) && tree == old(tree) && |pages| >= old(|pages|)
    {
      hide LeOf, Runs, WidthAfter, PassNeeded, IdleTree, Idle, OnDisk, Claims, MergingOk, PagesOk, GroupSize;
      hide Inverse.CeilDiv, ConfigOk;
      ReadyShape();
      var runs := Min(Inverse.CeilDiv(records, runWidth), fanIn);
      if |pages| < runs && fault.Some? && fault.value.PagesRefused? {
        pages := seq(Max(|pages|, Min(fault.value.made, runs - 1)), _ => EmptyPage());
        return Err(Allocation);
      }
      MorePages(runs);
      pass := pass + 1;
      if fault.Some? && fault.value.PassCreate? {
        uncreated := uncreated + 1;
        return Err(fault.value.error);
      }
      passes := passes + 1;
      NewPass();
      r := Ok(());
    }

    /** Empties the pages and adds those that are missing. */
    method MorePages(runs: nat)
      requires ReadyOk() && records > runWidth && runs == Min(Inverse.CeilDiv(records, runWidth), fanIn)
      modifies this`pages
      ensures old(|pages|) <= |pages| && ReadyOk() && PagesOk() && GroupSize()
    {
      hide AllDescriptors, LeOf, Runs, WidthAfter, Idle, Inverse.CeilDiv, PassNeeded;
      pages := seq(Max(|pages|, runs), _ => EmptyPage());
      PagesCover(|pages|, runs);
    }

    /** An empty pass file. */
    method NewPass()
      requires ConfigOk() && Idle() && comparison == null && OnDisk() && Claims() && PassCount() && PagesOk()
      requires passes > 0 && 0 < runWidth == WidthAfter(passes - 1) < records && GroupSize() && 1 <= |pages|
      requires Runs(LeOf(env), runFile.value, runWidth) && IdleTree(tree, records, |pages|)
      modifies this`passFile, this`passClaimed, this`groupStart, this`phase, this`tree
      ensures MergingOk() && phase == Merging && tree.stage.Idle? && groupStart == 0 && passFile == Some([])
    {
      hide AllDescriptors, LeOf, Runs, WidthAfter, Idle, Passes.PassOk, PageOk, PageReady;
      BeginPass(LeOf(env), runFile.value, runWidth, runWidth * fanIn);
      passFile, passClaimed, groupStart, phase := Some([]), 0, 0, Merging;
      tree := tree.(stage := WT.Idle);
      OkIsReady();
    }

    lemma PagesCover(n: nat, runs: nat)
      requires runWidth > 0 && runs == Min(Inverse.CeilDiv(records, runWidth), fanIn) && runs <= n <= fanIn
      ensures n == fanIn || n * runWidth >= records
    {
      hide Inverse.CeilDiv;
      CeilCovers(records, runWidth);
      AtLeastAsWide(runs, n, runWidth);
    }

    lemma BeginPass(le: (Descriptor, Descriptor) -> bool, file: seq<Descriptor>, width: nat, wide: nat)
      requires width > 0 && wide > 0 && Runs(le, file, width)
      ensures Passes.PassOk(le, file, [], width, wide)
    {
      assert file[0..] == file && file[..0] == [];
    }

    /** The order map has a rank more than was collected, and the bucket its pair
        is to go to has no room. */
    ghost predicate Apart()
      reads this`sorted, this`order, this`inverseAt, this`inverseBuilder, inverseBuilder
    {
      && inverseBuilder != null && inverseAt < |sorted| && |order| == inverseAt + 1
      && inverseBuilder.Full(sorted[inverseAt].row)
    }

    /** Reads the next record of the sorted file. */
    method LoadRank(fault: Option<ScratchFault>) returns (r: Result<Descriptor>)
      requires runFile == Some(sorted) && Claims() && inverseAt < |sorted|
      requires 1 <= |pages| && MayAsk(pages[0], sorted, inverseAt)
      modifies this`pages
      ensures 1 <= |pages| && MayAsk(pages[0], sorted, inverseAt)
      ensures r.Ok? ==> r.value == sorted[inverseAt] && MayAsk(pages[0], sorted, inverseAt + 1)
      ensures r.Err? ==>
                || (fault.Some? && fault.value.RankLoad? && r.error == ErrorOf(fault.value))
                || (r.error == InvalidScratch && Excess())
    {
      hide PageOk, MayAsk;
      var load := if fault.Some? && fault.value.RankLoad? then Some(fault.value.load) else None;
      var page;
      r, page := Record(pages[0], runFile.value, runClaimed, inverseAt, load);
      pages := pages[0 := page];
      if r.Ok? {
        Asks(page, sorted, inverseAt + 1);
      } else {
        Unreadable(runFile.value, runClaimed, inverseAt);
      }
    }

    /** Writes one rank of the order map and collects its pair. A failed load or
        write of the order map can be made again; once the order map has the rank,
        a pair that cannot be collected leaves the two maps apart. */
    method RankOne(budget: nat, fault: Option<ScratchFault>) returns (r: Result<()>, left: nat)
      requires BuildingOk() && inverseAt < records && runFile.Some?
      modifies this`pages, this`order, this`inverseAt, inverseBuilder
      ensures left == Spend(budget, 128)
      ensures r.Ok? ==> BuildingOk() && inverseAt == old(inverseAt) + 1
      ensures r.Err? ==>
                || (&& fault.Some? && (fault.value.RankLoad? || fault.value.OrderWrite? || fault.value.PairWrite?)
                    && r.error == ErrorOf(fault.value) && (BuildingOk() <==> !fault.value.PairWrite?)
                    && (fault.value.PairWrite? ==> Apart()))
                || (r.error == InvalidScratch && Excess() && BuildingOk())
    {
      hide AllDescriptors, PassesUsed, SortedFile, Inverse.InverseBuilder.Collecting, Inverse.InverseBuilder.Placing;
      hide MayAsk, Inverse.Distinct, Claims, Excess, PassCount, ConfigOk, MapsSoFar;
      left := Spend(budget, 128);
      RankIsNew();
      var d := LoadRank(fault);
      if d.Err? {
        return Err(d.error), left;
      }
      r := WriteRank(d.value, fault);
    }

    /** Writes a rank to the order map, then collects its pair. */
    method WriteRank(d: Descriptor, fault: Option<ScratchFault>) returns (r: Result<()>)
      requires MapsSoFar() && inverseBuilder.Collecting() && inverseAt < |sorted| && d == sorted[inverseAt]
      requires d.row < records && Inverse.Distinct(inverseBuilder.pushed + [Inverse.Pair(d.row, inverseAt)])
      modifies this`order, this`inverseAt, inverseBuilder
      ensures r.Ok? ==> MapsSoFar() && inverseBuilder.Collecting() && inverseAt == old(inverseAt) + 1
      ensures r.Err? ==> fault.Some? && r.error == ErrorOf(fault.value) && inverseAt == old(inverseAt)
      ensures r.Err? ==>
                || (fault.value.OrderWrite? && MapsSoFar() && inverseBuilder.Collecting())
                || (fault.value.PairWrite? && Apart() && !MapsSoFar())
    {
      hide Inverse.InverseBuilder.Collecting, Inverse.Distinct;
      var how := if fault.Some? && fault.value.OrderWrite? then Some(fault.value.how) else None;
      var written, longer, _ := Append(order, |order|, EntryOf(d), how);
      if written.Err? {
        return written;
      }
      order := longer;
      r := inverseBuilder.Push(d.row, inverseAt, fault == Some(PairWrite));
      if r.Ok? {
        inverseAt := inverseAt + 1;
      }
    }

    /** The next row to be ranked is in range and has not been ranked. */
    lemma RankIsNew()
      requires SortedFile() && MapsSoFar() && inverseAt < records
      ensures |sorted| == records && sorted[inverseAt].row < records && inverseBuilder != null
      ensures Inverse.Distinct(inverseBuilder.pushed + [Inverse.Pair(sorted[inverseAt].row, inverseAt)])
    {
      hide AllDescriptors, LeOf, Sorted, IsSorted;
      DistinctRows();
    }

    lemma DistinctRows()
      requires SortedFile() && |sorted| == records
      ensures forall r :: 0 <= r < |sorted| ==> sorted[r].row < records
      ensures forall i, j :: 0 <= i < j < |sorted| ==> sorted[i].row != sorted[j].row
    {
      hide AllDescriptors, LeOf, Sorted, ShownBefore, RecordsFrom;
      CountDescriptors(env);
      var file := sorted;
      var entries := seq(|file|, r requires 0 <= r < |file| => EntryOf(file[r]));
      SortedFileIsOrder(env, file, entries);
      forall r | 0 <= r < |sorted|
        ensures sorted[r].row < records
      {
        assert entries[r].row < RecordCount(env);
      }
    }

    /** All ranked rows are distinct. */
    lemma RanksDistinct()
      requires SortedFile() && MapsSoFar()
      ensures Inverse.Distinct(inverseBuilder.pushed)
    {
      hide AllDescriptors, LeOf, Sorted;
      DistinctRows();
    }

    /** Every rank is written; the pairs are complete. A flush that fails can be
        made again. */
    method EndRanks(fault: Option<ScratchFault>) returns (r: Result<()>)
      requires BuildingOk() && inverseAt == records && runFile.Some?
      modifies this`runFile, inverseBuilder
      ensures BuildingOk()
      ensures r.Ok? ==> runFile.None?
      ensures r.Err? ==>
                && fault.Some? && (fault.value.PairsFlush? || fault.value.OrderFlush?)
                && r.error == ErrorOf(fault.value) && runFile == old(runFile)
    {
      hide AllDescriptors, LeOf, Sorted, WidthAfter, PassesUsed, SortedFile, Inverse.InverseBuilder.Collected, PageOk;
      hide Inverse.InverseBuilder.BucketOk, Inverse.InverseBuilder.Shaped, Inverse.InverseBuilder.BlockDone;
      hide Inverse.Distinct;
      CollectedShape();
      RanksDistinct();
      var bucket := if fault.Some? && fault.value.PairsFlush? then Some(fault.value.bucket) else None;
      r := inverseBuilder.FinishCollecting(bucket);
      if r.Err? {
        return;
      }
      if fault == Some(OrderFlush) {
        return Err(ScratchIo);
      }
      runFile := None;
    }

    lemma CollectedShape()
      requires inverseBuilder != null && inverseBuilder.Collecting()
      ensures inverseBuilder.bucket == inverseBuilder.read == 0 <= inverseBuilder.buckets
    {}

    /** Places pairs into the inverse map; the sort is complete when all are. A
        failed read or write is made again. */
    method PlaceSome(budget: nat, fault: Option<ScratchFault>) returns (r: Result<()>, left: nat)
      requires BuildingOk() && runFile.None?
      modifies this`inverse, this`inverseBuilder, this`phase, inverseBuilder
      ensures left <= budget
      ensures r.Ok? && inverseBuilder == null ==> CompleteOk() && phase == SortPhase.Complete
      ensures r.Ok? && inverseBuilder != null ==>
                && BuildingOk() && phase == old(phase) && inverseBuilder == old(inverseBuilder)
                && inverseBuilder.bucket <= inverseBuilder.buckets &&
                   old(inverseBuilder.bucket) < inverseBuilder.buckets
                && (inverseBuilder.bucket > old(inverseBuilder.bucket) ||
                    (inverseBuilder.bucket == old(inverseBuilder.bucket) &&
                      inverseBuilder.read > old(inverseBuilder.read)))
      ensures r.Err? ==>
                && fault.Some? && fault.value.Placement? && r.error == ErrorOf(fault.value)
                && BuildingOk() && phase == old(phase) && inverseBuilder == old(inverseBuilder)
    {
      hide AllDescriptors, SortedFile, PassesUsed, PassCount, Claims, ConfigOk, IsSorted, MayAsk;
      hide Inverse.InverseBuilder.Collected, Inverse.InverseBuilder.BlockDone, Inverse.InverseBuilder.BlockFilled;
      hide Inverse.InverseBuilder.Collecting, Inverse.InverseBuilder.IsInverse, Inverse.Slots, Inverse.Distinct;
      RanksDistinct();
      var failing := if fault.Some? && fault.value.Placement? then Some(fault.value.what) else None;
      var done;
      done, inverse, left := inverseBuilder.Place(inverse, budget, failing);
      if done.Err? {
        return Err(done.error), left;
      }
      if done.value {
        MapsDone();
        inverseBuilder := null;
        phase := SortPhase.Complete;
      }
      r := Ok(());
    }

    lemma MapsDone()
      requires SortedFile() && MapsSoFar() && inverseAt == records && inverseBuilder.IsInverse(inverse)
      ensures IsSorted(env, order) && records == |order| == |inverse| && Sortable(records)
      ensures forall r :: 0 <= r < |order| ==> order[r].row < |inverse| && inverse[order[r].row] == r
    {
      hide AllDescriptors, LeOf, Sorted, Inverse.Distinct, IsSorted;
      SortedFileIsOrder(env, sorted, order);
      forall r | 0 <= r < |order|
        ensures order[r].row < |inverse| && inverse[order[r].row] == r
      {
        assert inverseBuilder.pushed[r] == Inverse.Pair(sorted[r].row, r);
      }
    }

    // ------------------------------------------------------------------ stepping

    ghost function Owned(): set<object>
      reads this`scanner, this`locator, this`builder, this`comparison, this`inverseBuilder
    {
      (if scanner == null then {} else {scanner}) + (if locator == null then {} else {locator})
      + BuilderParts() + ComparisonParts() + (if inverseBuilder == null then {} else {inverseBuilder})
    }

    /** What holds between any two steps. */
    ghost predicate Valid()
      reads this, Owned()
    {
      match phase
      case Extracting => ExtractingOk()
      case SortingRuns => SortingOk()
      case Merging => MergingOk()
      case BuildingInverse => BuildingOk()
      case Complete => CompleteOk()
      case Cancelled => ConfigOk()
    }

    /** What an error means, for a step taken in phase `at` in which `fault` was
        to happen. The source failed, which it does only when disturbed, or a key
        is out of range; or the fault happened; or a file charged with more than
        it holds was read. */
    ghost predicate Failed(e: Error, fault: Option<ScratchFault>, at: SortPhase, excess: bool, calm: bool)
      reads this, Owned()
    {
      || (((!calm && SourceError(e)) || KeyError(e)) && Valid())
      || (fault.Some? && e == ErrorOf(fault.value) && Left(fault.value, at))
      || (e == InvalidScratch && excess && (Valid() || Stuck()))
    }

    /** What a scratch operation that fails leaves. */
    ghost predicate Left(fault: ScratchFault, at: SortPhase)
      reads this, Owned()
    {
      && (Valid() <==> !Fatal(at, fault))
      && (Fatal(at, fault) ==> if fault.PairWrite? then phase == BuildingInverse && Apart() else Stuck())
    }

    ghost function PendingRank(): nat
      reads this`locator, this`builder
    {
      if locator != null then 2 else if builder != null then 1 else 0
    }

    ghost function PendingWork(): nat
      reads this`locator, this`builder, this`span, locator, BuilderParts()
    {
      if locator != null then Sub(span.end, locator.cursor)
      else if builder != null then Sub(builder.cursor.end, builder.cursor.offset)
      else 0
    }

    ghost function StageRank(): nat
      reads this`tree
    {
      match tree.stage
      case Idle => 2 * tree.leaves + 1
      case Build(k) => k + 1
      case Replay(k) => k + 1
      case Emit => 0
    }

    /** The work left, most significant first. */
    ghost function Work(): Rank
      reads this, Owned()
    {
      match phase
      case Extracting =>
        Rank(3, 3 * |Unscanned()| + PendingRank(), if batch == [] then 0 else 2,
             if scanner == null then 0 else 1 + Sub(|env.src|, scanner.offset), 0, PendingWork())
      case SortingRuns =>
        Rank(3, 3 * |Unscanned()|, 1, Sub(|batch|, merge.width),
             Sub(|batch|, if merge.width < |batch| then merge.out else writeAt), Sub(Unread(), 0))
      case Merging =>
        Rank(2, Sub(records, runWidth), Sub(records, if passFile.Some? then |passFile.value| else 0),
             Sub(records, groupStart), StageRank(), Sub(Unread(), 0))
      case BuildingInverse =>
        if inverseBuilder == null then Rank(1, 0, 0, 0, 0, 0)
        else
          Rank(1, Sub(records, inverseAt), if runFile.Some? then 1 else 0,
               Sub(inverseBuilder.buckets, inverseBuilder.bucket),
               Sub(inverseBuilder.Len(inverseBuilder.bucket), inverseBuilder.read), 0)
      case Complete => Rank(0, 0, 0, 0, 0, 0)
      case Cancelled => Rank(0, 0, 0, 0, 0, 0)
    }

    /** One turn of extraction: locate, build, or scan on. */
    method ExtractPending(budget: nat, calm: bool) returns (r: Result<()>, left: nat)
      requires phase == Extracting && ExtractingOk() && HasPending() && budget > 0
      modifies this, Owned()
      ensures phase == Extracting && fresh(Owned() - old(Owned()))
      ensures uncreated == old(uncreated) && runFile == old(runFile) && runClaimed == old(runClaimed)
      ensures r.Ok? ==> left <= budget && ExtractingOk() && Below(Work(), old(Work()))
      ensures r.Err? ==> ExtractingOk() && ((!calm && SourceError(r.error)) || KeyError(r.error))
    {
      hide ExtractingOk, Work, Below, Owned, SomeKeyOutOfRange;
      if locator != null {
        r, left := ExtractLocate(budget, calm);
      } else {
        r, left := ExtractBuild(budget, calm);
      }
    }

    method ExtractLocate(budget: nat, calm: bool) returns (r: Result<()>, left: nat)
      requires phase == Extracting && ExtractingOk() && locator != null && budget > 0
      modifies this, Owned()
      ensures phase == Extracting && fresh(Owned() - old(Owned()))
      ensures uncreated == old(uncreated) && runFile == old(runFile) && runClaimed == old(runClaimed)
      ensures r.Ok? ==> left <= budget && ExtractingOk() && Below(Work(), old(Work()))
      ensures r.Err? ==> ExtractingOk() && ((!calm && SourceError(r.error)) || KeyError(r.error))
    {
      hide Buffers, Claims, ConfigOk;
      hide Extracted, Stored, Quiet, Runs, FullRuns, LeOf, Unscanned, Locator.Valid, Builder.Valid;
      PendingBounds();
      r, left := Locate(budget, calm);
      if r.Ok? {
        PendingBounds();
      }
    }

    method ExtractBuild(budget: nat, calm: bool) returns (r: Result<()>, left: nat)
      requires phase == Extracting && ExtractingOk() && builder != null && budget > 0
      modifies this, Owned()
      ensures phase == Extracting && fresh(Owned() - old(Owned()))
      ensures uncreated == old(uncreated) && runFile == old(runFile) && runClaimed == old(runClaimed)
      ensures r.Ok? ==> left <= budget && ExtractingOk() && Below(Work(), old(Work()))
      ensures r.Err? ==> ExtractingOk() && ((!calm && SourceError(r.error)) || KeyError(r.error))
    {
      hide Buffers, Claims, ConfigOk;
      hide Extracted, Stored, Quiet, Runs, FullRuns, LeOf, Unscanned, Locator.Valid, Builder.Valid, SomeKeyOutOfRange;
      PendingBounds();
      r, left := BuildKey(budget, calm);
      if r.Ok? && HasPending() {
        PendingBounds();
      }
    }

    lemma PendingBounds()
      requires ExtractingOk() && HasPending()
      ensures locator != null ==> builder == null && locator.cursor <= span.end
      ensures builder != null ==> builder.cursor.offset <= builder.cursor.end
    {
      hide Stored, Quiet, Runs, FullRuns, LeOf, Scanning, Describe, AllDescriptors;
    }

    /** The batch is full, or the source is used up with some of it left. */
    method BeginSorting()
      requires ExtractingOk() && !HasPending() && 0 < |batch| && (|batch| == batchCapacity || scanner == null)
      modifies this`merge, this`writeAt, this`phase
      ensures SortingOk() && phase == SortingRuns && writeAt == 0
    {
      hide IdleTree, Claims, Stored, FullRuns, BeforeMerge;
      hide Scanned, Extracted, Runs, LeOf, Describe, AllDescriptors, BM.Valid, BM.Pairing;
      BatchBounds();
      ScannedIsExtracted();
      assert runFile.value[..|runFile.value|] == runFile.value;
      merge := BM.Merge(1, 0, 0, 0, 0, 0, 0);
      writeAt := 0;
      phase := SortingRuns;
      SingleRuns(LeOf(env), batch);
      if 1 < |batch| {
        BM.Begin(LeOf(env), batch, alternate, merge);
      } else {
        assert Base() + batch[..0] == runFile.value;
      }
    }

    /** With no record at hand: hand over a full batch, or scan on. */
    method ExtractNext(budget: nat, calm: bool) returns (r: Result<()>, left: nat)
      requires phase == Extracting && ExtractingOk() && !HasPending() && budget > 0
      requires |batch| < batchCapacity && scanner != null
      modifies this, Owned()
      ensures phase == Extracting && fresh(Owned() - old(Owned()))
      ensures uncreated == old(uncreated) && runFile == old(runFile) && runClaimed == old(runClaimed)
      ensures r.Ok? ==> left <= budget && ExtractingOk() && Below(Work(), old(Work()))
      ensures r.Err? ==> ExtractingOk() && ((!calm && SourceError(r.error)) || KeyError(r.error))
    {
      hide Extracted, Stored, Runs, FullRuns, LeOf, RecordsFrom;
      left := budget;
      ScannerBounds();
      if scanner.offset == |env.src| {
        r := FinishScan();
      } else {
        r, left := FeedScan(budget, calm);
        if r.Ok? {
          ScannerBounds();
        }
      }
    }

    lemma ScannerBounds()
      requires ExtractingOk() && scanner != null
      ensures scanner.offset <= |env.src|
    {
      hide Stored, Quiet, Runs, FullRuns, LeOf, PendingOk, Describe, AllDescriptors, ScanRecord;
    }

    /** Every record is on disk: merge the runs. When no stage can be started the
        session is still at the end of extraction. */
    method HandOverAll(fault: Option<ScratchFault>) returns (r: Result<()>)
      requires phase == Extracting && ExtractingOk() && !HasPending() && scanner == null && batch == []
      modifies this
      ensures fresh(Owned() - old(Owned())) && runFile == old(runFile) && runClaimed == old(runClaimed)
      ensures uncreated == old(uncreated) + if r.Err? && fault.Some? && fault.value.PassCreate? then 1 else 0
      ensures phase != SortPhase.Cancelled
      ensures r.Ok? ==> Valid() && (phase == Merging || phase == BuildingInverse)
      ensures r.Err? ==> fault.Some? && StageFault(fault.value) && r.error == ErrorOf(fault.value)
      ensures r.Err? ==> phase == Extracting && ExtractingOk()
    {
      hide SortingOk, MergingOk, BuildingOk, CompleteOk, ReadyOk, IsSorted;
      hide Extracted, Runs, FullRuns, LeOf, AllDescriptors, IdleTree;
      ExtractionDone();
      ghost var before, n := tree, |pages|;
      r := BeginDiskMerge(fault);
      if r.Err? && records > runWidth {
        MorePagesFit(before, n, |pages|);
      }
    }

    lemma MorePagesFit(t: WT.Tree<Descriptor>, n: nat, m: nat)
      requires n <= m
      ensures IdleTree(t, 0, n) ==> IdleTree(t, 0, m)
    {}

    method HandOver(fault: Option<ScratchFault>) returns (r: Result<()>)
      requires phase == Extracting && ExtractingOk() && !HasPending()
      requires |batch| == batchCapacity || scanner == null
      modifies this
      ensures fresh(Owned() - old(Owned())) && runFile == old(runFile) && runClaimed == old(runClaimed)
      ensures uncreated == old(uncreated) + if r.Err? && fault.Some? && fault.value.PassCreate? then 1 else 0
      ensures phase != SortPhase.Cancelled
      ensures r.Ok? ==> Valid() && Below(Work(), old(Work()))
      ensures r.Err? ==> fault.Some? && StageFault(fault.value) && r.error == ErrorOf(fault.value)
      ensures r.Err? ==> phase == Extracting && ExtractingOk()
    {
      hide ExtractingOk, Unscanned, SortingOk, Valid, Unread;
      BatchBounds();
      if |batch| == 0 {
        r := HandOverAll(fault);
      } else {
        BeginSorting();
        SortingIsValid();
        r := Ok(());
      }
    }

    lemma SortingIsValid()
      requires phase == SortingRuns && SortingOk()
      ensures Valid()
    {}

    /** Writes the sorted batch out. */
    method WriteStep(budget: nat, fault: Option<ScratchFault>) returns (r: Result<()>, left: nat)
      requires phase == SortingRuns && SortingOk() && budget > 0 && merge.width >= |batch|
      modifies this`runFile, this`runClaimed, this`writeAt, this`batch, this`phase
      ensures phase != SortPhase.Cancelled
      ensures Valid()
      ensures r.Ok? ==> left <= budget && Below(Work(), old(Work())) && (Excess() ==> old(Excess()))
      ensures r.Err? ==> fault.Some? && fault.value.RunWrite? && r.error == ErrorOf(fault.value)
    {
      hide SortingOk, ExtractingOk, MergingOk, BuildingOk, CompleteOk, Unscanned, Unread;
      left, r := budget, Ok(());
      SortingBounds();
      if writeAt < |batch| {
        r, left := WriteOne(budget, fault);
      } else {
        EndBatch();
      }
    }

    /** Merges within the batch. */
    method MergeStep(budget: nat, calm: bool) returns (r: Result<()>, left: nat)
      requires phase == SortingRuns && SortingOk() && budget > 0 && merge.width < |batch|
      modifies this`batch, this`merge, this`alternate, this`comparison, ComparisonParts()
      ensures SortingOk() && fresh(Owned() - old(Owned()))
      ensures r.Ok? ==> left <= budget && Below(Work(), old(Work()))
      ensures r.Err? ==> !calm && SourceError(r.error)
    {
      hide SortingOk, Owned, Work, Below;
      if merge.start >= |batch| {
        left := WidenRuns(budget);
        r := Ok(());
      } else {
        r, left := MoveRecord(budget, calm);
      }
    }

    method WidenRuns(budget: nat) returns (left: nat)
      requires phase == SortingRuns && SortingOk() && merge.width < |batch| && merge.start >= |batch|
      modifies this`batch, this`merge
      ensures SortingOk() && Owned() == old(Owned()) && left <= budget && Below(Work(), old(Work()))
    {
      hide SortingOk, Unscanned, Unread;
      SortingBounds();
      left := EndBatchPass(budget);
    }

    method MoveRecord(budget: nat, calm: bool) returns (r: Result<()>, left: nat)
      requires phase == SortingRuns && SortingOk() && budget > 0 && merge.width < |batch| && merge.start < |batch|
      modifies this`merge, this`alternate, this`comparison, ComparisonParts()
      ensures SortingOk() && fresh(Owned() - old(Owned()))
      ensures r.Ok? ==> left <= budget && Below(Work(), old(Work()))
      ensures r.Err? ==> !calm && SourceError(r.error)
    {
      hide SortingOk, Unscanned, Unread;
      SortingBounds();
      r, left := MergeOne(budget, calm);
    }

    method SortStep(budget: nat, calm: bool, fault: Option<ScratchFault>) returns (r: Result<()>, left: nat)
      requires phase == SortingRuns && SortingOk() && budget > 0
      modifies this, Owned()
      ensures phase != SortPhase.Cancelled
      ensures fresh(Owned() - old(Owned()))
      ensures uncreated == old(uncreated) && !PassUncreated(r, fault)
      ensures r.Ok? ==> left <= budget && Valid() && Below(Work(), old(Work())) && (Excess() ==> old(Excess()))
      ensures r.Err? ==> Failed(r.error, fault, SortingRuns, old(Excess()), calm)
    {
      hide SortingOk, Valid, Owned, Work, Failed, Excess;
      SortingBounds();
      if merge.width >= |batch| {
        r, left := WriteStep(budget, fault);
      } else {
        OwnsComparison();
        r, left := MergeStep(budget, calm);
        SortingIsValid();
      }
      if r.Err? {
        StillValid(r.error, fault, SortingRuns, old(Excess()), calm);
      }
    }

    lemma OwnsComparison()
      ensures ComparisonParts() <= Owned()
    {}

    lemma StillValid(e: Error, fault: Option<ScratchFault>, at: SortPhase, excess: bool, calm: bool)
      requires Valid()
      requires
        || (!calm && SourceError(e)) || (e == InvalidScratch && excess)
        || (fault.Some? && e == ErrorOf(fault.value) && !Fatal(at, fault.value))
      ensures Failed(e, fault, at, excess, calm)
    {
      hide Valid, Stuck, ErrorOf;
    }

    lemma SortingBounds()
      requires SortingOk()
      ensures 0 < |batch| && writeAt <= |batch| && locator == null && builder == null && inverseBuilder == null &&
                merge.width > 0
      ensures merge.width < |batch| && merge.start < |batch| ==> merge.out < |batch|
      ensures merge.width >= |batch| ==> comparison == null
      ensures 0 <= Unread()
    {
      hide Scanned, Stored, BeforeMerge, Runs, FullRuns, LeOf, PartialMerge, Comparison.Valid;
      if comparison != null {
        UnreadBounds(comparison);
      }
    }

    lemma MergingBounds()
      requires MergingOk()
      ensures ConfigOk() && locator == null && builder == null && scanner == null && inverseBuilder == null
      ensures passFile.Some? && |passFile.value| <= records && groupStart <= records && 0 < runWidth < records
      ensures !tree.stage.Idle? ==> tree.Shaped() && tree.leaves > 1 && groupStart < tree.groupEnd <= records
      ensures tree.stage.Idle? ==> comparison == null
      ensures tree.stage.Emit? ==> comparison == null
      ensures tree.stage.Build? || tree.stage.Replay? ==> tree.stage.node < tree.leaves
      ensures 0 <= Unread()
    {
      hide AllDescriptors, LeOf, PageOk, WidthAfter, Runs, FullRuns, Sorted, AllBefore, WT.AllUnread, Comparison.Valid;
      hide WT.Named, WT.NodeOk, WT.LeafOk;
      FileLength();
      if comparison != null {
        UnreadBounds(comparison);
      }
      if !tree.stage.Idle? {
        Passes.GroupCounts(LeOf(env), runFile.value, passFile.value, runWidth, runWidth * fanIn, groupStart, tree);
      }
    }

    /** A pass is written: begin the next one, or the maps. If neither can be
        begun, the pass file is no longer where a further turn looks for it. */
    method PassOver(fault: Option<ScratchFault>) returns (r: Result<()>)
      requires phase == Merging && MergingOk() && tree.stage.Idle? && groupStart == records
      modifies this
      ensures phase != SortPhase.Cancelled
      ensures fresh(Owned() - old(Owned())) && !Excess()
      ensures uncreated == old(uncreated) + if r.Err? && fault.Some? && fault.value.PassCreate? then 1 else 0
      ensures r.Ok? ==> Valid()
      ensures r.Ok? ==>
                phase == BuildingInverse || (phase == Merging && records == old(records) && runWidth > old(runWidth))
      ensures r.Err? ==>
                && fault.Some? && StageFault(fault.value) && r.error == ErrorOf(fault.value)
                && phase == Merging && Stuck()
    {
      hide ExtractingOk, SortingOk, MergingOk, BuildingOk, CompleteOk, ReadyOk;
      MergingBounds();
      EndPass();
      r := BeginDiskMerge(fault);
    }

    method MergePass(fault: Option<ScratchFault>) returns (r: Result<()>)
      requires phase == Merging && MergingOk() && tree.stage.Idle? && groupStart == records
      modifies this
      ensures phase != SortPhase.Cancelled
      ensures fresh(Owned() - old(Owned())) && !Excess()
      ensures uncreated == old(uncreated) + if PassUncreated(r, fault) then 1 else 0
      ensures r.Ok? ==> Valid() && Below(Work(), old(Work()))
      ensures r.Err? ==> phase == Merging && Stuck() && MergeFailed(r.error, fault, false, true)
    {
      hide MergingOk, Valid, Unread, Unscanned, Stuck;
      MergingBounds();
      r := PassOver(fault);
    }

    method MergeGroupStart(fault: Option<ScratchFault>) returns (r: Result<()>)
      requires phase == Merging && MergingOk() && tree.stage.Idle? && groupStart < records
      modifies this`tree, this`pages
      ensures MergingOk() && Owned() == old(Owned())
      ensures r.Ok? ==> tree.stage.Build? && Below(Work(), old(Work()))
      ensures r.Err? ==>
                || (fault.Some? && fault.value.HeadLoad? && r.error == ErrorOf(fault.value))
                || (r.error == InvalidScratch && Excess())
    {
      hide MergingOk, Unread, Unscanned;
      MergingBounds();
      r := StartGroup(fault);
    }

    /** One node played, one record written, or one group ended. */
    method MergeGroup(budget: nat, calm: bool, fault: Option<ScratchFault>) returns (r: Result<()>, left: nat)
      requires phase == Merging && MergingOk() && !tree.stage.Idle? && budget > 0
      modifies this, Owned()
      ensures fresh(Owned() - old(Owned())) && uncreated == old(uncreated) && phase == Merging
      ensures runFile == old(runFile) && runClaimed == old(runClaimed)
      ensures r.Ok? ==> left <= budget && MergingOk() && Below(Work(), old(Work()))
      ensures r.Err? ==> MergeFailed(r.error, fault, Excess(), calm) && !PassUncreated(r, fault)
    {
      hide MergingOk, Work, Below, Owned, ErrorOf, Stuck;
      OwnsComparison();
      if tree.stage.Emit? {
        r, left := EmitTurn(budget, fault);
      } else {
        r, left := PlayTurn(budget, calm);
      }
    }

    method EmitTurn(budget: nat, fault: Option<ScratchFault>) returns (r: Result<()>, left: nat)
      requires phase == Merging && MergingOk() && tree.stage.Emit? && budget > 0
      modifies this, Owned()
      ensures fresh(Owned() - old(Owned())) && uncreated == old(uncreated) && phase == Merging
      ensures runFile == old(runFile) && runClaimed == old(runClaimed)
      ensures r.Ok? ==> left <= budget && MergingOk() && Below(Work(), old(Work()))
      ensures r.Err? ==> MergeFailed(r.error, fault, Excess(), true) && !PassUncreated(r, fault)
    {
      hide MergingOk, Unread, Stuck, Excess;
      left, r := budget, Ok(());
      MergingBounds();
      if tree.nodes[1] == WT.EMPTY {
        EndGroup();
      } else {
        r, left := EmitOne(budget, fault);
      }
      if r.Ok? {
        MergingBounds();
      }
    }

    method PlayTurn(budget: nat, calm: bool) returns (r: Result<()>, left: nat)
      requires phase == Merging && MergingOk() && (tree.stage.Build? || tree.stage.Replay?) && budget > 0
      modifies this`tree, this`comparison, ComparisonParts()
      ensures MergingOk() && fresh(Owned() - old(Owned()))
      ensures r.Ok? ==> left <= budget && Below(Work(), old(Work()))
      ensures r.Err? ==> !calm && SourceError(r.error)
    {
      hide MergingOk, Unread;
      MergingBounds();
      r, left := PlayNode(budget, calm);
      if r.Ok? {
        MergingBounds();
      }
    }

    /** What an error in a merge means. */
    ghost predicate MergeFailed(e: Error, fault: Option<ScratchFault>, excess: bool, calm: bool)
      reads this, ComparisonParts()
    {
      || (!calm && SourceError(e) && MergingOk())
      || (&& fault.Some? && e == ErrorOf(fault.value) && !fault.value.PairWrite?
          && if Fatal(Merging, fault.value) then Stuck() else MergingOk())
      || (e == InvalidScratch && excess && (MergingOk() || Stuck()))
    }

    lemma MergeFails(e: Error, fault: Option<ScratchFault>, excess: bool, calm: bool)
      requires phase == Merging && MergeFailed(e, fault, excess, calm)
      ensures Failed(e, fault, Merging, excess, calm)
    {
      hide MergingOk, Stuck, ErrorOf, SomeKeyOutOfRange;
      if Stuck() {
        StuckIsNotValid();
      }
    }

    /** The session is stuck exactly when a turn finds the pass file or the
        winner's head gone. */
    lemma TurnBounds()
      requires phase == Merging && (MergingOk() || Stuck())
      ensures tree.stage.Emit? ==> 1 < |tree.nodes| && (tree.nodes[1] != WT.EMPTY ==> tree.nodes[1] < |tree.heads|)
      ensures tree.stage.Idle? && groupStart == records ==> (Stuck() <==> passFile.None?)
      ensures tree.stage.Idle? && groupStart != records ==> !Stuck()
      ensures tree.stage.Emit? ==>
                (Stuck() <==> tree.nodes[1] != WT.EMPTY && tree.heads[tree.nodes[1]].None?)
      ensures tree.stage.Build? || tree.stage.Replay? ==> !Stuck()
      ensures Stuck() <==> !MergingOk()
    {
      hide AllDescriptors, LeOf, PageOk, MayAsk, Runs, FullRuns, WT.AllUnread, Passes.GroupOk, Passes.PassOk;
      hide WidthAfter, OnDisk, Comparing, WT.NodeOk, WT.LeafOk, PagesReady, IdleTree;
      RootHasHead();
    }

    /** One turn of the merge. A session that is stuck stays so. */
    method MergeTurn(budget: nat, calm: bool, fault: Option<ScratchFault>) returns (r: Result<()>, left: nat)
      requires phase == Merging && (MergingOk() || Stuck()) && budget > 0
      modifies this, Owned()
      ensures old(Stuck()) ==> r == Err(InvalidScratch) && Stuck() && uncreated == old(uncreated)
      ensures phase != SortPhase.Cancelled
      ensures fresh(Owned() - old(Owned()))
      ensures old(!Stuck()) ==> uncreated == old(uncreated) + if PassUncreated(r, fault) then 1 else 0
      ensures r.Ok? ==> left <= budget && Valid() && Below(Work(), old(Work())) && (Excess() ==> old(Excess()))
      ensures r.Err? && old(!Stuck()) ==> Failed(r.error, fault, Merging, old(Excess()), calm)
    {
      hide MergingOk, Work, Below, Valid, Owned, Failed, ErrorOf, Stuck;
      left := budget;
      TurnBounds();
      if tree.stage.Idle? && groupStart == records {
        if passFile.None? {
          StaysStuck();
          return Err(InvalidScratch), left;
        }
        r := MergePass(fault);
      } else if tree.stage.Idle? {
        r, left := MergeNewGroup(budget, calm, fault);
        MergingIsValid();
      } else if tree.stage.Emit? && tree.nodes[1] != WT.EMPTY && tree.heads[tree.nodes[1]].None? {
        return Err(InvalidScratch), left;
      } else {
        r, left := MergeGroup(budget, calm, fault);
        MergingIsValid();
      }
      if r.Err? {
        MergeFails(r.error, fault, old(Excess()), calm);
      }
    }

    /** There is no pass file to turn to, and then no run file. */
    method StaysStuck()
      requires Stuck() && tree.stage.Idle?
      modifies this`runFile, this`runWidth
      ensures Stuck() && !Excess() && Owned() == old(Owned())
    {
      runFile, runWidth := None, Min(runWidth * fanIn, U64_MAX);
    }

    lemma MergingIsValid()
      ensures phase == Merging && MergingOk() ==> Valid()
    {
      hide MergingOk;
    }

    /** Starts the next group and goes on with it. */
    method MergeNewGroup(budget: nat, calm: bool, fault: Option<ScratchFault>) returns (r: Result<()>, left: nat)
      requires phase == Merging && MergingOk() && tree.stage.Idle? && groupStart != records && budget > 0
      modifies this, Owned()
      ensures fresh(Owned() - old(Owned())) && uncreated == old(uncreated) && phase == Merging
      ensures runFile == old(runFile) && runClaimed == old(runClaimed)
      ensures r.Ok? ==> left <= budget && MergingOk() && Below(Work(), old(Work()))
      ensures r.Err? ==> MergeFailed(r.error, fault, Excess(), calm) && !PassUncreated(r, fault)
    {
      hide MergingOk, Work, Below, Owned, Stuck, Excess;
      left := budget;
      MergingBounds();
      ghost var start := Work();
      r := MergeGroupStart(fault);
      if r.Err? {
        return;
      }
      ghost var before := Work();
      label Before:
      r, left := MergeGroup(budget, calm, fault);
      if r.Ok? {
        BelowTransitive(Work(), before, start);
      }
      forall o | o in Owned() && o !in old(Owned())
        ensures fresh(o)
      {
        assert o in Owned() - old@Before(Owned());
        assert old(allocated(o)) ==> old@Before(allocated(o));
      }
    }

    lemma BuildingBounds()
      requires BuildingOk()
      ensures locator == null && builder == null && scanner == null && comparison == null && inverseBuilder != null
      ensures inverseAt <= records && (runFile.None? ==> inverseAt == records)
      ensures runFile.None? ==> inverseBuilder.bucket <= inverseBuilder.buckets
      ensures runFile.None? && inverseBuilder.read > 0 ==>
                inverseBuilder.read <= inverseBuilder.Len(inverseBuilder.bucket)
    {
      hide AllDescriptors, LeOf, PageOk, WidthAfter, Sorted, Inverse.Slots, Inverse.InverseBuilder.Collected;
      hide Inverse.InverseBuilder.BlockDone;
    }

    /** One turn of building the maps. */
    method BuildTurn(budget: nat, fault: Option<ScratchFault>) returns (r: Result<()>, left: nat)
      requires phase == BuildingInverse && BuildingOk() && budget > 0
      modifies this`pages, this`order, this`inverseAt, this`runFile, this`inverse, this`inverseBuilder, this`phase,
               inverseBuilder
      ensures phase != SortPhase.Cancelled
      ensures Owned() <= old(Owned())
      ensures r.Ok? ==> left <= budget && Valid() && Below(Work(), old(Work()))
      ensures r.Err? ==> runFile == old(runFile) && phase == BuildingInverse
      ensures r.Err? ==>
                || (&& fault.Some? && r.error == ErrorOf(fault.value) && (BuildingOk() <==> !fault.value.PairWrite?)
                    && (fault.value.PairWrite? ==> Apart())
                    && !Fatal(BuildingInverse, fault.value) == !fault.value.PairWrite? && !fault.value.PassCreate?)
                || (r.error == InvalidScratch && Excess() && BuildingOk())
      ensures runFile == old(runFile) || runFile.None?
    {
      hide ExtractingOk, SortingOk, MergingOk, BuildingOk, CompleteOk, Inverse.InverseBuilder.Len, ErrorOf, Excess;
      left := budget;
      BuildingBounds();
      if inverseAt == records {
        if runFile.Some? {
          r := EndRanks(fault);
        } else {
          r, left := PlaceSome(budget, fault);
        }
      } else {
        r, left := RankOne(budget, fault);
      }
      if r.Ok? && phase == BuildingInverse {
        BuildingBounds();
      }
    }

    method BuildStep(budget: nat, ghost calm: bool, fault: Option<ScratchFault>) returns (r: Result<()>, left: nat)
      requires phase == BuildingInverse && BuildingOk() && budget > 0
      modifies this, Owned()
      ensures phase != SortPhase.Cancelled
      ensures fresh(Owned() - old(Owned()))
      ensures uncreated == old(uncreated) && !PassUncreated(r, fault)
      ensures r.Ok? ==> left <= budget && Valid() && Below(Work(), old(Work())) && (Excess() ==> old(Excess()))
      ensures r.Err? ==> Failed(r.error, fault, BuildingInverse, old(Excess()), calm)
    {
      hide BuildingOk, Owned, Valid, Work, Below, ErrorOf, Failed;
      BuilderOwned();
      r, left := BuildTurn(budget, fault);
      if r.Err? {
        BuildFails(r.error, fault, old(Excess()), calm);
      }
    }

    lemma BuilderOwned()
      requires BuildingOk()
      ensures inverseBuilder != null && inverseBuilder in Owned()
    {
      hide SortedFile, PassesUsed, Inverse.InverseBuilder.Collecting, Inverse.InverseBuilder.Placing, MayAsk;
    }

    lemma BuildFails(e: Error, fault: Option<ScratchFault>, excess: bool, calm: bool)
      requires phase == BuildingInverse
      requires
        || (&& fault.Some? && e == ErrorOf(fault.value) && (BuildingOk() <==> !fault.value.PairWrite?)
            && (fault.value.PairWrite? ==> Apart())
            && !Fatal(BuildingInverse, fault.value) == !fault.value.PairWrite?)
        || (e == InvalidScratch && excess && BuildingOk())
      ensures Failed(e, fault, BuildingInverse, excess, calm)
    {
      hide BuildingOk, Stuck, ErrorOf;
    }

    method ExtractStep(budget: nat, calm: bool, fault: Option<ScratchFault>) returns (r: Result<()>, left: nat)
      requires phase == Extracting && ExtractingOk() && budget > 0
      modifies this, Owned()
      ensures phase != SortPhase.Cancelled
      ensures fresh(Owned() - old(Owned()))
      ensures uncreated == old(uncreated) + if PassUncreated(r, fault) then 1 else 0
      ensures r.Ok? ==> left <= budget && Valid() && Below(Work(), old(Work())) && (Excess() ==> old(Excess()))
      ensures r.Err? ==> Failed(r.error, fault, Extracting, old(Excess()), calm)
    {
      hide ExtractingOk, Valid, Owned, Work, Below, SomeKeyOutOfRange, Failed;
      left := budget;
      BatchBounds();
      if locator != null || builder != null {
        r, left := ExtractPending(budget, calm);
      } else if |batch| == batchCapacity || scanner == null {
        r := HandOver(fault);
      } else {
        r, left := ExtractNext(budget, calm);
      }
      ExtractingIsValid();
      if r.Err? {
        ExtractFails(r.error, fault, old(Excess()), calm);
      }
    }

    lemma ExtractingIsValid()
      ensures phase == Extracting && ExtractingOk() ==> Valid()
    {
      hide ExtractingOk;
    }

    lemma ExtractFails(e: Error, fault: Option<ScratchFault>, excess: bool, calm: bool)
      requires phase == Extracting
      requires
        || (ExtractingOk() && ((!calm && SourceError(e)) || KeyError(e)))
        || (fault.Some? && StageFault(fault.value) && e == ErrorOf(fault.value) && ExtractingOk())
      ensures Failed(e, fault, Extracting, excess, calm)
    {
      hide ExtractingOk, Stuck, ErrorOf, SomeKeyOutOfRange;
    }

    lemma BatchBounds()
      requires ExtractingOk()
      ensures |batch| <= batchCapacity && 0 < batchCapacity
    {
      hide Extracted, Quiet, Runs, FullRuns, LeOf, AllDescriptors;
    }

    /** The step failed for want of a pass file. */
    predicate PassUncreated(r: Result<()>, fault: Option<ScratchFault>) {
      r.Err? && fault.Some? && fault.value.PassCreate? && r.error == fault.value.error
    }

    /** One bounded piece of work, whatever the phase, in which one scratch
        operation may fail. It keeps what holds between steps and leaves less
        work. After a failing operation the invariant holds exactly if the
        operation is not fatal, and a session that is stuck stays so. */
    method Step(budget: nat, calm: bool, fault: Option<ScratchFault>) returns (r: Result<()>, left: nat)
      requires Valid() || Stuck()
      requires budget > 0 && phase != SortPhase.Complete && phase != SortPhase.Cancelled
      modifies this, Owned()
      ensures old(Stuck()) ==> r == Err(InvalidScratch) && Stuck() && uncreated == old(uncreated)
      ensures phase != SortPhase.Cancelled
      ensures fresh(Owned() - old(Owned()))
      ensures old(!Stuck()) ==> uncreated == old(uncreated) + if PassUncreated(r, fault) then 1 else 0
      ensures r.Ok? ==> left <= budget && Valid() && Below(Work(), old(Work())) && (Excess() ==> old(Excess()))
      ensures r.Err? && old(!Stuck()) ==> Failed(r.error, fault, old(phase), old(Excess()), calm)
    {
      hide ExtractingOk, SortingOk, MergingOk, BuildingOk, Valid, Stuck, Owned, Work, Below, Failed, Excess;
      PhaseHolds();
      match phase
      case Extracting => r, left := ExtractStep(budget, calm, fault);
      case SortingRuns => r, left := SortStep(budget, calm, fault);
      case Merging => r, left := MergeTurn(budget, calm, fault);
      case BuildingInverse => r, left := BuildStep(budget, calm, fault);
    }

    lemma PhaseHolds()
      requires Valid() || Stuck()
      ensures phase == Merging ==> MergingOk() || Stuck()
      ensures phase != Merging ==> !Stuck()
      ensures phase == Extracting ==> ExtractingOk()
      ensures phase == SortingRuns ==> SortingOk()
      ensures phase == BuildingInverse ==> BuildingOk()
    {
      hide ExtractingOk, SortingOk, MergingOk, BuildingOk, CompleteOk;
    }

    /** A session over a source that has not been read yet. */
    constructor (env: Env, batchCapacity: nat, fanIn: nat, stepBytes: nat)
      requires 0 < batchCapacity <= U64_MAX && 2 <= fanIn <= WT.EMPTY && 0 < stepBytes
      ensures Valid() && fresh(Owned()) && phase == Extracting && !Excess() && uncreated == 0
      ensures this.env == env && this.batchCapacity == batchCapacity && this.fanIn == fanIn
      ensures this.stepBytes == stepBytes
    {
      hide DescriptorOf, MergingOk, BuildingOk, SortingOk, CompleteOk, RecordsFrom;
      this.env := env;
      this.batchCapacity := batchCapacity;
      this.fanIn := fanIn;
      this.stepBytes := stepBytes;
      phase := Extracting;
      scanner := new BoundaryScanner(env.format, 0, env.src);
      scanBuffer, scanPos, locator, builder, comparison, inverseBuilder := [], 0, null, null, null, null;
      span, keyRead, sorted := Span(0, 0), [], [];
      batch, alternate := [], seq(batchCapacity, _ => Blank(0, Span(0, 0)));
      merge, writeAt, records := BM.Merge(0, 0, 0, 0, 0, 0, 0), 0, 0;
      runFile, passFile, runWidth, pass, groupStart := Some([]), None, batchCapacity, 0, 0;
      runClaimed, passClaimed, passes, uncreated := 0, 0, 0, 0;
      var leaves := WT.PowerOfTwoAtLeast(fanIn, 1);
      tree := WT.Tree(leaves, seq(2 * leaves, _ => WT.EMPTY), seq(fanIn, _ => None), seq(fanIn, _ => 0),
        seq(fanIn, _ => 0), 0, WT.Idle);
      pages := [EmptyPage()];
      order, inverse, inverseAt := [], [], 0;
      new;
      NothingRead();
    }

    /** A session that has two records on disk and is about to write the first. */
    constructor TwoRecordMerge(env: Env, file: seq<Descriptor>, winner: nat)
      requires file == AllDescriptors(env) && |file| == 2 && !SomeKeyOutOfRange(env)
      requires winner == if LeOf(env)(file[0], file[1]) then 0 else 1
      ensures Valid() && fresh(Owned()) && phase == Merging
      ensures tree.stage.Emit? && tree.nodes == [WT.EMPTY, winner, 0, 1]
    {
      hide AllDescriptors, KeyOutOfRange, LeOf, EmptyPage, WT.Valid, Passes.GroupOk, Valid, MergingOk;
      this.env := env;
      batchCapacity, fanIn, stepBytes, phase := 1, 2, 1, Merging;
      scanner, locator, builder, comparison, inverseBuilder := null, null, null, null, null;
      records, runWidth, pass, passes, uncreated, groupStart := 2, 1, 1, 1, 0, 0;
      runFile, runClaimed, passFile, passClaimed := Some(file), 2, Some([]), 0;
      pages, tree := [EmptyPage(), EmptyPage()], TwoRunTree(file, winner);
      new;
      TwoRunsWon(LeOf(env), file, winner);
      TwoRunsGroup(LeOf(env), file, winner);
      TwoRunsMerging(file, winner);
      MergingIsValid();
    }

    lemma NothingRead()
      requires ConfigOk() && Quiet() && scanner != null && scanner.format == env.format && scanner.Valid(env.src)
      requires scanner.offset == scanner.recordStart == 0 && scanBuffer == [] && scanPos == 0
      requires !HasPending() && records == 0 && batch == [] && runFile == Some([]) && Buffers()
      ensures ExtractingOk()
    {
      hide DescriptorOf, RecordsFrom, Describe, LeOf, IdleTree;
      RecordSpansOk(env.format, env.src, 0);
      assert ToCome() == AllRecords(env.format, env.src);
      assert AllDescriptors(env)[0..] == AllDescriptors(env);
    }

    /** Advances by one byte budget, with scratch operations failing or not. A
        cancelled session stays cancelled; a source that changed is an error.
        `failed` is the operation that failed, in phase `at`: the session can be
        advanced again exactly if that is not fatal. Once stuck, a session that
        is not cancelled answers with an error forever. */
    method Advance(calm: bool)
      returns (r: Result<SortPhase>, ghost failed: Option<ScratchFault>, ghost at: SortPhase)
      requires Valid() || Stuck()
      modifies this, Owned()
      ensures fresh(Owned() - old(Owned()))
      ensures old(Stuck()) ==>
                || phase == SortPhase.Cancelled
                || (Stuck() && (r == Err(InvalidScratch) || r == Err(SourceChanged)))
      ensures r.Ok? ==> Valid() && r.value == phase && (Excess() ==> old(Excess()))
      ensures r.Ok? ==>
                || phase == SortPhase.Cancelled
                || (phase == SortPhase.Complete && old(phase) == SortPhase.Complete)
                || Below(Work(), old(Work()))
      ensures r.Err? && old(!Stuck()) ==> Failed(r.error, failed, at, old(Excess()), calm)
      ensures calm ==> failed.None? && (phase == SortPhase.Cancelled ==> old(phase) == SortPhase.Cancelled)
      ensures r.Ok? ==> failed.None?
      ensures uncreated == old(uncreated) + if failed.Some? && failed.value.PassCreate? then 1 else 0
    {
      hide Valid, Work, Below, Owned, Stuck, Excess, Failed;
      failed, at := None, phase;
      var cancelled: bool := *;
      if cancelled && !calm {
        Cancel();
        return Ok(phase), None, at;
      }
      var changed: bool := *;
      if changed && !calm {
        ChangedFails(at, Excess());
        return Err(SourceChanged), None, at;
      }
      StepNonZero();
      PhaseHolds();
      if phase != SortPhase.Complete && phase != SortPhase.Cancelled {
        var steps;
        steps, failed, at := StepWhileBudget(calm);
        if steps.Err? {
          return Err(steps.error), failed, at;
        }
      }
      changed := *;
      if changed && !calm {
        ChangedFails(at, old(Excess()));
        return Err(SourceChanged), None, at;
      }
      r := Ok(phase);
    }

    lemma ChangedFails(at: SortPhase, excess: bool)
      ensures Valid() ==> Failed(SourceChanged, None, at, excess, false)
    {
      hide Valid, Stuck;
    }

    /** The error tells whether a scratch operation failed. */
    lemma FailedThen(e: Error, fault: Option<ScratchFault>, at: SortPhase, excess: bool, before: bool, calm: bool)
      requires Failed(e, fault, at, excess, calm) && (excess ==> before)
      ensures Failed(e, fault, at, before, calm) && Failed(e, if Happened(e) then fault else None, at, before, calm)
      ensures PassUncreated(Err(e), fault) <==> Happened(e) && fault.Some? && fault.value.PassCreate?
    {
      hide Valid, Stuck, SomeKeyOutOfRange;
    }

    /** Steps until the budget is spent, the sort is complete, it is cancelled
        or a step fails. */
    method StepWhileBudget(calm: bool)
      returns (r: Result<()>, ghost failed: Option<ScratchFault>, ghost at: SortPhase)
      requires Valid() || Stuck()
      requires stepBytes > 0 && phase != SortPhase.Complete && phase != SortPhase.Cancelled
      modifies this, Owned()
      ensures fresh(Owned() - old(Owned()))
      ensures old(Stuck()) ==> phase == SortPhase.Cancelled || (Stuck() && r == Err(InvalidScratch))
      ensures r.Ok? ==> Valid() && failed.None? && (Excess() ==> old(Excess()))
      ensures r.Ok? ==> phase == SortPhase.Cancelled || Below(Work(), old(Work()))
      ensures r.Err? && old(!Stuck()) ==> Failed(r.error, failed, at, old(Excess()), calm)
      ensures calm ==> failed.None? && phase != SortPhase.Cancelled
      ensures uncreated == old(uncreated) + if failed.Some? && failed.value.PassCreate? then 1 else 0
    {
      hide Valid, Work, Below, Owned, Stuck, Excess, Failed;
      NeverBoth();
      ghost var start := Work();
      var budget := stepBytes;
      failed, at := None, phase;
      while budget > 0 && phase != SortPhase.Complete && phase != SortPhase.Cancelled
        invariant (Valid() || Stuck()) && fresh(Owned() - old(Owned())) && failed.None? && uncreated == old(uncreated)
        invariant old(Stuck()) ==> phase == SortPhase.Cancelled || (Stuck() && phase == old(phase) && budget > 0)
        invariant old(!Stuck()) || phase == SortPhase.Cancelled ==> Valid() && !Stuck()
        invariant calm ==> phase != SortPhase.Cancelled
        invariant Excess() ==> old(Excess())
        invariant phase == SortPhase.Cancelled || Below(Work(), start) ||
                  (Work() == start && budget > 0 && phase == old(phase))
        decreases phase != SortPhase.Cancelled, Work().a, Work().b, Work().c, Work().d, Work().e, Work().f
      {
        var cancelled: bool := *;
        if cancelled && !calm {
          Cancel();
          NeverBoth();
          break;
        }
        ghost var before, mid := Work(), Owned();
        var fault: Option<ScratchFault> := *;
        if calm {
          fault := None;
        }
        at := phase;
        var step;
        label Before:
        step, budget := Step(budget, calm, fault);
        forall o | o in Owned() && o !in old(Owned())
          ensures fresh(o)
        {
          if o in mid {
            assert o in mid - old(Owned());
          } else {
            assert o in Owned() - mid;
            assert old(allocated(o)) ==> old@Before(allocated(o));
          }
        }
        if step.Err? {
          if old(!Stuck()) {
            FailedThen(step.error, fault, at, old@Before(Excess()), old(Excess()), calm);
          }
          return Err(step.error), if Happened(step.error) then fault else None, at;
        }
        NeverBoth();
        BelowTransitive(Work(), before, start);
      }
      r := Ok(());
    }

    /** The error of a scratch operation that fails. */
    predicate Happened(e: Error) {
      e == ScratchIo || e == Quota || e == Allocation
    }

    method Cancel()
      requires Valid() || Stuck()
      modifies this`phase
      ensures Valid() && phase == SortPhase.Cancelled
    {
      StepNonZero();
      phase := SortPhase.Cancelled;
    }

    lemma StepNonZero()
      requires Valid() || Stuck()
      ensures stepBytes > 0 && ConfigOk()
    {
      hide Extracted, Quiet, Stored, Scanned, IsSorted, OnDisk, GroupState, IdleState, MapsSoFar, SortedFile;
    }

    /** Repeated steps end: the work left decreases each time. What they end in
        is the sorted order, a cancellation or an error. A calm run sorts exactly
        if every number can be. The passes reported are
        the least that are enough, and those whose file could not be created. */
    method Run(calm: bool)
      returns (r: Result<SortPhase>, ghost failed: Option<ScratchFault>, ghost at: SortPhase)
      requires Valid()
      modifies this, Owned()
      ensures r.Ok? ==> Valid() && r.value == phase && (phase == SortPhase.Complete || phase == SortPhase.Cancelled)
      ensures r == Ok(SortPhase.Complete) ==> IsSorted(env, order) && Inverts(order, inverse) && PassesUsed()
      ensures r == Ok(SortPhase.Complete) ==> pass == passes + old(uncreated) && !SomeKeyOutOfRange(env)
      ensures r.Err? ==> Failed(r.error, failed, at, old(Excess()), calm)
      ensures calm && old(phase) != SortPhase.Cancelled && old(!Excess()) ==>
                if SomeKeyOutOfRange(env) then r == Err(NumericRange) else r == Ok(SortPhase.Complete)
      decreases Work().a, Work().b, Work().c, Work().d, Work().e, Work().f
    {
      hide Valid, Work, Below, Owned, Excess, Stuck, Failed, SomeKeyOutOfRange;
      ghost var before := Work();
      NeverBoth();
      r, failed, at := Advance(calm);
      if calm && r.Err? && old(!Excess()) {
        CalmFails(r.error, at);
      }
      if r.Err? || phase == SortPhase.Complete || phase == SortPhase.Cancelled {
        if r == Ok(SortPhase.Complete) {
          CompleteIsSorted();
        }
        return;
      }
      BelowTransitive(Work(), before, before);
      ghost var excess := Excess();
      r, failed, at := Run(calm);
      if r.Err? {
        FailedThen(r.error, failed, at, excess, old(Excess()), calm);
      }
    }

    lemma CalmFails(e: Error, at: SortPhase)
      requires Failed(e, None, at, false, true)
      ensures KeyError(e)
    {
      hide Valid, Stuck, SomeKeyOutOfRange;
    }

    lemma NeverBoth()
      ensures !(Valid() && Stuck())
    {
      hide MergingOk;
      if Stuck() {
        StuckIsNotValid();
      }
    }

    lemma CompleteIsSorted()
      requires Valid() && phase == SortPhase.Complete
      ensures IsSorted(env, order) && Inverts(order, inverse) && PassesUsed() && PassCount()
      ensures !SomeKeyOutOfRange(env)
    {
      hide ExtractingOk, SortingOk, MergingOk, BuildingOk, ShownBefore, AllRecords, KeyOutOfRange, PassesUsed;
    }

    /** Hands over the finished maps. */
    method IntoOrder(calm: bool) returns (r: Result<SortedOrder>)
      requires Valid()
      ensures r.Ok? ==>
                && IsSorted(env, r.value.order) && r.value.sourceSize == |env.src|
                && Inverts(r.value.order, r.value.inverse) && r.value.count == |r.value.order|
                && PassesUsed() && PassCount()
      ensures r.Ok? ==> phase == SortPhase.Complete && r.value.order == order && r.value.inverse == inverse
      ensures r == Err(InvalidConfig) <==> phase != SortPhase.Complete
      ensures calm && phase == SortPhase.Complete ==> r.Ok?
    {
      hide ExtractingOk, SortingOk, MergingOk, BuildingOk, IsSorted, PassesUsed;
      if phase != SortPhase.Complete {
        return Err(InvalidConfig);
      }
      var changed := Disturbed(calm);
      var refused := Disturbed(calm);
      if changed {
        return Err(SourceChanged);
      }
      if refused {
        return Err(Allocation);
      }
      r := Ok(SortedOrder(order, inverse, records, |env.src|));
    }
  }

  /** Opens a sort, unless its limits make no sense or memory is refused. */
  method Open(env: Env, batchCapacity: nat, fanIn: nat, stepBytes: nat, calm: bool) returns (r: Result<SortSession>)
    requires batchCapacity <= U64_MAX && fanIn <= WT.EMPTY
    ensures r == Err(InvalidConfig) <==> batchCapacity == 0 || fanIn < 2 || stepBytes == 0
    ensures calm && r.Err? ==> r.error == InvalidConfig
    ensures r.Ok? ==>
              && fresh(r.value) && r.value.Valid() && fresh(r.value.Owned()) && r.value.phase == Extracting
              && !r.value.Excess() && r.value.uncreated == 0
              && r.value.env == env && r.value.batchCapacity == batchCapacity && r.value.fanIn == fanIn
  {
    if batchCapacity == 0 || fanIn < 2 || stepBytes == 0 {
      return Err(InvalidConfig);
    }
    var memory := Reserve(calm);
    if memory.Err? {
      return Err(Allocation);
    }
    var session := new SortSession(env, batchCapacity, fanIn, stepBytes);
    r := Ok(session);
  }

  // -------------------------------------------------- a merge that cannot go on

  /** Two records, each a run of its own, with both heads loaded and the tree
      built over them. */
  function TwoRunTree(file: seq<Descriptor>, winner: nat): WT.Tree<Descriptor>
    requires |file| == 2
  {
    WT.Tree(2, [WT.EMPTY, winner, 0, 1], [Some(file[0]), Some(file[1])], [0, 1], [1, 2], 2, WT.Emit)
  }

  lemma TwoRunsWon(le: (Descriptor, Descriptor) -> bool, file: seq<Descriptor>, winner: nat)
    requires |file| == 2 && winner == if le(file[0], file[1]) then 0 else 1
    ensures WT.Valid(le, TwoRunTree(file, winner))
  {
    var t := TwoRunTree(file, winner);
    assert WT.Above(2, 1) && WT.Above(3, 1);
    assert WT.LeafOk(t, 0) && WT.LeafOk(t, 1) && WT.NodeOk(le, t, 1) && WT.Named(t, 1);
  }

  lemma TwoRunsUnread(le: (Descriptor, Descriptor) -> bool, file: seq<Descriptor>, winner: nat)
    requires |file| == 2
    ensures WT.Merging(le, file, TwoRunTree(file, winner), multiset(file), [])
  {
    var t := TwoRunTree(file, winner);
    assert WT.RunOk(le, file, t, 0) && WT.RunOk(le, file, t, 1);
    assert file == [file[0]] + [file[1]] && file[0..1] == [file[0]] && file[1..2] == [file[1]];
    assert WT.AllUnread(file, t.next, t.end, 0) == multiset{};
    assert WT.AllUnread(file, t.next, t.end, 1) == multiset{file[0]};
  }

  lemma TwoRunsGroup(le: (Descriptor, Descriptor) -> bool, file: seq<Descriptor>, winner: nat)
    requires |file| == 2
    ensures Passes.GroupOk(le, file, [], 1, 2, 0, TwoRunTree(file, winner))
  {
    hide WT.Merging;
    TwoRunsUnread(le, file, winner);
    assert file[0..2] == file && file[..0] == [] && file[2..] == [];
  }

  /** Whatever the merge, when the winner cannot be written each further step is
      refused, whether or not scratch operations fail in it. */
  method AfterFailedEmit(s: SortSession, how: WriteFault, again: Option<ScratchFault>, budget: nat)
    returns (first: Result<()>, second: Result<()>, third: Result<()>)
    requires s.Valid() && s.phase == Merging && s.tree.stage.Emit? && s.tree.nodes[1] != WT.EMPTY && budget > 0
    modifies s, s.Owned()
    ensures first == Err(if how == OverQuota then Quota else ScratchIo)
    ensures second == Err(InvalidScratch) && third == Err(InvalidScratch) && s.Stuck()
  {
    hide SortSession.MergingOk, SortSession.Owned, SortSession.Stuck, SortSession.Valid, SortSession.Failed;
    hide SortSession.Work, Below, SortSession.Excess;
    s.PhaseHolds();
    s.NeverBoth();
    var left;
    first, left := s.EmitOne(budget, Some(MergedWrite(how)));
    second, left := s.Step(budget, false, again);
    s.PhaseHolds();
    third, left := s.Step(budget, true, None);
  }

  lemma TwoLines(env: Env)
    requires env.src == [97, LF, 98] && env.format == Lines
    ensures |AllDescriptors(env)| == 2
  {
    hide AllDescriptors, ScanRecord;
    CountDescriptors(env);
    LineEnd(env.src, 0, 1);
    LineEnd(env.src, 2, 3);
    assert RecordsFrom(Lines, env.src, 3) == [];
    assert RecordsFrom(Lines, env.src, 2) == [Span(2, 3)];
  }

  /** The two lines of "a\nb" are merged and the first cannot be written. */
  method StuckExample(env: Env, file: seq<Descriptor>, winner: nat)
    returns (first: Result<()>, second: Result<()>, third: Result<()>)
    requires env.src == [97, LF, 98] && env.format == Lines && file == AllDescriptors(env)
    requires env.request.mode == Text
    requires |file| == 2 ==> winner == if LeOf(env)(file[0], file[1]) then 0 else 1
    ensures first == Err(ScratchIo) && second == Err(InvalidScratch) && third == Err(InvalidScratch)
  {
    hide AllDescriptors, LeOf, SortSession.Valid, SortSession.Owned, KeyOutOfRange;
    TwoLines(env);
    var session := new SortSession.TwoRecordMerge(env, file, winner);
    first, second, third := AfterFailedEmit(session, Unwritten, None, 1);
  }

  lemma CountBounded(env: Env)
    ensures RecordCount(env) <= |env.src|
  {
    var rs := AllRecords(env.format, env.src);
    if |rs| > 0 {
      RestartAt(env.format, env.src, 0, |rs| - 1);
    }
  }

  /** A record that is there but not readable lies on the last page of a file
      charged with more than it holds. */
  lemma Unreadable(file: seq<Descriptor>, claimed: nat, index: nat)
    requires index < |file| <= claimed
    ensures !Readable(file, claimed, index) ==> |file| < claimed
  {}

  lemma AtLeastTwice(a: nat, b: nat)
    requires b >= 2
    ensures a * b >= 2 * a
  {
    assert a * (b - 2) >= 0;
  }

  lemma AtLeastAsWide(a: nat, b: nat, width: nat)
    requires a <= b
    ensures a * width <= b * width
  {}

  lemma WiderRuns(cap: nat, fan: nat, p: nat)
    ensures cap * Power(fan, p) * fan == cap * Power(fan, p + 1)
  {
    assert Power(fan, p + 1) == fan * Power(fan, p);
  }

  lemma CeilCovers(n: nat, w: nat)
    requires w > 0
    ensures Inverse.CeilDiv(n, w) * w >= n
  {}
}
