/** The resumable search session: it alternates between scanning for the next
    record and matching the bytes of the one found, under a work budget, and
    stores hits in a scratch file of bounded size behind one cached page. */
module QuerySession {
  import opened Prelude
  import opened Records
  import opened Scanner
  import opened Literal
  import opened Hits

  const HEADER_BYTES: nat := 48
  const ENTRY_BYTES: nat := 24

  /** A record being matched. */
  datatype Pending = Pending(row: nat, span: Span, cursor: nat, state: nat)

  datatype QuotaDetails = QuotaDetails(quota: nat, used: nat, required: nat, storedHits: nat, rejected: Hit)

  datatype QueryStatus = Running | Cancelled | Complete | QuotaExceeded(details: QuotaDetails)

  /** What matching left of a record. */
  datatype PendingStatus = More | Stale | Done | Refused(details: QuotaDetails)

  /** What one turn of the loop decided. */
  datatype Turn = Continue(left: nat) | Return(status: QueryStatus)

  /** The page of `n` entries an index falls on holds it. */
  lemma PageHolds(index: nat, n: nat)
    requires n > 0
    ensures index / n * n <= index < index / n * n + n
  {}

  // ------------------------------------------------------------ failing writes

  /** What becomes of the hits of one chunk: all stored, or a number of them
      before the file is full or a write fails. */
  datatype Fate = AllStored | Full(stored: nat) | Failed(stored: nat, error: Error)

  /** The fate of `hits` hits of which `k` are stored, when the disk refuses the
      write of number `failAt`, if there is one. */
  function FateOf(hits: nat, used: nat, quota: nat, failAt: nat, k: nat): Fate
    requires k <= hits
    decreases hits - k
  {
    var required := used + ENTRY_BYTES * (k + 1);
    if k == hits then AllStored
    else if required > U64_MAX then Failed(k, AddressSpace)
    else if required > quota then Full(k)
    else if failAt == k then Failed(k, ScratchIo)
    else FateOf(hits, used, quota, failAt, k + 1)
  }

  /** One byte's hits, and then the rest. */
  lemma FateStep(hits: nat, used: nat, quota: nat, failAt: nat, k: nat, n: nat)
    requires n <= 1 && k + n <= hits
    ensures var all := FateOf(hits, used, quota, failAt, k);
            match FateOf(n, used + ENTRY_BYTES * k, quota, if failAt == k then 0 else 1, 0)
            case AllStored => all == FateOf(hits, used, quota, failAt, k + n)
            case Full(_) => all == Full(k)
            case Failed(_, e) => all == Failed(k, e)
  {}

  lemma {:induction false} FailuresOf(hits: nat, used: nat, quota: nat, failAt: nat, k: nat)
    requires k <= hits
    ensures var fate := FateOf(hits, used, quota, failAt, k);
            fate.Failed? ==>
              || (fate.error == ScratchIo && failAt < hits)
              || (fate.error == AddressSpace && (used + ENTRY_BYTES * k <= quota ==> quota + ENTRY_BYTES > U64_MAX))
    decreases hits - k
  {
    if k < hits {
      FailuresOf(hits, used, quota, failAt, k + 1);
    }
  }

  /** A second hit would be written after a first, and could fail. */
  predicate SecondMayFail(hits: nat, used: nat, quota: nat) {
    && hits >= 2 && used + ENTRY_BYTES <= quota
    && (used + 2 * ENTRY_BYTES <= quota || used + 2 * ENTRY_BYTES > U64_MAX)
  }

  /** The failure of write number `failAt`, if it comes to that, leaves nothing
      of the chunk stored. */
  predicate LeavesNothing(hits: nat, used: nat, quota: nat, failAt: nat) {
    var fate := FateOf(hits, used, quota, failAt, 0);
    fate.Failed? ==> fate.stored == 0
  }

  /** No failing write can leave hits of its chunk behind exactly when there is
      no second write to fail; in particular when the chunk has at most one
      hit. */
  lemma FailuresAreSafe(hits: nat, used: nat, quota: nat)
    requires quota <= U64_MAX
    ensures (forall failAt: nat :: LeavesNothing(hits, used, quota, failAt)) <==> !SecondMayFail(hits, used, quota)
    ensures used + 2 * ENTRY_BYTES <= quota ==>
              ((forall failAt: nat :: LeavesNothing(hits, used, quota, failAt)) <==> hits <= 1)
  {
    if SecondMayFail(hits, used, quota) {
      assert FateOf(hits, used, quota, 1, 0) == FateOf(hits, used, quota, 1, 1);
      assert !LeavesNothing(hits, used, quota, 1);
    } else {
      forall failAt: nat
        ensures LeavesNothing(hits, used, quota, failAt)
      {
        if hits >= 2 {
          assert FateOf(hits, used, quota, failAt, 1).Full? || used + ENTRY_BYTES > quota;
        } else if hits == 1 {
          assert FateOf(hits, used, quota, failAt, 1) == AllStored;
        }
      }
    }
  }

  /** Hits that follow themselves are out of order. */
  lemma Repeated(kept: seq<Hit>, all: seq<Hit>, mark: nat, twice: nat)
    requires 0 < twice && mark + twice <= |kept| && mark + twice <= |all|
    requires kept[|kept| - twice..] == all[mark..mark + twice]
    ensures |kept + all[mark..]| > |all| && !InOrder(kept + all[mark..])
  {
    var s, i := kept + all[mark..], |kept| - twice;
    assert s[i] == kept[i..][0] == all[mark..mark + twice][0] == all[mark];
    assert s[|kept|] == all[mark..][0] == all[mark];
    assert !Before(s[i], s[|kept|]);
  }

  lemma CleanOrRepeated(stored: seq<Hit>, kept: seq<Hit>, all: seq<Hit>, mark: nat, twice: nat)
    requires mark <= |all| && stored == kept + all[mark..] && InOrder(all)
    requires if twice == 0 then kept == [] && mark == 0
             else mark + twice <= |kept| && mark + twice <= |all| && kept[|kept| - twice..] == all[mark..mark + twice]
    ensures |stored| > |all| || twice == 0
    ensures twice == 0 <==> stored == all
    ensures twice == 0 <==> InOrder(stored)
  {
    hide InOrder;
    if twice == 0 {
      assert stored == all;
    } else {
      Repeated(kept, all, mark, twice);
    }
  }

  class QuerySession {
    const q: Search
    const literal: CompiledLiteral
    const bufferBytes: nat
    const checkEvery: nat
    const pageCapacity: nat
    const quota: nat
    var scanner: BoundaryScanner?
    var pending: Option<Pending>
    var stored: seq<Hit>
    var usedBytes: nat
    var pageFirst: nat
    var pageHits: seq<Hit>
    var nextRow: nat
    var examined: nat
    var diagnostic: Option<Diagnostic>
    var status: QueryStatus
    var sourceFailed: bool
    ghost var kept: seq<Hit>
    ghost var mark: nat
    ghost var twice: nat

    // ------------------------------------------------------------- invariants

    ghost predicate ConfigOk() {
      && Compiled(literal) && literal.bytes == q.needle && literal.mode == q.mode && RowsOk(q)
      && bufferBytes > 0 && checkEvery > 0 && pageCapacity > 0 && HEADER_BYTES <= quota <= U64_MAX
    }

    /** The records found are the first `nextRow`; the scanner has the rest. */
    ghost predicate ScanOk()
      reads this`scanner, this`nextRow, this`diagnostic, scanner
    {
      ScanOkAt(nextRow)
    }

    ghost predicate ScanOkAt(row: nat)
      reads this`scanner, this`diagnostic, scanner
    {
      && row <= |Rows(q)|
      && if scanner == null then row == |Rows(q)| && diagnostic == DiagnosticFrom(q.format, q.src, 0)
         else
           && scanner.format == q.format && scanner.Valid(q.src)
           && scanner.Unread(q.src) == Rows(q)[row..]
           && diagnostic.None?
           && DiagnosticFrom(q.format, q.src, scanner.recordStart) == DiagnosticFrom(q.format, q.src, 0)
    }

    /** The matcher has read the record from its start to the cursor. */
    ghost predicate RecordOk(p: Pending) {
      && p.row < |Rows(q)| && p.span == Rows(q)[p.row]
      && p.span.start <= p.cursor <= p.span.end <= |q.src|
      && Matching(literal, Folded(q.mode, q.src[p.span.start..p.cursor]), p.state)
    }

    ghost predicate PendingOk()
      reads this`pending, this`nextRow, this`examined
    {
      && nextRow == examined + (if pending.Some? then 1 else 0)
      && (pending.Some? ==> RecordOk(pending.value) && pending.value.row == examined)
    }

    /** The file stays within its quota. */
    ghost predicate StoreOk()
      reads this`stored, this`usedBytes
    {
      usedBytes == HEADER_BYTES + ENTRY_BYTES * |stored| <= quota
    }

    /** The page holds what the file holds there. */
    ghost predicate PageOk()
      reads this`stored, this`pageFirst, this`pageHits
    {
      && |pageHits| <= pageCapacity
      && (pageHits != [] ==>
            pageFirst + |pageHits| <= |stored| && pageHits == stored[pageFirst..pageFirst + |pageHits|])
    }

    /** All hits ending where the session has read to. */
    ghost function Found(): seq<Hit>
      reads this`pending, this`nextRow
    {
      match pending
      case None => if RowsOk(q) && nextRow <= |Rows(q)| then HitsOfRows(q, nextRow) else []
      case Some(p) => FoundAt(p.row, p.span.start, p.cursor)
    }

    /** The hits up to `cursor` of the record of `row`, and all before it. */
    ghost function FoundAt(row: nat, start: nat, cursor: nat): seq<Hit> {
      if RowsOk(q) && row < |Rows(q)| && start <= cursor <= |q.src| then
        HitsOfRows(q, row) + HitsTo(q, row, start, cursor)
      else []
    }

    /** Nothing has been stored twice. */
    ghost predicate Clean()
      reads this`twice
    {
      twice == 0
    }

    /** `kept` is the file when a write last failed with hits of its chunk
        already stored: the last `twice` of them are hits from number `mark`
        on, which the saved cursor lies before. */
    ghost predicate KeptOk()
      reads this`kept, this`mark, this`twice
    {
      if twice == 0 then kept == [] && mark == 0
      else
        && RowsOk(q) && mark + twice <= |kept| && mark + twice <= |AllHits(q)|
        && kept[|kept| - twice..] == AllHits(q)[mark..mark + twice]
    }

    /** `hits` is `kept` and then what was found from number `mark` on. */
    ghost predicate Holds(hits: seq<Hit>)
      reads this`kept, this`mark, this`twice, this`pending, this`nextRow
    {
      KeptOk() && mark <= |Found()| && hits == kept + Found()[mark..]
    }

    /** A refused hit is the next one, and the file had no room for it. */
    ghost predicate RefusedNext(d: QuotaDetails)
      reads this`stored, this`usedBytes, this`kept, this`mark, this`twice, this`pending, this`nextRow
    {
      && Holds(stored + [d.rejected]) && usedBytes + ENTRY_BYTES > quota
      && d == QuotaDetails(quota, usedBytes, usedBytes + ENTRY_BYTES, |stored|, d.rejected)
    }

    ghost predicate StatusOk()
      reads this`status, this`pending, this`nextRow, this`stored, this`usedBytes, this`scanner,
            this`kept, this`mark, this`twice
    {
      match status
      case Complete => scanner == null && pending.None? && Holds(stored)
      case QuotaExceeded(d) => RefusedNext(d)
      case _ => Holds(stored)
    }

    ghost predicate Valid()
      reads this, scanner
    {
      ConfigOk() && ScanOk() && PendingOk() && StoreOk() && PageOk() && StatusOk()
    }

    constructor (q: Search, literal: CompiledLiteral, bufferBytes: nat, checkEvery: nat, pageCapacity: nat, quota: nat)
      requires Compiled(literal) && literal.bytes == q.needle && literal.mode == q.mode
      requires bufferBytes > 0 && checkEvery > 0 && pageCapacity > 0 && HEADER_BYTES <= quota <= U64_MAX
      ensures Valid() && Clean() && this.q == q && this.quota == quota && status == Running && fresh(scanner)
      ensures !sourceFailed
      ensures this.literal == literal && this.bufferBytes == bufferBytes && this.checkEvery == checkEvery
      ensures nextRow == 0 && examined == 0 && pending.None? && stored == [] && usedBytes == HEADER_BYTES
    {
      hide Valid, AllRecords, DiagnosticFrom, Compiled, BoundaryScanner.Valid;
      this.q, this.literal := q, literal;
      this.bufferBytes, this.checkEvery, this.pageCapacity, this.quota := bufferBytes, checkEvery, pageCapacity, quota;
      scanner := new BoundaryScanner(q.format, 0, q.src);
      pending, stored, usedBytes := None, [], HEADER_BYTES;
      pageFirst, pageHits := 0, [];
      nextRow, examined, diagnostic := 0, 0, None;
      status, sourceFailed := Running, false;
      kept, mark, twice := [], 0, 0;
      new;
      NothingYet();
    }

    lemma NothingYet()
      requires Compiled(literal) && literal.bytes == q.needle && literal.mode == q.mode
      requires bufferBytes > 0 && checkEvery > 0 && pageCapacity > 0 && HEADER_BYTES <= quota <= U64_MAX
      requires scanner != null && scanner.format == q.format && scanner.Valid(q.src) && scanner.recordStart == 0
      requires nextRow == examined == 0 && pending.None? && diagnostic.None? && status == Running
      requires stored == pageHits == kept == [] && usedBytes == HEADER_BYTES && mark == twice == 0
      ensures Valid()
    {
      hide RecordsFrom, DiagnosticFrom, Compiled, BoundaryScanner.Valid, RowsOk;
      RowsAreOk(q);
      assert Rows(q)[0..] == Rows(q);
    }

    // ---------------------------------------------------------------- reading

    /** A changed source is remembered; every later call fails. */
    method EnsureUnchanged(calm: bool) returns (r: Result<()>)
      modifies this`sourceFailed
      ensures r.Ok? <==> !sourceFailed
      ensures old(sourceFailed) ==> sourceFailed
      ensures sourceFailed ==> old(sourceFailed) || !calm
    {
      if sourceFailed {
        return Err(SourceChanged);
      }
      var changed := Disturbed(calm);
      sourceFailed := changed;
      r := if changed then Err(SourceChanged) else Ok(());
    }

    method CheckedReadAt(offset: nat, request: nat, calm: bool) returns (r: Result<seq<byte>>)
      requires offset < |q.src| && 0 < request
      modifies this`sourceFailed
      ensures r.Ok? ==>
                && 0 < |r.value| <= request && offset + |r.value| <= |q.src|
                && r.value == q.src[offset..offset + |r.value|]
      ensures r.Err? ==> SourceError(r.error)
      ensures calm && !old(sourceFailed) ==> r.Ok? && !sourceFailed
      ensures sourceFailed <==> r == Err(SourceChanged)
      ensures old(sourceFailed) ==> sourceFailed
    {
      var before := EnsureUnchanged(calm);
      if before.Err? {
        return Err(SourceChanged);
      }
      var chunk := ReadAt(q.src, offset, request, calm);
      if chunk.Err? {
        sourceFailed := chunk.error == SourceChanged;
        return chunk;
      }
      var after := EnsureUnchanged(calm);
      r := if after.Err? then Err(SourceChanged) else chunk;
    }

    // ----------------------------------------------------------------- storing

    /** Writes the next entry, unless the file would outgrow its quota or the
        disk refuses the write; the page follows the file. */
    method AppendHit(hit: Hit, refuse: bool) returns (r: Result<Option<QuotaDetails>>)
      requires ConfigOk() && StoreOk() && PageOk()
      modifies this`stored, this`usedBytes, this`pageFirst, this`pageHits
      ensures StoreOk() && PageOk()
      ensures stored == if r == Ok(None) then old(stored) + [hit] else old(stored)
      ensures r.Ok? && r.value.Some? ==>
                && usedBytes + ENTRY_BYTES > quota
                && r.value.value == QuotaDetails(quota, usedBytes, usedBytes + ENTRY_BYTES, |stored|, hit)
      ensures var fate := FateOf(1, old(usedBytes), quota, if refuse then 0 else 1, 0);
              match r
              case Ok(None) => fate == AllStored && usedBytes == old(usedBytes) + ENTRY_BYTES
              case Ok(Some(_)) => fate == Full(0) && usedBytes == old(usedBytes)
              case Err(e) => fate == Failed(0, e) && usedBytes == old(usedBytes)
    {
      var required := usedBytes + ENTRY_BYTES;
      if required > U64_MAX {
        return Err(AddressSpace);
      }
      if required > quota {
        return Ok(Some(QuotaDetails(quota, usedBytes, required, |stored|, hit)));
      }
      if refuse {
        return Err(ScratchIo);
      }
      var index := |stored|;
      stored, usedBytes := stored + [hit], required;
      if pageHits == [] || pageFirst + |pageHits| != index || |pageHits| == pageCapacity {
        pageHits, pageFirst := [], index;
      }
      pageHits := pageHits + [hit];
      r := Ok(None);
    }

    function CachedHit(index: nat): (r: Option<Hit>)
      reads this`stored, this`pageFirst, this`pageHits
      requires PageOk()
      ensures r.Some? ==> index < |stored| && r.value == stored[index]
    {
      if pageFirst <= index && index - pageFirst < |pageHits| then Some(pageHits[index - pageFirst]) else None
    }

    /** Loads up to a page of hits from `first` on. */
    method ReadPage(first: nat, calm: bool) returns (r: Result<()>)
      requires PageOk()
      modifies this`pageFirst, this`pageHits
      ensures PageOk() && pageFirst == first
      ensures r.Ok? ==> |pageHits| == Min(Max(|stored| - first, 0), pageCapacity)
      ensures calm ==> r.Ok?
    {
      pageHits, pageFirst := [], first;
      var count := Min(Max(|stored| - first, 0), pageCapacity);
      for relative := 0 to count
        invariant |pageHits| == relative && pageFirst == first && PageOk()
      {
        var failed := Disturbed(calm);
        if failed {
          return Err(Io);
        }
        pageHits := pageHits + [stored[first + relative]];
      }
      r := Ok(());
    }

    /** Reading a hit through the page gives the hit that was stored. */
    method ReadHit(index: nat, calm: bool) returns (r: Result<Option<Hit>>)
      requires ConfigOk() && PageOk()
      modifies this`pageFirst, this`pageHits
      ensures PageOk()
      ensures r.Ok? ==> r.value == if index < |stored| then Some(stored[index]) else None
      ensures index >= |stored| || calm ==> r.Ok?
    {
      if index >= |stored| {
        return Ok(None);
      }
      var cached := CachedHit(index);
      if cached.Some? {
        return Ok(cached);
      }
      var first := index / pageCapacity * pageCapacity;
      PageHolds(index, pageCapacity);
      var page := ReadPage(first, calm);
      if page.Err? {
        return Err(page.error);
      }
      r := Ok(CachedHit(index));
    }

    // ---------------------------------------------------------------- matching

    /** The matcher's report on the byte at `at` is the hit it completes. */
    lemma ReadOne(p: Pending, at: nat, matched: bool)
      requires ConfigOk() && p.span.start <= at < |q.src|
      requires matched <==> Ends(q.needle, |q.needle|, Folded(q.mode, q.src[p.span.start..at + 1]))
      ensures HitsBetween(q, p.row, p.span.start, at, at + 1) ==
              if matched then [Hit(p.row, Span(at + 1 - |q.needle|, at + 1))] else []
      ensures matched ==> p.span.start + |q.needle| <= at + 1
    {
      hide Folded, Ends, RowsOk;
      OccursWhenItEnds(q, p.span.start, at + 1);
      HitsOfByte(q, p.row, p.span.start, at);
    }

    /** What a byte at `at` adds: the hit it completes, stored unless the file
        is full or the write is refused. */
    method MatchByte(p: Pending, from: nat, at: nat, byte: byte, refuse: bool)
      returns (state: nat, r: Result<Option<QuotaDetails>>)
      requires ConfigOk() && StoreOk() && PageOk() && p.span.start <= at < |q.src| && byte == q.src[at]
      requires Matching(literal, Folded(q.mode, q.src[p.span.start..at]), from)
      modifies this`stored, this`usedBytes, this`pageFirst, this`pageHits
      ensures StoreOk() && PageOk()
      ensures Matching(literal, Folded(q.mode, q.src[p.span.start..at + 1]), state)
      ensures var more := HitsBetween(q, p.row, p.span.start, at, at + 1);
              var fate := FateOf(|more|, old(usedBytes), quota, if refuse then 0 else 1, 0);
              match r
              case Ok(None) => stored == old(stored) + more && fate == AllStored
              case Ok(Some(d)) =>
                && stored == old(stored) && fate == Full(0) && more == [d.rejected] && usedBytes + ENTRY_BYTES > quota
                && d == QuotaDetails(quota, usedBytes, usedBytes + ENTRY_BYTES, |stored|, d.rejected)
              case Err(e) => stored == old(stored) && |more| == 1 && fate == Failed(0, e)
    {
      hide Matching, Ends, RowsOk, StoreOk, PageOk, HitsBetween;
      ghost var before := q.src[p.span.start..at];
      assert q.src[p.span.start..at + 1] == before + [byte];
      FoldedStep(q.mode, before, byte);
      var matched;
      state, matched := AdvanceMatcher(literal, from, byte, Folded(q.mode, before));
      ReadOne(p, at, matched);
      r := Ok(None);
      if matched {
        r := AppendHit(Hit(p.row, Span(at + 1 - |literal.bytes|, at + 1)), refuse);
      }
    }

    /** The hits of the `n` bytes about to be matched. */
    ghost function NextHits(n: nat): seq<Hit>
      reads this`pending
      requires pending.Some? && pending.value.span.start <= pending.value.cursor
      requires pending.value.cursor + n <= |q.src|
    {
      var p := pending.value;
      HitsBetween(q, p.row, p.span.start, p.cursor, p.cursor + n)
    }

    ghost predicate SameMarks(kept': seq<Hit>, mark': nat, twice': nat)
      reads this`kept, this`mark, this`twice
    {
      kept == kept' && mark == mark' && twice == twice'
    }

    /** The pending record, its matcher and the file, in whatever relation the
        file stands to what was found. */
    ghost predicate MatchOk()
      reads this`pending, this`nextRow, this`examined, this`stored, this`usedBytes, this`pageFirst, this`pageHits,
            this`kept, this`mark, this`twice
    {
      ConfigOk() && PendingOk() && StoreOk() && PageOk() && pending.Some? && Holds(stored)
    }

    /** What a pending record needs for its hits to make sense. */
    lemma RecordFacts()
      requires ConfigOk() && PendingOk() && pending.Some?
      ensures var p := pending.value;
              && RowsOk(q) && p.row < |Rows(q)| && p.span == Rows(q)[p.row]
              && p.span.start <= p.cursor <= p.span.end <= |q.src| && 0 < checkEvery
    {
      hide Matching, AllRecords;
    }

    /** Moving the cursor over `n` bytes finds their hits. */
    lemma MovedHolds(p: Pending, hits: seq<Hit>, n: nat)
      requires pending == Some(p) && Holds(hits)
      requires RowsOk(q) && p.row < |Rows(q)| && p.span.start <= p.cursor && p.cursor + n <= |q.src|
      ensures var found := FoundAt(p.row, p.span.start, p.cursor + n);
              mark <= |found| && hits + NextHits(n) == kept + found[mark..]
    {
      hide HitsBetween, HitsOfRows, AllRecords, KeptOk, RowsOk;
      HitsSplit(q, p.row, p.span.start, p.span.start, p.cursor, p.cursor + n);
      var found := FoundAt(p.row, p.span.start, p.cursor + n);
      assert found == Found() + NextHits(n);
      assert found[mark..] == Found()[mark..] + NextHits(n);
    }

    lemma KeptCovers()
      requires KeptOk()
      ensures |kept| >= mark + twice
      ensures if twice == 0 then kept == [] && mark == 0
              else RowsOk(q) && mark + twice <= |AllHits(q)| && kept[|kept| - twice..] == AllHits(q)[mark..mark + twice]
    {
      hide RowsOk, AllHits;
    }

    /** Hits stored beyond the cursor are the next ones of all hits. */
    lemma RunAhead(p: Pending, hits: seq<Hit>, n: nat)
      requires pending == Some(p) && Holds(hits)
      requires RowsOk(q) && p.row < |Rows(q)| && p.span == Rows(q)[p.row]
      requires p.span.start <= p.cursor && p.cursor + n <= p.span.end <= |q.src|
      ensures var m := |Found()|;
              && m + |NextHits(n)| <= |AllHits(q)| && AllHits(q)[m..m + |NextHits(n)|] == NextHits(n)
              && |hits| >= m
    {
      hide HitsBetween, HitsOfRows, AllRecords, KeptOk, AllHits, RowsOk;
      KeptCovers();
      HitsSplit(q, p.row, p.span.start, p.span.start, p.cursor, p.cursor + n);
      ReadIsPrefix(q, p.row, p.cursor + n);
      assert Found() + NextHits(n) <= AllHits(q);
    }

    /** No check for cancellation has come after it was asked for. */
    ghost predicate NotStale(staleFrom: Option<nat>, n: nat)
      requires checkEvery > 0
    {
      staleFrom.Some? ==> forall m :: staleFrom.value <= m < n ==> m % checkEvery != 0
    }

    lemma StillNotStale(staleFrom: Option<nat>, n: nat)
      requires checkEvery > 0 && NotStale(staleFrom, n)
      requires !(staleFrom.Some? && staleFrom.value <= n && n % checkEvery == 0)
      ensures NotStale(staleFrom, n + 1)
    {}

    lemma NeverStale(staleFrom: Option<nat>)
      requires ConfigOk()
      ensures checkEvery > 0 && NotStale(staleFrom, 0)
    {
      hide Compiled, RowsOk;
    }

    /** Matches the bytes just read, whose write of number `failAt` the disk
        refuses and whose call is stale from byte `staleFrom` on. Cancellation
        and a full file leave the cursor after the last byte matched; a failed
        write leaves it where it was, with the hits before it already stored.
        Matching the same bytes again stores all their hits again. */
    method MatchPendingBytes(chunk: seq<byte>, failAt: nat, staleFrom: Option<nat>)
      returns (r: Result<PendingStatus>, processed: nat)
      requires MatchOk() && 0 < |chunk|
      requires var p := pending.value;
               p.cursor + |chunk| <= p.span.end && chunk == q.src[p.cursor..p.cursor + |chunk|]
      modifies this`pending, this`stored, this`usedBytes, this`pageFirst, this`pageHits, this`kept, this`mark,
        this`twice
      ensures PendingOk() && StoreOk() && PageOk() && pending.Some? && processed <= |chunk|
      ensures r.Ok? && !r.value.Refused? ==> Holds(stored) && stored == old(stored) + old(NextHits(processed))
      ensures r.Ok? && r.value.Refused? ==>
                && RefusedNext(r.value.details)
                && stored + [r.value.details.rejected] == old(stored) + old(NextHits(processed))
      ensures r.Ok? ==>
                && SameMarks(old(kept), old(mark), old(twice))
                && pending.value == old(pending.value).(cursor := pending.value.cursor, state := pending.value.state)
                && pending.value.cursor == old(pending.value.cursor) + processed
      ensures r.Err? ==> pending == old(pending) && Holds(stored) && stored == old(stored) + old(NextHits(processed))
      ensures r.Err? && stored == old(stored) ==> SameMarks(old(kept), old(mark), old(twice))
      ensures r.Err? && stored != old(stored) ==> SameMarks(stored, |Found()|, |stored| - |old(stored)|) && !Clean()
      ensures var fate := FateOf(|old(NextHits(|chunk|))|, old(usedBytes), quota, failAt, 0);
              match r
              case Ok(Stale) => staleFrom.Some? && staleFrom.value <= processed && processed % checkEvery == 0
              case Ok(Refused(_)) => fate == Full(|stored| - |old(stored)|)
              case Ok(_) => fate == AllStored && processed == |chunk|
              case Err(e) => fate == Failed(|stored| - |old(stored)|, e)
      ensures NotStale(staleFrom, processed)
      ensures r.Ok? && processed == |chunk| && !r.value.Refused? && r != Ok(Stale) ==>
                (r == Ok(Done) <==> pending.value.cursor == pending.value.span.end)
    {
      hide HitsBetween, RowsOk, StoreOk, PageOk, AllRecords, FateOf, Holds, FoundAt, Within, RecordOk, Matching;
      hide Compiled, ConfigOk, KeptOk, NotStale;
      NeverStale(staleFrom);
      var p := pending.value;
      RecordFacts();
      ghost var hits, used := stored, usedBytes;
      var state, written := p.state, 0;
      processed := 0;
      StartWithin(p, |chunk|, failAt);
      while processed < |chunk|
        invariant processed <= |chunk| && pending == old(pending) && SameMarks(old(kept), old(mark), old(twice))
        invariant Within(p, hits, used, |chunk|, failAt, processed, state, written)
        invariant NotStale(staleFrom, processed)
      {
        if staleFrom.Some? && staleFrom.value <= processed && processed % checkEvery == 0 {
          WithinFacts(p, hits, used, |chunk|, failAt, processed, state, written);
          MoveCursor(p, hits, processed, state);
          return Ok(Stale), processed;
        }
        var hit;
        state, written, hit := MatchNext(p, hits, used, |chunk|, failAt, processed, state, written, chunk[processed]);
        if hit.Err? {
          MarkAhead(p, hits, processed);
          return Err(hit.error), processed;
        }
        StillNotStale(staleFrom, processed);
        processed := processed + 1;
        if hit.value.Some? {
          MoveCursor(p, hits, processed, state);
          return Ok(Refused(hit.value.value)), processed;
        }
      }
      WithinFacts(p, hits, used, |chunk|, failAt, processed, state, written);
      MoveCursor(p, hits, processed, state);
      r := Ok(if pending.value.cursor == pending.value.span.end then Done else More);
    }

    /** Saves the cursor and the matcher's state after `n` bytes. */
    method MoveCursor(p: Pending, ghost hits: seq<Hit>, n: nat, state: nat)
      requires ConfigOk() && PendingOk() && pending == Some(p) && Holds(hits)
      requires p.span.start <= p.cursor && p.cursor + n <= p.span.end <= |q.src|
      requires Matching(literal, Folded(q.mode, q.src[p.span.start..p.cursor + n]), state)
      modifies this`pending
      ensures PendingOk() && pending == Some(p.(cursor := p.cursor + n, state := state))
      ensures Holds(hits + old(NextHits(n)))
    {
      hide HitsBetween, HitsOfRows, AllRecords, KeptOk, Matching, Compiled, FoundAt;
      MovedHolds(p, hits, n);
      pending := Some(p.(cursor := p.cursor + n, state := state));
    }

    /** Notes that the file holds the hits of `n` bytes the cursor lies before. */
    ghost method MarkAhead(p: Pending, hits: seq<Hit>, n: nat)
      requires ConfigOk() && PendingOk() && pending == Some(p) && Holds(hits)
      requires p.span.start <= p.cursor && p.cursor + n <= p.span.end <= |q.src| && stored == hits + NextHits(n)
      modifies this`kept, this`mark, this`twice
      ensures Holds(stored)
      ensures if stored == hits then SameMarks(old(kept), old(mark), old(twice))
              else SameMarks(stored, |Found()|, |stored| - |hits|)
    {
      hide HitsBetween, KeptOk, AllRecords, Matching, Compiled, Found;
      RecordFacts();
      RunAhead(p, hits, n);
      if stored != hits {
        kept, mark, twice := stored, |Found()|, |stored| - |hits|;
      }
      KeptAfter(hits, n);
    }

    /** Where matching stands after `processed` of `n` bytes at the cursor. */
    ghost predicate Within(p: Pending, hits: seq<Hit>, used: nat, n: nat, failAt: nat, processed: nat, state: nat,
                           written: nat)
      reads this`stored, this`usedBytes, this`pageFirst, this`pageHits
    {
      && StoreOk() && PageOk() && p.span.start <= p.cursor && processed <= n && p.cursor + n <= |q.src|
      && Matching(literal, Folded(q.mode, q.src[p.span.start..p.cursor + processed]), state)
      && used == HEADER_BYTES + ENTRY_BYTES * |hits|
      && var more := HitsBetween(q, p.row, p.span.start, p.cursor, p.cursor + processed);
      && var all := |HitsBetween(q, p.row, p.span.start, p.cursor, p.cursor + n)|;
      && stored == hits + more && written == |more| <= all
      && FateOf(all, used, quota, failAt, 0) == FateOf(all, used, quota, failAt, written)
    }

    lemma StartWithin(p: Pending, n: nat, failAt: nat)
      requires MatchOk() && pending == Some(p) && p.cursor + n <= p.span.end
      ensures Within(p, stored, usedBytes, n, failAt, 0, p.state, 0)
    {
      hide HitsBetween, Matching, RowsOk, PageOk, AllRecords, FateOf, Holds;
      HitsOfNothing(q, p.row, p.span.start, p.cursor);
    }

    lemma WithinFacts(p: Pending, hits: seq<Hit>, used: nat, n: nat, failAt: nat, processed: nat, state: nat,
                      written: nat)
      requires Within(p, hits, used, n, failAt, processed, state, written)
      requires PendingOk() && pending == Some(p) && p.cursor + n <= p.span.end
      ensures StoreOk() && PageOk() && stored == hits + NextHits(processed)
      ensures p.span.start <= p.cursor
      ensures Matching(literal, Folded(q.mode, q.src[p.span.start..p.cursor + processed]), state)
      ensures processed == n ==> FateOf(|NextHits(n)|, used, quota, failAt, 0) == AllStored
    {
      hide HitsBetween, Matching, AllRecords, StoreOk, PageOk;
    }

    /** Matches the next byte of a chunk. */
    method MatchNext(p: Pending, ghost hits: seq<Hit>, ghost used: nat, ghost n: nat, failAt: nat, processed: nat,
                     from: nat, before: nat, byte: byte)
      returns (state: nat, written: nat, r: Result<Option<QuotaDetails>>)
      requires ConfigOk() && Within(p, hits, used, n, failAt, processed, from, before)
      requires processed < n && byte == q.src[p.cursor + processed]
      modifies this`stored, this`usedBytes, this`pageFirst, this`pageHits
      ensures StoreOk() && PageOk()
      ensures p.span.start <= p.cursor && p.cursor + processed < |q.src|
      ensures Matching(literal, Folded(q.mode, q.src[p.span.start..p.cursor + processed + 1]), state)
      ensures var at, all := p.cursor + processed, |HitsBetween(q, p.row, p.span.start, p.cursor, p.cursor + n)|;
              var fate := FateOf(all, used, quota, failAt, 0);
              match r
              case Ok(None) => Within(p, hits, used, n, failAt, processed + 1, state, written)
              case Ok(Some(d)) =>
                && stored + [d.rejected] == hits + HitsBetween(q, p.row, p.span.start, p.cursor, at + 1)
                && |stored| >= |hits| && fate == Full(|stored| - |hits|) && usedBytes + ENTRY_BYTES > quota
                && d == QuotaDetails(quota, usedBytes, usedBytes + ENTRY_BYTES, |stored|, d.rejected)
              case Err(e) =>
                && stored == hits + HitsBetween(q, p.row, p.span.start, p.cursor, at)
                && fate == Failed(|stored| - |hits|, e)
    {
      hide HitsBetween, Matching, RowsOk, PageOk, FateOf, Compiled;
      ghost var at, end, start := p.cursor + processed, p.cursor + n, p.span.start;
      ghost var all, more := |HitsBetween(q, p.row, start, p.cursor, end)|, HitsBetween(q, p.row, start, at, at + 1);
      HitsSplit(q, p.row, start, p.cursor, at, at + 1);
      HitsSplit(q, p.row, start, p.cursor, at + 1, end);
      HitsOfByte(q, p.row, start, at);
      FateStep(all, used, quota, failAt, before, |more|);
      var length := |stored|;
      state, r := MatchByte(p, from, p.cursor + processed, byte, failAt == before);
      written := before + (|stored| - length);
    }

    /** After a failed write the file is what was kept, and what it holds beyond
        the cursor will be found again. */
    lemma KeptAfter(hits: seq<Hit>, n: nat)
      requires ConfigOk() && pending.Some? && pending.value.span.start <= pending.value.cursor
      requires pending.value.cursor + n <= |q.src| && stored == hits + NextHits(n)
      requires var m := |Found()|;
               && m + |NextHits(n)| <= |AllHits(q)| && AllHits(q)[m..m + |NextHits(n)|] == NextHits(n) && |hits| >= m
      requires if stored == hits then Holds(hits) else SameMarks(stored, |Found()|, |stored| - |hits|)
      ensures Holds(stored)
    {
      hide HitsBetween, AllHits, Found;
      if stored != hits {
        assert kept[|kept| - twice..] == NextHits(n);
      }
    }

    /** The needle's length less its longest border: the least distance between
        two hits. */
    function Period(): nat {
      if |literal.failure| == |literal.bytes| > 0 then Sub(|literal.bytes|, literal.failure[|literal.bytes| - 1]) else 0
    }

    lemma OneHitInChunk(n: nat)
      requires ConfigOk() && PendingOk() && pending.Some? && pending.value.cursor + n <= pending.value.span.end
      requires n <= Period()
      ensures |NextHits(n)| <= 1
    {
      hide HitsBetween, Matching, RowsOk, AllRecords, Longest, Table;
      var p, m := pending.value, |literal.bytes|;
      TableAt(literal.bytes, literal.failure, m);
      assert literal.bytes[..m] == literal.bytes;
      LongestIsBelow(literal.bytes, literal.bytes, m, literal.failure[m - 1]);
      OneHitPerPeriod(q, p.row, p.span.start, p.cursor, p.cursor + n, literal.failure[m - 1]);
    }

    /** What may have been stored twice is as it was, or a write failed with
        hits already stored. That takes a chunk longer than the period. */
    ghost predicate Marked(failure: Option<Error>, work: nat, kept': seq<Hit>, mark': nat, twice': nat)
      reads this`kept, this`mark, this`twice
    {
      || SameMarks(kept', mark', twice')
      || (&& (failure == Some(AddressSpace) || failure == Some(ScratchIo))
          && !Clean() && Min(bufferBytes, work) > Period())
    }

    /** It is the needle's length less its longest border. */
    lemma PeriodIs(border: nat)
      requires ConfigOk() && Longest(q.needle, q.needle, |q.needle|, border)
      ensures border < |q.needle| && Period() == |q.needle| - border
    {
      hide RowsOk, Ends;
      var m := |literal.bytes|;
      TableAt(literal.bytes, literal.failure, m);
      assert literal.bytes[..m] == literal.bytes;
    }

    /** A byte completes one hit at most. */
    lemma FewHits(n: nat)
      requires ConfigOk() && PendingOk() && pending.Some? && pending.value.cursor + n <= pending.value.span.end
      ensures |NextHits(n)| <= n
    {
      hide OccursAt, Matching, RowsOk, AllRecords;
      var p := pending.value;
      FewHitsBetween(q, p.row, p.span.start, p.cursor, p.cursor + n);
    }

    lemma StoreFits()
      requires StoreOk()
      ensures usedBytes <= quota
    {}

    /** Matches up to the budget of the record found last. */
    method AdvancePending(budget: nat, calm: bool) returns (r: Result<PendingStatus>, processed: nat)
      requires MatchOk() && budget > 0
      modifies this`pending, this`stored, this`usedBytes, this`pageFirst, this`pageHits, this`sourceFailed,
               this`kept, this`mark, this`twice
      ensures PendingOk() && StoreOk() && PageOk() && pending.Some? && processed <= budget
      ensures if r.Ok? && r.value.Refused? then RefusedNext(r.value.details) else Holds(stored)
      ensures Marked(Failure(r), budget, old(kept), old(mark), old(twice))
      ensures r.Ok? ==>
                && pending.value == old(pending.value).(cursor := pending.value.cursor, state := pending.value.state)
                && pending.value.cursor == old(pending.value.cursor) + processed
      ensures sourceFailed ==> old(sourceFailed) || r == Err(SourceChanged)
      ensures old(sourceFailed) ==> sourceFailed
      ensures r == Ok(More) ==> pending.value.cursor > old(pending.value.cursor)
      ensures r == Ok(Done) ==> pending.value.cursor == pending.value.span.end
      ensures r.Err? ==> pending == old(pending)
      ensures calm && !old(sourceFailed) ==>
                !sourceFailed && r != Ok(Stale) && (r.Ok? || quota + ENTRY_BYTES > U64_MAX)
    {
      hide HitsBetween, HitsOfRows, Matching, RowsOk, StoreOk, PageOk, AllRecords, Found, FateOf, KeptOk, Period;
      hide Compiled;
      var p := pending.value;
      if p.cursor == p.span.end {
        return Ok(Done), 0;
      }
      var chunk := CheckedReadAt(p.cursor, Min(p.span.end - p.cursor, Min(bufferBytes, budget)), calm);
      if chunk.Err? {
        return Err(chunk.error), 0;
      }
      var failAt: nat, staleFrom: Option<nat> := *, *;
      if calm {
        failAt, staleFrom := |chunk.value|, None;
      }
      FewHits(|chunk.value|);
      StoreFits();
      ghost var hits := |NextHits(|chunk.value|)|;
      if |chunk.value| <= Period() {
        OneHitInChunk(|chunk.value|);
        FailuresAreSafe(hits, usedBytes, quota);
      }
      r, processed := MatchPendingBytes(chunk.value, failAt, staleFrom);
      FailuresOf(hits, old(usedBytes), quota, failAt, 0);
      assert |chunk.value| <= Period() ==> LeavesNothing(hits, old(usedBytes), quota, failAt);
    }

    // ---------------------------------------------------------------- scanning

    /** Takes up the next record. */
    method QueueRecord(span: Span)
      requires ConfigOk() && PendingOk() && pending.None? && Holds(stored)
      requires nextRow < |Rows(q)| && span == Rows(q)[nextRow]
      modifies this`pending, this`nextRow
      ensures PendingOk() && nextRow == old(nextRow) + 1 && Holds(stored)
      ensures pending == Some(Pending(old(nextRow), span, span.start, 0))
    {
      hide HitsOfRows, AllRecords, KeptOk;
      StartMatching(literal);
      assert q.src[span.start..span.start] == [];
      assert HitsTo(q, nextRow, span.start, span.start) == [];
      pending := Some(Pending(nextRow, span, span.start, 0));
      nextRow := nextRow + 1;
    }

    /** Scans a chunk up to the end of the next record. */
    method FeedOne(chunk: seq<byte>, calm: bool) returns (consumed: nat, status: ScanStatus, span: Option<Span>)
      requires ConfigOk() && ScanOk() && scanner != null && 0 < |chunk|
      requires scanner.offset + |chunk| <= |q.src| && chunk == q.src[scanner.offset..scanner.offset + |chunk|]
      modifies scanner
      ensures scanner.offset == old(scanner.offset) + consumed && consumed <= |chunk|
      ensures span.None? ==> ScanOk() && (consumed > 0 || status == ScanStatus.Cancelled)
      ensures status == ScanStatus.Cancelled ==> !calm
      ensures span.Some? ==> nextRow < |Rows(q)| && span.value == Rows(q)[nextRow] && ScanOkAt(nextRow + 1)
    {
      hide AllRecords, RowsOk, DiagnosticFrom, RecordsFrom, BoundaryScanner.Valid;
      ghost var rest := Rows(q)[nextRow..];
      var spans;
      consumed, status, spans := scanner.Feed(q.src, chunk, Some(checkEvery), Some(1), calm);
      if spans == [] {
        assert spans + scanner.Unread(q.src) == scanner.Unread(q.src);
        return consumed, status, None;
      }
      assert rest[0] == spans[0] && rest[1..] == scanner.Unread(q.src);
      assert rest[1..] == Rows(q)[nextRow + 1..];
      span := Some(spans[0]);
    }

    /** Reads on to the end of the next record, or of the budget. */
    method AdvanceScanner(budget: nat, calm: bool) returns (r: Result<ScanStatus>, consumed: nat)
      requires ConfigOk() && ScanOk() && PendingOk() && pending.None? && Holds(stored) && budget > 0
      requires scanner != null && scanner.offset < |q.src|
      modifies this`pending, this`nextRow, this`sourceFailed, scanner
      ensures ScanOk() && PendingOk() && Holds(stored) && consumed <= budget
      ensures scanner.offset == old(scanner.offset) + consumed
      ensures r.Ok? && consumed == 0 && r.value != ScanStatus.Cancelled ==> pending.Some?
      ensures r.Err? ==> pending.None? && nextRow == old(nextRow)
      ensures sourceFailed ==> old(sourceFailed) || r == Err(SourceChanged)
      ensures calm && !old(sourceFailed) ==> !sourceFailed && r.Ok? && r.value != ScanStatus.Cancelled
    {
      hide ConfigOk, ScanOkAt, HitsTo, HitsOfRows, Matching, RowsOk, AllRecords, Found, KeptOk, DiagnosticFrom;
      hide BoundaryScanner.Valid;
      ConfigFacts();
      consumed := 0;
      var chunk := CheckedReadAt(scanner.offset, Min(|q.src| - scanner.offset, Min(bufferBytes, budget)), calm);
      if chunk.Err? {
        return Err(chunk.error), 0;
      }
      var status, span;
      consumed, status, span := FeedOne(chunk.value, calm);
      if span.Some? {
        QueueRecord(span.value);
      }
      r := Ok(status);
    }

    lemma UsedIs()
      requires StoreOk()
      ensures usedBytes == HEADER_BYTES + ENTRY_BYTES * |stored|
    {}

    lemma ConfigFacts()
      requires ConfigOk()
      ensures bufferBytes > 0 && |q.needle| > 0 && RowsOk(q)
    {}

    /** Ends the scan; the last record may only be known now. */
    method FinishScan() returns (last: bool)
      requires ConfigOk() && ScanOk() && PendingOk() && pending.None? && Holds(stored)
      requires scanner != null && scanner.offset == |q.src|
      modifies this`scanner, this`pending, this`nextRow, this`diagnostic, scanner
      ensures scanner == null && ScanOk() && PendingOk() && Holds(stored)
      ensures last <==> pending.None?
    {
      hide HitsTo, HitsOfRows, Matching, RowsOk, AllRecords, Found, KeptOk, DiagnosticFrom, BoundaryScanner.Valid;
      ghost var rest := Rows(q)[nextRow..];
      var span;
      span, diagnostic := scanner.Finish(q.src);
      scanner := null;
      assert rest == AsSeq(span);
      if span.Some? {
        assert rest[0] == span.value;
        QueueRecord(span.value);
      }
      last := span.None?;
    }

    // ------------------------------------------------------------------ session

    /** Falls at every turn that is not cancelled. */
    ghost function Work(): Rank
      reads this, scanner
    {
      Rank(Sub(|Rows(q)|, examined),
           if scanner == null then 0 else 1,
           if scanner == null then 0 else Sub(|q.src|, scanner.offset),
           Sub(|Rows(q)|, nextRow),
           if pending.None? then 0 else Sub(pending.value.span.end, pending.value.cursor), 0)
    }

    /** A turn that goes on leaves less work and no more budget. */
    /** Nothing came in the way, but for a quota at the end of 64 bits. */
    ghost predicate Undisturbed(failure: Option<Error>)
      reads this`sourceFailed, this`status
    {
      !sourceFailed && status != QueryStatus.Cancelled && (failure.None? || quota + ENTRY_BYTES > U64_MAX)
    }

    ghost predicate Took(r: Result<Turn>, budget: nat, before: Rank)
      reads this, scanner
    {
      r.Ok? ==>
        if r.value.Return? then status == r.value.status && status != Running
        else status == Running && r.value.left <= budget && Below(Work(), before)
    }

    /** The record at hand is matched to its end. */
    method CloseRecord()
      requires RowsOk(q) && PendingOk() && pending.Some? && pending.value.cursor == pending.value.span.end
      requires Holds(stored)
      modifies this`pending, this`examined
      ensures PendingOk() && pending.None? && examined == old(examined) + 1 && examined <= |Rows(q)| && Holds(stored)
    {
      hide HitsTo, HitsOfRows, Matching, AllRecords, KeptOk;
      HitsOfOneMore(q, examined);
      pending, examined := None, examined + 1;
    }

    method TurnPending(budget: nat, calm: bool) returns (r: Result<Turn>)
      requires Valid() && status == Running && pending.Some? && budget > 0
      modifies this
      ensures scanner == old(scanner) && Valid() && Took(r, budget, old(Work()))
      ensures Marked(Failure(r), budget, old(kept), old(mark), old(twice))
      ensures calm && !old(sourceFailed) ==> Undisturbed(Failure(r))
      ensures sourceFailed ==> old(sourceFailed) || r == Err(SourceChanged)
    {
      hide HitsTo, HitsOfRows, Matching, RowsOk, AllRecords, DiagnosticFrom, BoundaryScanner.Valid;
      hide ScanOk, StoreOk, PageOk, KeptOk, Period, Compiled, Clean, Found;
      var matched, processed := AdvancePending(budget, calm);
      if matched.Err? {
        return Err(matched.error);
      }
      match matched.value
      case More => r := Ok(Continue(budget - processed));
      case Stale =>
        status := QueryStatus.Cancelled;
        r := Ok(Return(status));
      case Done =>
        CloseRecord();
        r := Ok(Continue(budget - processed));
      case Refused(details) =>
        status := QuotaExceeded(details);
        r := Ok(Return(status));
    }

    method ScanOn(budget: nat, calm: bool) returns (r: Result<Turn>)
      requires Valid() && status == Running && pending.None? && budget > 0
      requires scanner != null && scanner.offset < |q.src|
      modifies this`pending, this`nextRow, this`sourceFailed, this`status, scanner
      ensures Valid() && Took(r, budget, old(Work()))
      ensures calm && !old(sourceFailed) ==> Undisturbed(Failure(r))
      ensures sourceFailed ==> old(sourceFailed) || r == Err(SourceChanged)
    {
      hide HitsTo, HitsOfRows, Matching, RowsOk, AllRecords, DiagnosticFrom, BoundaryScanner.Valid;
      hide StoreOk, PageOk, Found, KeptOk;
      var scanned, consumed := AdvanceScanner(budget, calm);
      if scanned.Err? {
        return Err(scanned.error);
      }
      if scanned.value == ScanStatus.Cancelled {
        status := QueryStatus.Cancelled;
        return Ok(Return(status));
      }
      r := Ok(Continue(budget - consumed));
    }

    method TurnScanning(budget: nat, calm: bool) returns (r: Result<Turn>)
      requires Valid() && status == Running && pending.None? && budget > 0
      modifies this, scanner
      ensures scanner == old(scanner) || scanner == null
      ensures Valid() && Took(r, budget, old(Work())) && SameMarks(old(kept), old(mark), old(twice))
      ensures calm && !old(sourceFailed) ==> Undisturbed(Failure(r))
      ensures sourceFailed ==> old(sourceFailed) || r == Err(SourceChanged)
    {
      hide HitsTo, HitsOfRows, Matching, RowsOk, AllRecords, DiagnosticFrom, BoundaryScanner.Valid;
      hide StoreOk, PageOk, Found, KeptOk;
      if scanner != null && scanner.offset < |q.src| {
        r := ScanOn(budget, calm);
        return;
      }
      if scanner != null {
        ScannerInside();
        var last := FinishScan();
        if !last {
          return Ok(Continue(budget));
        }
      }
      status := QueryStatus.Complete;
      r := Ok(Return(status));
    }

    lemma ScannerInside()
      requires ScanOk() && scanner != null
      ensures scanner.offset <= |q.src|
    {}

    /** What was found is the beginning of all hits. */
    lemma FoundIsPrefix()
      requires ConfigOk() && ScanOk() && PendingOk()
      ensures Found() <= AllHits(q)
      ensures scanner == null && pending.None? ==> Found() == AllHits(q)
    {
      hide HitsTo, HitsOfRows, Matching, AllRecords, DiagnosticFrom, BoundaryScanner.Valid;
      match pending {
        case None => HitsOfRowsGrow(q, nextRow, |Rows(q)|);
        case Some(p) => ReadIsPrefix(q, p.row, p.cursor);
      }
    }

    /** A complete search that never ran ahead has stored every hit there is; a
        search stopped by its quota has stored as many of the first ones as
        fit. */
    lemma StoredIsExact()
      requires Valid() && Clean()
      ensures status == QueryStatus.Complete ==> stored == AllHits(q)
      ensures status.QuotaExceeded? ==>
                && |stored| == (quota - 48) / 24 < |AllHits(q)|
                && stored == AllHits(q)[..|stored|]
                && status.details.rejected == AllHits(q)[|stored|]
      ensures status == Running || status == QueryStatus.Cancelled ==> stored <= AllHits(q)
    {
      hide ScanOk, PendingOk, PageOk, AllHits, Found;
      ConfigFacts();
      FoundIsPrefix();
      match status {
        case QuotaExceeded(d) =>
          assert Found() == stored + [d.rejected];
        case _ =>
          assert Found() == stored;
      }
    }

    lemma Finished()
      requires Valid() && status == QueryStatus.Complete
      ensures RowsOk(q) && Found() == AllHits(q)
    {
      hide AllHits, Found, Holds, StoreOk, PageOk, PendingOk;
      FoundIsPrefix();
    }

    /** A complete search that once ran ahead has stored all hits and some of
        them twice: from `mark` on they follow the `kept` ones. */
    lemma RepeatsAreStored()
      requires Valid() && status == QueryStatus.Complete
      ensures mark <= |AllHits(q)| && stored == kept + AllHits(q)[mark..]
      ensures |stored| > |AllHits(q)| || Clean()
      ensures Clean() <==> stored == AllHits(q)
      ensures Clean() <==> InOrder(stored)
    {
      hide ScanOk, PendingOk, PageOk, StoreOk, AllHits, Found, InOrder, IsHit, RowsOk, ConfigOk;
      ConfigFacts();
      Finished();
      AllHitsAreExact(q);
      KeptCovers();
      CleanOrRepeated(stored, kept, AllHits(q), mark, twice);
    }

    /** Does at most `maxWork` bytes of scanning and matching. A step that is
        neither cancelled nor terminal brings the search nearer its end, so
        repeated steps finish it. The hits stored are exact unless a write
        failed with hits of its chunk already stored, and no write can do that
        while chunks are no longer than the needle's period. A calm step
        succeeds. */
    method Advance(maxWork: nat, calm: bool) returns (r: Result<QueryStatus>)
      requires Valid()
      modifies this, scanner
      ensures Valid() && (scanner == old(scanner) || scanner == null)
      ensures maxWork == 0 ==> r == Err(ZeroWork)
      ensures r.Ok? ==> r.value == status
      ensures r == Ok(QueryStatus.Complete) ==> (stored == AllHits(q) <==> Clean())
      ensures r.Ok? && r.value.QuotaExceeded? && Clean() ==>
                && |AllHits(q)| > (quota - HEADER_BYTES) / ENTRY_BYTES
                && stored == AllHits(q)[..(quota - HEADER_BYTES) / ENTRY_BYTES]
      ensures r == Ok(Running) ==> Below(Work(), old(Work()))
      ensures Marked(Failure(r), maxWork, old(kept), old(mark), old(twice))
      ensures calm && maxWork > 0 && !old(sourceFailed) ==> Undisturbed(Failure(r))
      ensures sourceFailed ==> old(sourceFailed) || r == Err(SourceChanged)
      ensures old(sourceFailed) ==> sourceFailed && r != Ok(Running)
      ensures old(sourceFailed) && calm && maxWork > 0 ==> r == Err(SourceChanged)
    {
      hide Valid, Work, Below, Marked;
      StillMarked(Some(ZeroWork), maxWork);
      StillMarked(None, maxWork);
      if maxWork == 0 {
        return Err(ZeroWork);
      }
      if status == QueryStatus.Complete || status.QuotaExceeded? {
        Exactness();
        var cancelled := Disturbed(calm);
        if cancelled {
          return Ok(status);
        }
        r := StillTerminal(calm);
        StillMarked(Failure(r), maxWork);
        return r;
      }
      Resume();
      r := Loop(maxWork, calm);
      Exactness();
    }

    /** How many hits the file has room for. */
    function Room(): nat
      requires HEADER_BYTES <= quota
    {
      (quota - HEADER_BYTES) / ENTRY_BYTES
    }

    /** Repeated steps end. A calm search that was never disturbed stores every
        hit there is room for, and is complete exactly if that is every hit. */
    method Run(maxWork: nat, calm: bool) returns (r: Result<QueryStatus>)
      requires Valid() && maxWork > 0
      modifies this, scanner
      ensures Valid() && (scanner == old(scanner) || scanner == null)
      ensures r.Ok? ==> r.value == status && status != Running
      ensures calm && old(Clean() && !sourceFailed) && quota + ENTRY_BYTES <= U64_MAX ==>
                && r.Ok? && HEADER_BYTES <= quota && stored == AllHits(q)[..Min(|AllHits(q)|, Room())]
                && if |AllHits(q)| <= Room() then status == QueryStatus.Complete else status.QuotaExceeded?
      decreases Work().a, Work().b, Work().c, Work().d, Work().e, Work().f
    {
      hide Valid, Work, Below, AllHits;
      ghost var before := Work();
      r := Advance(maxWork, calm);
      if r == Ok(Running) {
        BelowTransitive(Work(), before, before);
        r := Run(maxWork, calm);
      } else {
        FileFits();
      }
    }

    lemma FileFits()
      requires Valid()
      ensures RowsOk(q) && HEADER_BYTES <= quota && |stored| <= Room()
    {
      hide ScanOk, PendingOk, PageOk, StatusOk, RowsOk;
    }

    lemma StillMarked(failure: Option<Error>, work: nat)
      ensures Marked(failure, work, kept, mark, twice)
    {}

    lemma Exactness()
      requires Valid()
      ensures status == QueryStatus.Complete ==> (stored == AllHits(q) <==> Clean())
      ensures status.QuotaExceeded? && Clean() ==>
                && |AllHits(q)| > (quota - HEADER_BYTES) / ENTRY_BYTES
                && stored == AllHits(q)[..(quota - HEADER_BYTES) / ENTRY_BYTES]
    {
      hide AllHits, ScanOk, PendingOk, PageOk, StoreOk, Holds;
      if status == QueryStatus.Complete {
        RepeatsAreStored();
      } else if Clean() {
        StoredIsExact();
      }
    }

    method StillTerminal(calm: bool) returns (r: Result<QueryStatus>)
      requires Valid()
      modifies this`sourceFailed
      ensures Valid() && (r == Ok(status) || r == Err(SourceChanged))
      ensures calm && !old(sourceFailed) ==> r.Ok? && !sourceFailed
      ensures (sourceFailed <==> r.Err?) && (old(sourceFailed) ==> sourceFailed)
    {
      hide ScanOk, PendingOk, StoreOk, PageOk, StatusOk, ConfigOk;
      var checked := EnsureUnchanged(calm);
      r := if checked.Err? then Err(SourceChanged) else Ok(status);
    }

    method Resume()
      requires Valid() && (status == Running || status == QueryStatus.Cancelled)
      modifies this`status
      ensures Valid() && status == Running && Work() == old(Work())
    {
      hide ScanOk, PendingOk, StoreOk, PageOk, ConfigOk, Holds;
      status := Running;
    }

    method Loop(maxWork: nat, calm: bool) returns (r: Result<QueryStatus>)
      requires Valid() && status == Running && maxWork > 0
      modifies this, scanner
      ensures Valid() && (scanner == old(scanner) || scanner == null)
      ensures r.Ok? ==> r.value == status
      ensures r == Ok(Running) ==> Below(Work(), old(Work()))
      ensures Marked(Failure(r), maxWork, old(kept), old(mark), old(twice))
      ensures calm && !old(sourceFailed) ==> Undisturbed(Failure(r))
      ensures sourceFailed ==> old(sourceFailed) || r == Err(SourceChanged)
      ensures old(sourceFailed) ==>
                sourceFailed && if r.Ok? then !calm && r.value != Running else r.error == SourceChanged
    {
      hide Valid, Work, Below, Period;
      var remaining := maxWork;
      ghost var start := Work();
      while true
        invariant Valid() && status == Running && 0 < remaining <= maxWork
        invariant scanner == old(scanner) || scanner == null
        invariant Work() == start || Below(Work(), start)
        invariant SameMarks(old(kept), old(mark), old(twice))
        invariant sourceFailed <==> old(sourceFailed)
        invariant old(sourceFailed) ==> remaining == maxWork
        decreases Work().a, Work().b, Work().c, Work().d, Work().e, Work().f
      {
        ghost var before := Work();
        var turn := TakeTurn(remaining, calm);
        if turn.Err? {
          return Err(turn.error);
        }
        if turn.value.Return? {
          return Ok(status);
        }
        BelowTransitive(Work(), before, start);
        remaining := turn.value.left;
        if remaining == 0 {
          return Ok(status);
        }
      }
    }

    /** One turn: cancelled, or a check of the source and one piece of work. */
    method TakeTurn(budget: nat, calm: bool) returns (r: Result<Turn>)
      requires Valid() && status == Running && budget > 0
      modifies this, scanner
      ensures scanner == old(scanner) || scanner == null
      ensures Valid() && Took(r, budget, old(Work()))
      ensures Marked(Failure(r), budget, old(kept), old(mark), old(twice))
      ensures calm && !old(sourceFailed) ==> Undisturbed(Failure(r))
      ensures sourceFailed ==> old(sourceFailed) || r == Err(SourceChanged)
      ensures old(sourceFailed) ==>
                sourceFailed && if r.Ok? then !calm && r.value.Return? else r.error == SourceChanged
    {
      hide ScanOk, PendingOk, StoreOk, PageOk, ConfigOk, Holds, Below, AllRecords, Period;
      var cancelled := Disturbed(calm);
      if cancelled {
        status := QueryStatus.Cancelled;
        return Ok(Return(status));
      }
      var checked := EnsureUnchanged(calm);
      if checked.Err? {
        return Err(SourceChanged);
      }
      if pending.Some? {
        r := TurnPending(budget, calm);
      } else {
        r := TurnScanning(budget, calm);
      }
    }
  }

  function Failure<T>(r: Result<T>): Option<Error> {
    if r.Err? then Some(r.error) else None
  }

  // ------------------------------------------------------------------- example

  lemma OneRowInAA(src: Source)
    requires src == [97, 97]
    ensures AllRecords(Lines, src) == [Span(0, 2)]
  {
    hide AllRecords;
    OneLine(src);
  }

  lemma OccursInAA(q: Search, e: nat)
    requires |q.src| == 2 && q.src[0] == q.src[1] == 97 && q.needle == [97] && q.mode == Exact && 1 <= e <= 2
    ensures OccursAt(q, 0, e)
  {
    assert q.src[e - 1..e] == [97];
  }

  lemma TwoHitsInAA(q: Search)
    requires q == Search([97, 97], Lines, [97], Exact)
    ensures |q.src| == 2 && Rows(q) == [Span(0, 2)]
    ensures var one, two := Hit(0, Span(0, 1)), Hit(0, Span(1, 2));
            && HitsBetween(q, 0, 0, 0, 0) == [] && HitsBetween(q, 0, 0, 0, 1) == [one]
            && HitsBetween(q, 0, 0, 0, 2) == [one, two]
  {
    hide HitsBetween, AllRecords, OccursAt;
    OneRowInAA(q.src);
    OccursInAA(q, 1);
    OccursInAA(q, 2);
    HitsOfNothing(q, 0, 0, 0);
    HitsOfByte(q, 0, 0, 0);
    HitsOfByte(q, 0, 0, 1);
    HitsSplit(q, 0, 0, 0, 1, 2);
  }

  lemma LetterCompiles()
    ensures Compiled(CompiledLiteral([97], [0], Exact))
  {
    assert Longest([97], [97][..1], 1, 0);
  }

  /** The record "aa", taken up for the needle "a", is matched with a buffer of
      two bytes and the second write fails. Matching its bytes again stores the
      first hit a second time. */
  method FailedWriteRepeats() returns (failed: Result<PendingStatus>, again: Result<PendingStatus>, stored: seq<Hit>)
    ensures failed == Err(ScratchIo) && again == Ok(Done)
    ensures stored == [Hit(0, Span(0, 1)), Hit(0, Span(0, 1)), Hit(0, Span(1, 2))]
  {
    hide Rows, HitsBetween, FateOf, Compiled;
    hide QuerySession.ConfigOk, QuerySession.PendingOk, QuerySession.StoreOk, QuerySession.PageOk, QuerySession.Holds;
    var q := Search([97, 97], Lines, [97], Exact);
    TwoHitsInAA(q);
    LetterCompiles();
    TwoFates();
    var session := TakeUp(q, CompiledLiteral([97], [0], Exact), 144);
    assert q.src[0..2] == [97, 97];
    var processed;
    failed, processed := session.MatchPendingBytes([97, 97], 1, None);
    session.UsedIs();
    again, processed := session.MatchPendingBytes([97, 97], 2, None);
    stored := session.stored;
  }

  lemma TwoFates()
    ensures FateOf(2, 48, 144, 1, 0) == Failed(1, ScratchIo) && FateOf(2, 72, 144, 2, 0) == AllStored
  {
    assert FateOf(2, 72, 144, 2, 2) == AllStored;
  }

  /** The only record, taken up and not yet matched. */
  method TakeUp(q: Search, literal: CompiledLiteral, quota: nat) returns (session: QuerySession)
    requires Compiled(literal) && literal.bytes == q.needle && literal.mode == q.mode
    requires |Rows(q)| == 1 && HEADER_BYTES <= quota <= U64_MAX
    ensures fresh(session) && session.MatchOk() && session.q == q && session.quota == quota
    ensures session.pending == Some(Pending(0, Rows(q)[0], Rows(q)[0].start, 0)) && session.stored == []
    ensures session.usedBytes == HEADER_BYTES
  {
    hide Rows, Compiled, QuerySession.ConfigOk, QuerySession.ScanOk, QuerySession.PendingOk;
    hide QuerySession.StoreOk, QuerySession.PageOk, QuerySession.Holds;
    session := new QuerySession(q, literal, 2, 1, 1, quota);
    session.QueueRecord(Rows(q)[0]);
  }

  /** Opens a search. What is searched for is the needle, folded as asked. */
  method Open(src: Source, format: Format, needle: seq<byte>, mode: MatchMode,
              bufferBytes: nat, checkEvery: nat, pageCapacity: nat, quota: nat, calm: bool)
    returns (r: Result<QuerySession>)
    requires quota <= U64_MAX
    ensures r.Ok? ==>
              && fresh(r.value) && fresh(r.value.scanner) && r.value.Valid() && r.value.Clean()
              && r.value.q == Search(src, format, Folded(mode, needle), mode)
              && r.value.quota == quota && r.value.status == Running && !r.value.sourceFailed
    ensures r.Ok? ==> forall hit :: IsHit(r.value.q, hit) <==> IsMatch(src, format, needle, mode, hit)
    ensures r == Err(InvalidConfig) <==>
            bufferBytes == 0 || checkEvery == 0 || pageCapacity == 0 || quota < HEADER_BYTES
    ensures r == Err(EmptyNeedle) ==> needle == []
    ensures needle == [] ==> r == Err(EmptyNeedle) || r == Err(InvalidConfig)
    ensures calm && r.Err? ==> r.error == InvalidConfig || r.error == EmptyNeedle
  {
    if bufferBytes == 0 || checkEvery == 0 || pageCapacity == 0 || quota < HEADER_BYTES {
      return Err(InvalidConfig);
    }
    var literal := Compile(needle, mode, calm);
    if literal.Err? {
      return Err(literal.error);
    }
    var refused := Disturbed(calm);
    if refused {
      return Err(Allocation);
    }
    var session := new QuerySession(
      Search(src, format, Folded(mode, needle), mode), literal.value, bufferBytes, checkEvery, pageCapacity, quota);
    r := Ok(session);
    forall hit
      ensures IsHit(session.q, hit) <==> IsMatch(src, format, needle, mode, hit)
    {
      HitsAreMatches(src, format, needle, mode, hit);
    }
  }
}
