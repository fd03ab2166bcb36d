/** The incremental boundary scanner. It is fed one chunk at a time, defers a
    CR until it knows whether an LF follows, may be stopped by its callback at
    any record and cancelled between any two bytes. */
module Scanner {
  import opened Prelude
  import opened Records

  datatype ScanStatus = Complete | Stopped | Cancelled

  function AsSeq<T>(o: Option<T>): seq<T> {
    match o
    case None => []
    case Some(x) => [x]
  }

  class BoundaryScanner {
    const format: Format
    var state: CsvState
    var offset: nat
    var recordStart: nat
    var pendingCrEnd: Option<nat>

    /** The scanner agrees with the one-pass reading of `src`: finishing the
        current record from here and from its start is the same thing. */
    ghost predicate Valid(src: Source)
      reads this
    {
      && recordStart <= offset <= |src|
      && match pendingCrEnd
         case None =>
           ScanRecord(format, src, offset, state) == ScanRecord(format, src, recordStart, FieldStart)
         case Some(e) =>
           && recordStart <= e && offset == e + 1 && src[e] == CR
           && state != Quoted
           && ScanRecord(format, src, recordStart, FieldStart) == Stop(e, state)
    }

    lemma Bounds(src: Source)
      requires Valid(src)
      ensures recordStart <= offset <= |src|
    {}

    /** The records this scanner has still to emit. */
    ghost function Unread(src: Source): seq<Span>
      reads this
      requires Valid(src)
    {
      RecordsFrom(format, src, recordStart)
    }

    constructor (format: Format, offset: nat, ghost src: Source)
      requires offset <= |src|
      ensures this.format == format && this.offset == this.recordStart == offset
      ensures Valid(src)
    {
      this.format := format;
      this.offset := offset;
      this.recordStart := offset;
      this.state := FieldStart;
      this.pendingCrEnd := None;
    }

    /** Emits the current record and moves to the start of the next one. */
    method CompleteRecord(ghost src: Source, end: nat, nextStart: nat) returns (span: Span)
      requires recordStart < |src| && end == RecordEnd(format, src, recordStart)
      requires nextStart == end + TerminatorLen(src, end) && nextStart == offset
      requires end < |src| && pendingCrEnd.None?
      modifies this`recordStart, this`state
      ensures Valid(src) && state == FieldStart && recordStart == offset
      ensures RecordsFrom(format, src, old(recordStart)) == [span] + Unread(src)
      ensures DiagnosticFrom(format, src, recordStart) == DiagnosticFrom(format, src, old(recordStart))
    {
      span := Span(recordStart, end);
      recordStart := nextStart;
      state := FieldStart;
    }

    /** Settles a deferred CR now that the byte after it is known; an LF joins
        the terminator and is consumed with it. */
    method SettleCr(ghost src: Source, byte: byte) returns (span: Span)
      requires Valid(src) && offset < |src| && byte == src[offset]
      requires pendingCrEnd.Some?
      modifies this
      ensures Valid(src) && pendingCrEnd.None? && state == FieldStart
      ensures offset == old(offset) + (if byte == LF then 1 else 0) && recordStart == offset
      ensures old(Unread(src)) == [span] + Unread(src)
      ensures DiagnosticFrom(format, src, recordStart) == old(DiagnosticFrom(format, src, recordStart))
    {
      var end := pendingCrEnd.value;
      pendingCrEnd := None;
      if byte == LF {
        offset := offset + 1;
      }
      span := CompleteRecord(src, end, offset);
    }

    /** Consumes one byte when no CR is deferred. */
    method Consume(ghost src: Source, byte: byte) returns (span: Option<Span>)
      requires Valid(src) && offset < |src| && byte == src[offset]
      requires pendingCrEnd.None?
      modifies this
      ensures Valid(src) && offset == old(offset) + 1
      ensures span.None? ==> recordStart == old(recordStart)
      ensures span.Some? ==> byte == LF && recordStart == offset
      ensures span.Some? ==>
                && old(Unread(src)) == [span.value] + Unread(src)
                && DiagnosticFrom(format, src, recordStart) == old(DiagnosticFrom(format, src, recordStart))
    {
      span := None;
      if state != Quoted && byte == CR {
        pendingCrEnd := Some(offset);
        offset := offset + 1;
      } else if state != Quoted && byte == LF {
        var end := offset;
        offset := offset + 1;
        var s := CompleteRecord(src, end, offset);
        span := Some(s);
      } else {
        state := NextState(state, byte);
        offset := offset + 1;
      }
    }

    /** One turn of the feeding loop: settle a deferred CR, and unless the
        callback stops there, consume the byte. */
    method Step(ghost src: Source, byte: byte, stopHere: bool) returns (took: nat, span: Option<Span>)
      requires Valid(src) && offset < |src| && byte == src[offset]
      modifies this
      ensures Valid(src) && took <= 1 && offset == old(offset) + took
      ensures old(Unread(src)) == AsSeq(span) + Unread(src)
      ensures DiagnosticFrom(format, src, recordStart) == old(DiagnosticFrom(format, src, recordStart))
      ensures took == 0 ==> stopHere && span.Some?
      ensures stopHere && span.Some? ==> recordStart == offset
    {
      if pendingCrEnd.Some? {
        var s := SettleCr(src, byte);
        if byte == LF || stopHere {
          return if byte == LF then 1 else 0, Some(s);
        }
        ghost var rest := Unread(src);
        ghost var start := recordStart;
        var none := Consume(src, byte);
        return 1, Some(s);
      }
      span := Consume(src, byte);
      took := 1;
    }

    /** Scans `chunk`, the source bytes at `offset`. The callback asks to stop
        at the `stopAfter`-th record of this call, or never. Records emitted
        now, followed by those still unread, are those unread before: this
        holds for every chunking, every stop and every cancellation. */
    method Feed(ghost src: Source, chunk: seq<byte>, checkEvery: Option<nat>, stopAfter: Option<nat>, calm: bool)
      returns (consumed: nat, status: ScanStatus, spans: seq<Span>)
      requires Valid(src)
      requires offset + |chunk| <= |src| && chunk == src[offset..offset + |chunk|]
      requires checkEvery.Some? ==> checkEvery.value > 0
      requires stopAfter.Some? ==> stopAfter.value > 0
      modifies this
      ensures Valid(src)
      ensures consumed <= |chunk| && offset == old(offset) + consumed
      ensures old(Unread(src)) == spans + Unread(src)
      ensures DiagnosticFrom(format, src, recordStart) == old(DiagnosticFrom(format, src, recordStart))
      ensures status == Complete ==> consumed == |chunk|
      ensures status == Cancelled ==> checkEvery.Some? && consumed % checkEvery.value == 0 && !calm
      ensures status == Stopped <==> stopAfter == Some(|spans|)
      ensures status == Stopped ==> recordStart == offset
      ensures stopAfter.Some? ==> |spans| <= stopAfter.value
    {
      hide RecordsFrom, DiagnosticFrom, Valid;
      Bounds(src);
      ghost var diagnostic := DiagnosticFrom(format, src, recordStart);
      consumed, spans := 0, [];
      while consumed < |chunk|
        invariant consumed <= |chunk| && offset == old(offset) + consumed
        invariant Valid(src)
        invariant old(Unread(src)) == spans + Unread(src)
        invariant recordStart <= |src| && DiagnosticFrom(format, src, recordStart) == diagnostic
        invariant stopAfter.Some? ==> |spans| < stopAfter.value
        decreases |chunk| - consumed
      {
        var cancelled := CheckDue(consumed, checkEvery, calm);
        if cancelled {
          return consumed, Cancelled, spans;
        }
        var took, span := Step(src, chunk[consumed], stopAfter == Some(|spans| + 1));
        Bounds(src);
        consumed := consumed + took;
        spans := spans + AsSeq(span);
        if span.Some? && stopAfter == Some(|spans|) {
          return consumed, Stopped, spans;
        }
      }
      status := Complete;
    }

    /** The scanner's own transition table. */
    function NextState(s: CsvState, b: byte): (r: CsvState)
      ensures r == Next(format, s, b)
    {
      match format
      case Lines => FieldStart
      case Delimited(d) =>
        match s
        case FieldStart =>
          if b == d.quote then Quoted else if b == d.delimiter then FieldStart else Unquoted
        case Unquoted =>
          if b == d.delimiter then FieldStart else Unquoted
        case Quoted =>
          if b == d.quote then QuoteClosed else Quoted
        case QuoteClosed =>
          if b == d.quote then Quoted else if b == d.delimiter then FieldStart else Unquoted
    }

    /** Emits what is left at the end of the source: a record ended by a last
        CR, an unterminated record, or nothing. */
    method Finish(ghost src: Source) returns (span: Option<Span>, diagnostic: Option<Diagnostic>)
      requires Valid(src) && offset == |src|
      modifies this
      ensures old(Unread(src)) == AsSeq(span)
      ensures diagnostic == old(DiagnosticFrom(format, src, recordStart))
    {
      diagnostic := if state == Quoted then Some(UnterminatedQuotedField(offset, recordStart)) else None;
      if pendingCrEnd.Some? {
        var end := pendingCrEnd.value;
        pendingCrEnd := None;
        var s := CompleteRecord(src, end, offset);
        span := Some(s);
      } else if recordStart < offset {
        span := Some(Span(recordStart, offset));
        assert NextStart(format, src, recordStart) == |src|;
        assert RecordsFrom(format, src, |src|) == [];
      } else {
        span := None;
      }
    }
  }

  /** One call made on a scanner: how many bytes it is given, and the record its
      callback stops at. */
  datatype Piece = Piece(bytes: nat, stopAfter: Option<nat>)

  function BytesOf(pieces: seq<Piece>): nat {
    if pieces == [] then 0 else BytesOf(pieces[..|pieces| - 1]) + pieces[|pieces| - 1].bytes
  }

  /** A whole run in any pieces, each resumed where the one before left off. It
      emits a prefix of the records, and all of them once it reaches the end.
      It does if it is calm, never stops and is given as many bytes as there
      are. */
  method ScanInPieces(format: Format, src: Source, pieces: seq<Piece>, checkEvery: Option<nat>, calm: bool)
    returns (reachedEnd: bool, emitted: seq<Span>, diagnostic: Option<Diagnostic>)
    requires checkEvery.Some? ==> checkEvery.value > 0
    requires forall i :: 0 <= i < |pieces| && pieces[i].stopAfter.Some? ==> pieces[i].stopAfter.value > 0
    ensures emitted <= AllRecords(format, src)
    ensures reachedEnd ==> emitted == AllRecords(format, src) && diagnostic == DiagnosticFrom(format, src, 0)
    ensures calm && (forall i :: 0 <= i < |pieces| ==> pieces[i].stopAfter.None?) && BytesOf(pieces) >= |src| ==>
              reachedEnd
  {
    hide ScanRecord, RecordsFrom, DiagnosticFrom, BoundaryScanner.Valid;
    var scanner := new BoundaryScanner(format, 0, src);
    emitted, diagnostic := [], None;
    for i := 0 to |pieces|
      invariant fresh(scanner) && scanner.format == format && scanner.Valid(src)
      invariant AllRecords(format, src) == emitted + scanner.Unread(src)
      invariant scanner.recordStart <= |src| &&
                DiagnosticFrom(format, src, scanner.recordStart) == DiagnosticFrom(format, src, 0)
      invariant calm && (forall k :: 0 <= k < i ==> pieces[k].stopAfter.None?) ==>
                  scanner.offset == Min(BytesOf(pieces[..i]), |src|)
    {
      assert pieces[..i + 1][..i] == pieces[..i];
      scanner.Bounds(src);
      var to := Min(scanner.offset + pieces[i].bytes, |src|);
      var _, _, spans := scanner.Feed(src, src[scanner.offset..to], checkEvery, pieces[i].stopAfter, calm);
      emitted := emitted + spans;
      scanner.Bounds(src);
    }
    scanner.Bounds(src);
    assert pieces[..|pieces|] == pieces;
    reachedEnd := scanner.offset == |src|;
    if reachedEnd {
      var last;
      last, diagnostic := scanner.Finish(src);
      emitted := emitted + AsSeq(last);
    }
  }
}
