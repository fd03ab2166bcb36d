/** What a logical record is: one left-to-right reading of the source with one
    byte of look-ahead, and no notion of chunks, deferral or cancellation. */
module Records {
  import opened Prelude

  const CR: byte := 13
  const LF: byte := 10

  datatype RawDialect = Dialect(delimiter: byte, quote: byte)

  /** Delimiter and quote are distinct bytes that are not newlines. */
  type CsvDialect = d: RawDialect |
    && d.delimiter != d.quote
    && d.delimiter != CR && d.delimiter != LF
    && d.quote != CR && d.quote != LF
    witness Dialect(44, 34)

  datatype Format = Delimited(dialect: CsvDialect) | Lines

  datatype Span = Span(start: nat, end: nat)

  datatype CsvState = FieldStart | Unquoted | Quoted | QuoteClosed

  /** The quote a cursor is given; line-oriented input never uses it. */
  function QuoteOf(f: Format): byte {
    match f
    case Delimited(d) => d.quote
    case Lines => 34
  }

  predicate IsNewline(b: byte) {
    b == CR || b == LF
  }

  /** One byte of the CSV automaton. Line-oriented input has one state. */
  function Next(f: Format, s: CsvState, b: byte): CsvState {
    match f
    case Lines => FieldStart
    case Delimited(d) =>
      if s == Quoted then
        if b == d.quote then QuoteClosed else Quoted
      else if b == d.delimiter then FieldStart
      else if b == d.quote && s != Unquoted then Quoted
      else Unquoted
  }

  /** The automaton's state after `bytes`, starting at a field start. */
  function StateAfter(f: Format, bytes: seq<byte>): CsvState {
    if bytes == [] then FieldStart
    else Next(f, StateAfter(f, bytes[..|bytes| - 1]), bytes[|bytes| - 1])
  }

  datatype Stop = Stop(at: nat, state: CsvState)

  /** Reads from `i` in state `s` up to the first newline outside quotes, or
      the end of the source. */
  function ScanRecord(f: Format, src: seq<byte>, i: nat, s: CsvState): (r: Stop)
    requires i <= |src|
    ensures i <= r.at <= |src|
    ensures r.at < |src| ==> IsNewline(src[r.at]) && r.state != Quoted
    decreases |src| - i
  {
    if i == |src| || (s != Quoted && IsNewline(src[i])) then Stop(i, s)
    else ScanRecord(f, src, i + 1, Next(f, s, src[i]))
  }

  /** Bytes of the terminator at `at`: LF, CR, CRLF, or none at the end. */
  function TerminatorLen(src: seq<byte>, at: nat): nat
    requires at <= |src|
  {
    if at == |src| then 0
    else if src[at] == CR && at + 1 < |src| && src[at + 1] == LF then 2
    else 1
  }

  function RecordEnd(f: Format, src: seq<byte>, p: nat): (e: nat)
    requires p <= |src|
    ensures p <= e <= |src|
  {
    ScanRecord(f, src, p, FieldStart).at
  }

  function NextStart(f: Format, src: seq<byte>, p: nat): (n: nat)
    requires p < |src|
    ensures p < n <= |src|
  {
    var e := RecordEnd(f, src, p);
    e + TerminatorLen(src, e)
  }

  /** Every record from the record start `p` to the end of the source. */
  function RecordsFrom(f: Format, src: seq<byte>, p: nat): seq<Span>
    requires p <= |src|
    decreases |src| - p
  {
    if p == |src| then []
    else [Span(p, RecordEnd(f, src, p))] + RecordsFrom(f, src, NextStart(f, src, p))
  }

  function AllRecords(f: Format, src: seq<byte>): seq<Span> {
    RecordsFrom(f, src, 0)
  }

  /** A line runs to the first newline, or the end of the source. */
  lemma {:induction false} LineEnd(src: seq<byte>, p: nat, e: nat)
    requires p <= e <= |src| && (e < |src| ==> IsNewline(src[e]))
    requires forall i :: p <= i < e ==> !IsNewline(src[i])
    ensures RecordEnd(Lines, src, p) == e
    decreases e - p
  {
    if p < e {
      LineEnd(src, p + 1, e);
    }
  }

  /** A source without a newline is one line. */
  lemma OneLine(src: seq<byte>)
    requires 0 < |src| && forall i :: 0 <= i < |src| ==> !IsNewline(src[i])
    ensures AllRecords(Lines, src) == [Span(0, |src|)]
  {
    LineEnd(src, 0, |src|);
    assert RecordsFrom(Lines, src, |src|) == [];
  }

  datatype Diagnostic = UnterminatedQuotedField(offset: nat, recordStart: nat)

  /** The end-of-input diagnostic: the last record is still inside quotes. */
  function DiagnosticFrom(f: Format, src: seq<byte>, p: nat): Option<Diagnostic>
    requires p <= |src|
    decreases |src| - p
  {
    if p == |src| then None
    else if RecordEnd(f, src, p) == |src| then
      if ScanRecord(f, src, p, FieldStart).state == Quoted then Some(UnterminatedQuotedField(|src|, p)) else None
    else DiagnosticFrom(f, src, NextStart(f, src, p))
  }

  /** The automaton's state where the record stops is that after its bytes. */
  lemma {:induction false} StopIsAfter(f: Format, src: seq<byte>, p: nat, i: nat, s: CsvState)
    requires p <= i <= |src| && s == StateAfter(f, src[p..i])
    ensures var stop := ScanRecord(f, src, i, s); stop.state == StateAfter(f, src[p..stop.at])
    decreases |src| - i
  {
    hide StateAfter, Next;
    if i < |src| && (s == Quoted || !IsNewline(src[i])) {
      StateStep(f, src[p..i], src[i]);
      assert src[p..i] + [src[i]] == src[p..i + 1];
      StopIsAfter(f, src, p, i + 1, Next(f, s, src[i]));
    }
  }

  /** There is a diagnostic exactly when the last record reaches the end of the
      source inside quotes, and it names that record. */
  ghost predicate Diagnoses(f: Format, src: seq<byte>, records: seq<Span>, d: Option<Diagnostic>) {
    && (d.Some? <==>
          && |records| > 0
          && var last := records[|records| - 1];
          && last.start <= last.end == |src|
          && StateAfter(f, src[last.start..last.end]) == Quoted)
    && (d.Some? ==> d.value == UnterminatedQuotedField(|src|, records[|records| - 1].start))
  }

  lemma {:induction false} DiagnosticIsExact(f: Format, src: seq<byte>, p: nat)
    requires p <= |src|
    ensures Diagnoses(f, src, RecordsFrom(f, src, p), DiagnosticFrom(f, src, p))
    decreases |src| - p
  {
    hide ScanRecord;
    if p < |src| {
      var stop, next := ScanRecord(f, src, p, FieldStart), NextStart(f, src, p);
      assert src[p..p] == [];
      StopIsAfter(f, src, p, p, FieldStart);
      DiagnosticIsExact(f, src, next);
      var rest := RecordsFrom(f, src, next);
      assert RecordsFrom(f, src, p) == [Span(p, stop.at)] + rest;
      if stop.at == |src| {
        assert next == |src| && rest == [];
      } else if rest == [] {
        assert next == |src|;
      } else {
        assert RecordsFrom(f, src, p)[|rest|] == rest[|rest| - 1];
      }
    }
  }

  // ---------------------------------------------------------------- theorems

  /** Spans followed by their terminators tile the source from `p` to its end. */
  ghost predicate Tiles(src: seq<byte>, p: nat, spans: seq<Span>)
    decreases |spans|
  {
    if spans == [] then p == |src|
    else
      && spans[0].start == p < |src|
      && p <= spans[0].end <= |src|
      && Tiles(src, spans[0].end + TerminatorLen(src, spans[0].end), spans[1..])
  }

  lemma {:induction false} RecordsTile(f: Format, src: seq<byte>, p: nat)
    requires p <= |src|
    ensures Tiles(src, p, RecordsFrom(f, src, p))
    decreases |src| - p
  {
    if p < |src| {
      RecordsTile(f, src, NextStart(f, src, p));
      var rs := RecordsFrom(f, src, p);
      assert rs[1..] == RecordsFrom(f, src, NextStart(f, src, p));
    }
  }

  /** Record starts strictly increase, each record ends before the next one
      starts, and a scan restarted at record `k` sees exactly the rest. This is
      what makes a checkpoint usable. */
  lemma {:induction false} RestartAt(f: Format, src: seq<byte>, p: nat, k: nat)
    requires p <= |src| && k < |RecordsFrom(f, src, p)|
    ensures var rs := RecordsFrom(f, src, p);
            && p + k <= rs[k].start <= rs[k].end <= |src| && rs[k].start < |src|
            && rs[k].end == RecordEnd(f, src, rs[k].start)
            && RecordsFrom(f, src, rs[k].start) == rs[k..]
            && DiagnosticFrom(f, src, rs[k].start) == DiagnosticFrom(f, src, p)
            && (k + 1 < |rs| ==> rs[k].end < rs[k + 1].start)
            && (k == 0 ==> rs[k].start == p)
    decreases k
  {
    var rs := RecordsFrom(f, src, p);
    var q := NextStart(f, src, p);
    assert rs[1..] == RecordsFrom(f, src, q);
    if k > 0 {
      RestartAt(f, src, q, k - 1);
      assert rs[k] == rs[1..][k - 1];
      assert rs[k..] == rs[1..][k - 1..];
    } else if 1 < |rs| {
      assert rs[1] == RecordsFrom(f, src, q)[0];
    }
  }

  lemma {:induction false} StateStep(f: Format, bytes: seq<byte>, b: byte)
    ensures StateAfter(f, bytes + [b]) == Next(f, StateAfter(f, bytes), b)
  {
    assert (bytes + [b])[..|bytes|] == bytes;
  }

  /** A newline inside a record is inside quotes. */
  lemma {:induction false} NewlinesAreQuoted(f: Format, src: seq<byte>, p: nat, i: nat, s: CsvState, k: nat)
    requires p <= i <= k < |src| && k < ScanRecord(f, src, i, s).at
    requires s == StateAfter(f, src[p..i])
    requires IsNewline(src[k])
    ensures StateAfter(f, src[p..k]) == Quoted
    decreases |src| - i
  {
    if i < k {
      StateStep(f, src[p..i], src[i]);
      assert src[p..i] + [src[i]] == src[p..i + 1];
      NewlinesAreQuoted(f, src, p, i + 1, Next(f, s, src[i]), k);
    }
  }

  /** The first record starts the source, each ends at a CR or LF or with the
      source, and the next one starts behind that, a CRLF being one newline. */
  ghost predicate Edges(src: seq<byte>, p: nat, records: seq<Span>)
    decreases |records|
  {
    if records == [] then p == |src|
    else
      && p == records[0].start <= records[0].end <= |src|
      && var e := records[0].end;
      && if e == |src| then |records| == 1
         else
           && (src[e] == 13 || src[e] == 10)
           && Edges(src, if src[e] == 13 && e + 1 < |src| && src[e + 1] == 10 then e + 2 else e + 1, records[1..])
  }

  lemma {:induction false} RecordsMeet(f: Format, src: seq<byte>, p: nat)
    requires p <= |src|
    ensures Edges(src, p, RecordsFrom(f, src, p))
    decreases |src| - p
  {
    hide ScanRecord;
    if p < |src| {
      var next := NextStart(f, src, p);
      RecordsMeet(f, src, next);
      var rs := RecordsFrom(f, src, p);
      assert rs[1..] == RecordsFrom(f, src, next);
      if rs[0].end == |src| {
        assert next == |src|;
      }
    }
  }

  /** No record holds a CR or LF outside quotes. */
  lemma RecordHoldsNoUnquotedNewline(f: Format, src: seq<byte>, row: nat, k: nat)
    requires row < |AllRecords(f, src)|
    requires AllRecords(f, src)[row].start <= k < AllRecords(f, src)[row].end <= |src|
    requires src[k] == 13 || src[k] == 10
    ensures StateAfter(f, src[AllRecords(f, src)[row].start..k]) == Quoted
  {
    RestartAt(f, src, 0, row);
    var p := AllRecords(f, src)[row].start;
    assert src[p..p] == [];
    NewlinesAreQuoted(f, src, p, p, FieldStart, k);
  }
}
