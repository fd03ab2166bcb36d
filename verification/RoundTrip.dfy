/** Rendering a table as RFC 4180 section 2 prescribes and reading it back. */
module RoundTrip {
  import opened Prelude
  import opened Records
  import opened Fields
  import Projection

  type Row = r: seq<seq<byte>> | |r| > 0 witness [[]]

  /** A field's bytes with every quote doubled. */
  function Doubled(q: byte, field: seq<byte>): seq<byte> {
    if field == [] then []
    else (if field[0] == q then [q, q] else [field[0]]) + Doubled(q, field[1..])
  }

  function RenderField(d: CsvDialect, field: seq<byte>): seq<byte> {
    [d.quote] + Doubled(d.quote, field) + [d.quote]
  }

  function RenderRow(d: CsvDialect, row: Row): seq<byte> {
    if |row| == 1 then RenderField(d, row[0])
    else RenderField(d, row[0]) + [d.delimiter] + RenderRow(d, row[1..])
  }

  function Render(d: CsvDialect, table: seq<Row>): seq<byte> {
    if table == [] then [] else RenderRow(d, table[0]) + [CR, LF] + Render(d, table[1..])
  }

  // ------------------------------------------------------------- record edges

  /** `s` holds `piece` at position `i`. */
  ghost predicate Reads(s: seq<byte>, i: nat, piece: seq<byte>) {
    i + |piece| <= |s| && s[i..i + |piece|] == piece
  }

  lemma ReadsSplit(s: seq<byte>, i: nat, a: seq<byte>, b: seq<byte>)
    requires Reads(s, i, a + b)
    ensures Reads(s, i, a) && Reads(s, i + |a|, b)
    ensures a != [] ==> s[i] == a[0]
  {
    assert s[i..i + |a|] == (a + b)[..|a|];
    assert s[i + |a|..i + |a| + |b|] == (a + b)[|a|..];
    if a != [] {
      assert s[i..i + |a|][0] == s[i];
    }
  }

  /** Doubled quotes never let the scanner leave the quoted state for good. */
  lemma {:induction false} ScanInside(d: CsvDialect, src: seq<byte>, i: nat, field: seq<byte>)
    requires i <= |src| && Reads(src, i, Doubled(d.quote, field))
    ensures var f, e := Delimited(d), i + |Doubled(d.quote, field)|;
            e <= |src| && ScanRecord(f, src, i, Quoted) == ScanRecord(f, src, e, Quoted)
    decreases |field|
  {
    hide Reads, ScanRecord;
    var f, q := Delimited(d), d.quote;
    ReadsEnd(src, i, Doubled(q, field));
    if field != [] {
      var head := if field[0] == q then [q, q] else [field[0]];
      assert Doubled(q, field) == head + Doubled(q, field[1..]);
      ReadsSplit(src, i, head, Doubled(q, field[1..]));
      ReadsEnd(src, i, head);
      ScanInside(d, src, i + |head|, field[1..]);
      ScanOne(f, src, i, Quoted);
      if field[0] == q {
        assert head == [q] + [q];
        ReadsSplit(src, i, [q], [q]);
        ReadsSplit(src, i + 1, [q], []);
        ScanOne(f, src, i + 1, QuoteClosed);
      }
    }
  }

  lemma ScanQuoted(d: CsvDialect, src: seq<byte>, i: nat, field: seq<byte>)
    requires Reads(src, i, Doubled(d.quote, field) + [d.quote])
    ensures var f, e := Delimited(d), i + |Doubled(d.quote, field)| + 1;
            e <= |src| && ScanRecord(f, src, i, Quoted) == ScanRecord(f, src, e, QuoteClosed)
  {
    hide Reads, ScanRecord, Doubled;
    var inner, q := Doubled(d.quote, field), d.quote;
    ReadsEnd(src, i, inner + [q]);
    ReadsSplit(src, i, inner, [q]);
    ScanInside(d, src, i, field);
    assert [q] + [] == [q];
    ReadsSplit(src, i + |inner|, [q], []);
    ScanOne(Delimited(d), src, i + |inner|, Quoted);
  }

  lemma ScanOne(f: Format, src: seq<byte>, i: nat, s: CsvState)
    requires i < |src| && (s == Quoted || !IsNewline(src[i]))
    ensures ScanRecord(f, src, i, s) == ScanRecord(f, src, i + 1, Next(f, s, src[i]))
  {}

  /** A rendered field is scanned from its opening to its closing quote. */
  lemma ScanField(d: CsvDialect, src: seq<byte>, i: nat, field: seq<byte>, after: seq<byte>)
    requires Reads(src, i, RenderField(d, field) + after)
    ensures var e := i + |RenderField(d, field)|;
            && e <= |src| && Reads(src, e, after)
            && ScanRecord(Delimited(d), src, i, FieldStart) == ScanRecord(Delimited(d), src, e, QuoteClosed)
  {
    hide Reads, ScanRecord, Doubled;
    var q := d.quote;
    var inner := Doubled(q, field) + [q];
    ReadsSplit(src, i, RenderField(d, field), after);
    assert RenderField(d, field) == [q] + inner;
    ReadsSplit(src, i, [q], inner);
    ReadsInside(src, i, [q]);
    ReadsEnd(src, i, RenderField(d, field));
    ScanOne(Delimited(d), src, i, FieldStart);
    ScanQuoted(d, src, i + 1, field);
  }

  lemma ReadsEnd(s: seq<byte>, i: nat, piece: seq<byte>)
    requires Reads(s, i, piece)
    ensures i + |piece| <= |s|
  {}

  lemma RowIs(d: CsvDialect, row: Row)
    ensures RenderRow(d, row) ==
            RenderField(d, row[0]) + if |row| == 1 then [] else [d.delimiter] + RenderRow(d, row[1..])
  {}

  /** A rendered row is scanned to its end without stopping. */
  lemma {:induction false} ScanThrough(d: CsvDialect, src: seq<byte>, i: nat, row: Row)
    requires i <= |src| && Reads(src, i, RenderRow(d, row))
    ensures var e := i + |RenderRow(d, row)|;
            && e <= |src|
            && ScanRecord(Delimited(d), src, i, FieldStart) == ScanRecord(Delimited(d), src, e, QuoteClosed)
    decreases |row|
  {
    hide Reads, ScanRecord, RenderField, RenderRow;
    var f, first := Delimited(d), RenderField(d, row[0]);
    var after := if |row| == 1 then [] else [d.delimiter] + RenderRow(d, row[1..]);
    RowIs(d, row);
    assert RenderRow(d, row) == first + after;
    ScanField(d, src, i, row[0], after);
    if |row| > 1 {
      var e := i + |first|;
      ReadsSplit(src, e, [d.delimiter], RenderRow(d, row[1..]));
      ReadsInside(src, e, [d.delimiter]);
      ScanOne(f, src, e, QuoteClosed);
      ScanThrough(d, src, e + 1, row[1..]);
    }
  }

  lemma ScanRow(d: CsvDialect, src: seq<byte>, i: nat, row: Row)
    requires i <= |src| && Reads(src, i, RenderRow(d, row) + [CR, LF])
    ensures RecordEnd(Delimited(d), src, i) == i + |RenderRow(d, row)|
    ensures TerminatorLen(src, i + |RenderRow(d, row)|) == 2
  {
    hide Reads, ScanRecord, RenderRow;
    var e := i + |RenderRow(d, row)|;
    ReadsSplit(src, i, RenderRow(d, row), [CR, LF]);
    ScanThrough(d, src, i, row);
    CrLf(src, e);
    ScanStops(Delimited(d), src, e, QuoteClosed);
  }

  lemma ReadsInside(s: seq<byte>, i: nat, piece: seq<byte>)
    requires Reads(s, i, piece) && piece != []
    ensures i < |s|
  {}

  lemma CrLf(s: seq<byte>, i: nat)
    requires Reads(s, i, [CR, LF])
    ensures i + 1 < |s| && s[i] == CR && s[i + 1] == LF
  {
    assert s[i..i + 2][1] == LF;
  }

  lemma ScanStops(f: Format, src: seq<byte>, i: nat, s: CsvState)
    requires i < |src| && s != Quoted && IsNewline(src[i])
    ensures ScanRecord(f, src, i, s) == Stop(i, s)
  {}

  // ------------------------------------------------------------------- fields

  lemma {:induction false} UnquoteDoubled(q: byte, field: seq<byte>)
    ensures Unquote(q, Doubled(q, field) + [q]) == field
    decreases |field|
  {
    if field == [] {
      assert Doubled(q, field) + [q] == [q];
    } else {
      UnquoteDoubled(q, field[1..]);
      var rest := Doubled(q, field[1..]) + [q];
      if field[0] == q {
        assert Doubled(q, field) + [q] == [q] + ([q] + rest);
        assert ([q] + ([q] + rest))[1..] == [q] + rest && ([q] + rest)[1..] == rest;
      } else {
        assert Doubled(q, field) + [q] == [field[0]] + rest;
        assert ([field[0]] + rest)[1..] == rest;
      }
    }
  }

  /** A delimiter inside the quotes does not end the field. */
  lemma {:induction false} EndQuoted(d: CsvDialect, rec: seq<byte>, i: nat, field: seq<byte>)
    requires Reads(rec, i, Doubled(d.quote, field) + [d.quote])
    ensures var f, e := Delimited(d), i + |Doubled(d.quote, field)| + 1;
            FieldEnd(f, rec, i, Quoted) == FieldEnd(f, rec, e, QuoteClosed)
    decreases |field|
  {
    hide Reads, FieldEnd;
    var f, q := Delimited(d), d.quote;
    if field == [] {
      assert Doubled(q, field) + [q] == [q] + [];
      ReadsSplit(rec, i, [q], []);
      EndOne(f, rec, i, Quoted);
    } else {
      var head := if field[0] == q then [q, q] else [field[0]];
      assert Doubled(q, field) + [q] == head + (Doubled(q, field[1..]) + [q]);
      ReadsSplit(rec, i, head, Doubled(q, field[1..]) + [q]);
      EndQuoted(d, rec, i + |head|, field[1..]);
      EndOne(f, rec, i, Quoted);
      if field[0] == q {
        assert head == [q] + [q];
        ReadsSplit(rec, i, [q], [q]);
        ReadsSplit(rec, i + 1, [q], []);
        EndOne(f, rec, i + 1, QuoteClosed);
      }
    }
  }

  lemma EndOne(f: Format, rec: seq<byte>, i: nat, s: CsvState)
    requires i < |rec| && f.Delimited? && (s == Quoted || rec[i] != f.dialect.delimiter)
    ensures FieldEnd(f, rec, i, s) == FieldEnd(f, rec, i + 1, Next(f, s, rec[i]))
  {}

  lemma EndHere(f: Format, rec: seq<byte>, i: nat, s: CsvState)
    requires i <= |rec| && (i < |rec| ==> f.Delimited? && s != Quoted && rec[i] == f.dialect.delimiter)
    ensures FieldEnd(f, rec, i, s) == i
  {}

  lemma DecodeRendered(d: CsvDialect, field: seq<byte>)
    ensures Decode(Delimited(d), RenderField(d, field)) == field
  {
    UnquoteDoubled(d.quote, field);
    assert RenderField(d, field)[1..] == Doubled(d.quote, field) + [d.quote];
  }

  /** A rendered field followed by a delimiter, or by nothing. */
  lemma FirstField(d: CsvDialect, rec: seq<byte>, i: nat, field: seq<byte>, after: seq<byte>)
    requires i <= |rec| && rec[i..] == RenderField(d, field) + after
    requires after == [] || after[0] == d.delimiter
    ensures var e := i + |RenderField(d, field)|;
            && e <= |rec| && rec[i..e] == RenderField(d, field) && rec[e..] == after
            && FieldEnd(Delimited(d), rec, i, FieldStart) == e
  {
    hide FieldEnd, Doubled, Reads;
    var f, q := Delimited(d), d.quote;
    var inner := Doubled(q, field) + [q];
    assert RenderField(d, field) == [q] + inner;
    var e := i + 1 + |inner|;
    Parts(rec, i, RenderField(d, field), after);
    ReadsSplit(rec, i, [q], inner);
    EndOne(f, rec, i, FieldStart);
    EndQuoted(d, rec, i + 1, field);
    EndHere(f, rec, e, QuoteClosed);
  }

  lemma Parts(s: seq<byte>, i: nat, a: seq<byte>, b: seq<byte>)
    requires i <= |s| && s[i..] == a + b
    ensures var e := i + |a|;
            e <= |s| && s[i..e] == a && s[e..] == b && Reads(s, i, a) && (b != [] ==> e < |s| && s[e] == b[0])
  {
    var e := i + |a|;
    assert s[i..e] == s[i..][..|a|];
    assert s[e..] == s[i..][|a|..];
  }

  lemma FieldsStep(f: Format, rec: seq<byte>, i: nat, e: nat)
    requires i <= e <= |rec| && e == FieldEnd(f, rec, i, FieldStart)
    ensures FieldsFrom(f, rec, i) ==
            if e == |rec| then [Decode(f, rec[i..e])] else [Decode(f, rec[i..e])] + FieldsFrom(f, rec, e + 1)
  {}

  /** The fields of a rendered row, read from its `i`-th byte on. */
  lemma {:induction false} FieldsOfRendered(d: CsvDialect, rec: seq<byte>, i: nat, row: Row)
    requires i <= |rec| && rec[i..] == RenderRow(d, row)
    ensures FieldsFrom(Delimited(d), rec, i) == row
    decreases |row|
  {
    hide FieldEnd, Decode, RenderField, FieldsFrom;
    var first := RenderField(d, row[0]);
    var after := if |row| == 1 then [] else [d.delimiter] + RenderRow(d, row[1..]);
    assert RenderRow(d, row) == first + after;
    FirstField(d, rec, i, row[0], after);
    var e := i + |first|;
    FieldsStep(Delimited(d), rec, i, e);
    DecodeRendered(d, row[0]);
    assert row == [row[0]] + row[1..];
    if |row| > 1 {
      assert rec[e + 1..] == rec[e..][1..];
      FieldsOfRendered(d, rec, e + 1, row[1..]);
    }
  }

  // ---------------------------------------------------------------- the table

  /** Row `k` of the rendered table, found by the scanner and split. */
  ghost predicate ReadsBack(d: CsvDialect, src: seq<byte>, spans: seq<Span>, table: seq<Row>) {
    && |spans| == |table|
    && forall k :: 0 <= k < |table| ==>
         && spans[k].start <= spans[k].end <= |src|
         && FieldsOf(Delimited(d), src[spans[k].start..spans[k].end]) == table[k]
  }

  /** The first rendered row is the first record. */
  lemma FirstRow(d: CsvDialect, src: seq<byte>, p: nat, row: Row, after: seq<byte>)
    requires p <= |src| && src[p..] == RenderRow(d, row) + [CR, LF] + after
    ensures var f, e := Delimited(d), p + |RenderRow(d, row)|;
            && e + 2 <= |src| && src[e + 2..] == after
            && FieldsOf(f, src[p..e]) == row
            && RecordsFrom(f, src, p) == [Span(p, e)] + RecordsFrom(f, src, e + 2)
            && DiagnosticFrom(f, src, p) == DiagnosticFrom(f, src, e + 2)
  {
    hide RenderRow, FieldsFrom, Reads, ScanRecord;
    var f, first := Delimited(d), RenderRow(d, row);
    var e := p + |first|;
    Parts(src, p, first + [CR, LF], after);
    Parts(src[..e + 2], p, first, [CR, LF]);
    assert src[..e + 2][p..e] == src[p..e];
    ScanRow(d, src, p, row);
    assert src[p..e][0..] == src[p..e];
    FieldsOfRendered(d, src[p..e], 0, row);
  }

  lemma ReadsBackCons(d: CsvDialect, src: seq<byte>, span: Span, spans: seq<Span>, row: Row, table: seq<Row>)
    requires ReadsBack(d, src, spans, table)
    requires span.start <= span.end <= |src| && FieldsOf(Delimited(d), src[span.start..span.end]) == row
    ensures ReadsBack(d, src, [span] + spans, [row] + table)
  {
    hide FieldsOf;
  }

  lemma RenderIs(d: CsvDialect, table: seq<Row>)
    requires table != []
    ensures Render(d, table) == RenderRow(d, table[0]) + [CR, LF] + Render(d, table[1..])
  {}

  lemma EmptyTable(d: CsvDialect, src: seq<byte>, p: nat)
    requires p <= |src| && src[p..] == Render(d, [])
    ensures ReadsBack(d, src, RecordsFrom(Delimited(d), src, p), [])
    ensures DiagnosticFrom(Delimited(d), src, p) == None
  {
    assert p == |src|;
  }

  lemma {:induction false} TableFrom(d: CsvDialect, src: seq<byte>, p: nat, table: seq<Row>)
    requires p <= |src| && src[p..] == Render(d, table)
    ensures ReadsBack(d, src, RecordsFrom(Delimited(d), src, p), table)
    ensures DiagnosticFrom(Delimited(d), src, p) == None
    decreases |table|
  {
    hide RenderRow, FieldsOf, Render, RecordsFrom, DiagnosticFrom, ReadsBack;
    if table == [] {
      EmptyTable(d, src, p);
    } else {
      RenderIs(d, table);
      var e := p + |RenderRow(d, table[0])|;
      FirstRow(d, src, p, table[0], Render(d, table[1..]));
      TableFrom(d, src, e + 2, table[1..]);
      ReadsBackCons(d, src, Span(p, e), RecordsFrom(Delimited(d), src, e + 2), table[0], table[1..]);
      assert table == [table[0]] + table[1..];
    }
  }

  /** Scanning and splitting a rendered table gives its rows and fields back,
      whatever bytes the fields hold: quotes, delimiters and newlines too. */
  lemma TableRoundTrips(d: CsvDialect, table: seq<Row>)
    ensures var src := Render(d, table);
            && ReadsBack(d, src, AllRecords(Delimited(d), src), table)
            && DiagnosticFrom(Delimited(d), src, 0) == None
  {
    var src := Render(d, table);
    assert src[0..] == src;
    TableFrom(d, src, 0, table);
  }

  /** So does projecting each record with limits that leave room for it. */
  lemma ProjectionRoundTrips(d: CsvDialect, table: seq<Row>, limits: Projection.Limits, r: nat, c: nat)
    requires r < |table| && c < |table[r]|
    requires limits.fields > |Render(d, table)| && limits.perField >= |Render(d, table)| &&
              limits.total >= |Render(d, table)|
    ensures var src := Render(d, table);
            && r < |AllRecords(Delimited(d), src)|
            && var span := AllRecords(Delimited(d), src)[r];
            && span.start <= span.end <= |src|
            && var shown := Projection.Shown(Delimited(d), src[span.start..span.end], span.start, 0,
                                             limits.fields, limits.perField, limits.total, false);
            && |shown| == |table[r]| && shown[c].decoded == table[r][c]
  {
    TableRoundTrips(d, table);
    var src := Render(d, table);
    var span := AllRecords(Delimited(d), src)[r];
    var rec := src[span.start..span.end];
    Projection.AmpleLimits(Delimited(d), rec, span.start, 0, limits.fields, limits.perField, limits.total, false, c);
  }

  // --------------------------------------------------------- the last quote

  lemma RowIsLonger(d: CsvDialect, row: Row)
    ensures |RenderRow(d, row)| >= 2
  {
    RowIs(d, row);
  }

  /** A row without its last quote. */
  function CutRow(d: CsvDialect, row: Row): seq<byte> {
    RowIsLonger(d, row);
    RenderRow(d, row)[..|RenderRow(d, row)| - 1]
  }

  lemma CutIs(d: CsvDialect, row: Row)
    ensures CutRow(d, row) ==
            if |row| == 1 then [d.quote] + Doubled(d.quote, row[0])
            else RenderField(d, row[0]) + ([d.delimiter] + CutRow(d, row[1..]))
  {
    RowIs(d, row);
    if |row| > 1 {
      RowIsLonger(d, row[1..]);
    }
  }

  /** It leaves the scanner inside quotes. */
  lemma {:induction false} ScanCut(d: CsvDialect, src: seq<byte>, i: nat, row: Row)
    requires i <= |src| && Reads(src, i, CutRow(d, row))
    ensures var e := i + |CutRow(d, row)|;
            && e <= |src|
            && ScanRecord(Delimited(d), src, i, FieldStart) == ScanRecord(Delimited(d), src, e, Quoted)
    decreases |row|
  {
    hide Reads, ScanRecord, RenderField, CutRow, Doubled;
    var f := Delimited(d);
    CutIs(d, row);
    if |row| == 1 {
      ReadsSplit(src, i, [d.quote], Doubled(d.quote, row[0]));
      ReadsInside(src, i, [d.quote]);
      ScanOne(f, src, i, FieldStart);
      ScanInside(d, src, i + 1, row[0]);
    } else {
      ScanField(d, src, i, row[0], [d.delimiter] + CutRow(d, row[1..]));
      var e := i + |RenderField(d, row[0])|;
      ReadsSplit(src, e, [d.delimiter], CutRow(d, row[1..]));
      ReadsInside(src, e, [d.delimiter]);
      ScanOne(f, src, e, QuoteClosed);
      ScanCut(d, src, e + 1, row[1..]);
    }
  }

  /** The rows of a table are no matter for what follows it. */
  lemma {:induction false} AfterTable(d: CsvDialect, src: seq<byte>, p: nat, table: seq<Row>, tail: seq<byte>)
    requires p <= |src| && src[p..] == Render(d, table) + tail
    ensures |tail| <= |src| && src[|src| - |tail|..] == tail
    ensures DiagnosticFrom(Delimited(d), src, p) == DiagnosticFrom(Delimited(d), src, |src| - |tail|)
    decreases |table|
  {
    hide RenderRow, FieldsOf, RecordsFrom, DiagnosticFrom;
    if table == [] {
      assert src[p..] == tail;
    } else {
      RenderIs(d, table);
      var e := p + |RenderRow(d, table[0])|;
      assert src[p..] == RenderRow(d, table[0]) + [CR, LF] + (Render(d, table[1..]) + tail);
      FirstRow(d, src, p, table[0], Render(d, table[1..]) + tail);
      AfterTable(d, src, e + 2, table[1..], tail);
    }
  }

  /** A table whose last row lacks its last quote ends in an unterminated field
      of that row; one that only lacks its last newline does not. */
  lemma LastQuoteMatters(d: CsvDialect, table: seq<Row>, row: Row)
    ensures var src := Render(d, table) + CutRow(d, row);
            DiagnosticFrom(Delimited(d), src, 0) == Some(UnterminatedQuotedField(|src|, |Render(d, table)|))
    ensures DiagnosticFrom(Delimited(d), Render(d, table) + RenderRow(d, row), 0) == None
  {
    hide Render, RenderRow, ScanRecord;
    var p, cut, whole := |Render(d, table)|, CutRow(d, row), RenderRow(d, row);
    RowIsLonger(d, row);
    LastRow(d, Render(d, table) + cut, table, cut);
    ScanCut(d, Render(d, table) + cut, p, row);
    StopsAtEnd(Delimited(d), Render(d, table) + cut, Quoted);
    LastRow(d, Render(d, table) + whole, table, whole);
    ScanThrough(d, Render(d, table) + whole, p, row);
    StopsAtEnd(Delimited(d), Render(d, table) + whole, QuoteClosed);
  }

  lemma LastRow(d: CsvDialect, src: seq<byte>, table: seq<Row>, tail: seq<byte>)
    requires src == Render(d, table) + tail
    ensures Reads(src, |Render(d, table)|, tail)
    ensures DiagnosticFrom(Delimited(d), src, 0) == DiagnosticFrom(Delimited(d), src, |Render(d, table)|)
  {
    hide Render, DiagnosticFrom;
    assert src[0..] == src;
    AfterTable(d, src, 0, table, tail);
  }

  lemma StopsAtEnd(f: Format, src: seq<byte>, s: CsvState)
    ensures ScanRecord(f, src, |src|, s) == Stop(|src|, s)
  {}

  // ------------------------------------------------ what a field can look like

  /** A byte that is neither quote nor delimiter. */
  predicate Plain(d: CsvDialect, b: byte) {
    b != d.quote && b != d.delimiter
  }

  predicate NoDelimiter(d: CsvDialect, bytes: seq<byte>) {
    forall i :: 0 <= i < |bytes| ==> bytes[i] != d.delimiter
  }

  lemma Nothing(f: Format)
    ensures StateAfter(f, []) == FieldStart
  {}

  lemma {:induction false} StaysUnquoted(d: CsvDialect, w: seq<byte>, more: seq<byte>)
    requires StateAfter(Delimited(d), w) == Unquoted && NoDelimiter(d, more)
    ensures StateAfter(Delimited(d), w + more) == Unquoted
    decreases |more|
  {
    if more == [] {
      assert w + more == w;
    } else {
      var n := |more| - 1;
      StaysUnquoted(d, w, more[..n]);
      assert w + more == (w + more[..n]) + [more[n]];
      StateStep(Delimited(d), w + more[..n], more[n]);
    }
  }

  lemma {:induction false} StaysQuoted(d: CsvDialect, w: seq<byte>, field: seq<byte>)
    requires StateAfter(Delimited(d), w) == Quoted
    ensures StateAfter(Delimited(d), w + Doubled(d.quote, field)) == Quoted
    decreases |field|
  {
    if field == [] {
      assert w + Doubled(d.quote, field) == w;
    } else {
      var f, q, b := Delimited(d), d.quote, field[0];
      StateStep(f, w, b);
      if b == q {
        StateStep(f, w + [q], q);
        StaysQuoted(d, w + [q] + [q], field[1..]);
        assert w + Doubled(q, field) == w + [q] + [q] + Doubled(q, field[1..]);
      } else {
        StaysQuoted(d, w + [b], field[1..]);
        assert w + Doubled(q, field) == w + [b] + Doubled(q, field[1..]);
      }
    }
  }

  /** Where in a field a byte stands. After its first byte a field that does not
      begin with a quote is plain up to the next delimiter, quotes included. One
      that does is quoted up to a quote that is not doubled, and plain after the
      next byte. A delimiter outside quotes begins a field anew. */
  lemma StatesOfFields(d: CsvDialect, before: seq<byte>, field: seq<byte>, b: byte, more: seq<byte>)
    requires Plain(d, b) && NoDelimiter(d, more) && StateAfter(Delimited(d), before) == FieldStart
    ensures StateAfter(Delimited(d), []) == FieldStart
    ensures StateAfter(Delimited(d), before + ([b] + more)) == Unquoted
    ensures var inside := before + ([d.quote] + Doubled(d.quote, field));
            && StateAfter(Delimited(d), inside) == Quoted
            && StateAfter(Delimited(d), inside + [d.quote]) == QuoteClosed
            && StateAfter(Delimited(d), inside + [d.quote] + ([b] + more)) == Unquoted
    ensures forall w :: StateAfter(Delimited(d), w) != Quoted ==>
                          StateAfter(Delimited(d), w + [d.delimiter]) == FieldStart
  {
    hide StateAfter, Doubled, NoDelimiter;
    var f, q := Delimited(d), d.quote;
    Nothing(f);
    StateStep(f, before, b);
    StaysUnquoted(d, before + [b], more);
    assert before + [b] + more == before + ([b] + more);
    var inside := before + ([q] + Doubled(q, field));
    StateStep(f, before, q);
    StaysQuoted(d, before + [q], field);
    assert before + [q] + Doubled(q, field) == inside;
    StateStep(f, inside, q);
    StateStep(f, inside + [q], b);
    StaysUnquoted(d, inside + [q] + [b], more);
    assert inside + [q] + [b] + more == inside + [q] + ([b] + more);
    forall w | StateAfter(f, w) != Quoted
      ensures StateAfter(f, w + [d.delimiter]) == FieldStart
    {
      StateStep(f, w, d.delimiter);
    }
  }

  /** What a raw field stands for. One that does not begin with a quote is
      itself. Of a quoted one the doubled quotes are single ones, whether or not
      it is closed, and what follows the closing quote is kept as it is. */
  lemma FieldsMean(d: CsvDialect, raw: seq<byte>, field: seq<byte>, more: seq<byte>)
    requires more == [] || more[0] != d.quote
    ensures raw == [] || raw[0] != d.quote ==> Decode(Delimited(d), raw) == raw
    ensures Decode(Delimited(d), [d.quote] + Doubled(d.quote, field)) == field
    ensures Decode(Delimited(d), [d.quote] + Doubled(d.quote, field) + [d.quote] + more) == field + more
  {
    hide Unquote, Doubled;
    var q := d.quote;
    UnquoteInside(q, field, []);
    UnquoteEnds(q, more);
    assert Doubled(q, field) + [] == Doubled(q, field) && field + [] == field;
    DecodeOpened(d, Doubled(q, field));
    UnquoteInside(q, field, [q] + more);
    DecodeOpened(d, Doubled(q, field) + ([q] + more));
    assert [q] + Doubled(q, field) + [q] + more == [q] + (Doubled(q, field) + ([q] + more));
  }

  lemma DecodeOpened(d: CsvDialect, rest: seq<byte>)
    ensures Decode(Delimited(d), [d.quote] + rest) == Unquote(d.quote, rest)
  {
    assert ([d.quote] + rest)[1..] == rest;
  }

  lemma UnquoteEnds(q: byte, more: seq<byte>)
    requires more == [] || more[0] != q
    ensures Unquote(q, []) == [] && Unquote(q, [q] + more) == more
  {
    assert ([q] + more)[1..] == more;
  }

  lemma {:induction false} UnquoteInside(q: byte, field: seq<byte>, after: seq<byte>)
    ensures Unquote(q, Doubled(q, field) + after) == field + Unquote(q, after)
    decreases |field|
  {
    hide Unquote, Doubled;
    if field == [] {
      DoubledNothing(q, after);
      assert field + Unquote(q, after) == Unquote(q, after);
    } else {
      UnquoteInside(q, field[1..], after);
      DoubledFirst(q, field, after);
      UnquoteFirst(q, field[0], Doubled(q, field[1..]) + after);
      Prepended(field, Unquote(q, after));
    }
  }

  lemma DoubledNothing(q: byte, after: seq<byte>)
    ensures Doubled(q, []) + after == after
  {}

  lemma DoubledFirst(q: byte, field: seq<byte>, after: seq<byte>)
    requires field != []
    ensures var rest := Doubled(q, field[1..]) + after;
            Doubled(q, field) + after == if field[0] == q then [q] + ([q] + rest) else [field[0]] + rest
  {}

  lemma Prepended(field: seq<byte>, rest: seq<byte>)
    requires field != []
    ensures [field[0]] + (field[1..] + rest) == field + rest
  {}

  lemma UnquoteFirst(q: byte, b: byte, rest: seq<byte>)
    ensures Unquote(q, if b == q then [q] + ([q] + rest) else [b] + rest) == [b] + Unquote(q, rest)
  {
    assert ([q] + ([q] + rest))[1..] == [q] + rest && ([q] + rest)[1..] == rest && ([b] + rest)[1..] == rest;
  }
}
