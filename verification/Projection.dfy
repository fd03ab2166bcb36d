/** Projecting the fields of a visible record under byte limits: one pass that
    splits and decodes at once. */
module Projection {
  import opened Prelude
  import opened Records
  import opened Fields

  datatype Limits = Limits(fields: nat, perField: nat, total: nat)

  datatype FieldProjection = FieldProjection(
    raw: Span, decoded: seq<byte>, quoted: bool, escaped: bool, rawTruncated: bool, decodedTruncated: bool)

  datatype RecordProjection = RecordProjection(fields: seq<FieldProjection>, truncated: bool)

  // ------------------------------------------------------------ what is shown

  /** Whether a quote was doubled in what is left of a field. */
  function EscapesRest(f: Format, s: CsvState, rest: seq<byte>): bool
    decreases |rest|
  {
    if rest == [] || f.Lines? then false
    else
      match s
      case FieldStart => rest[0] == f.dialect.quote && EscapesRest(f, Quoted, rest[1..])
      case Unquoted => false
      case Quoted => EscapesRest(f, if rest[0] == f.dialect.quote then QuoteClosed else Quoted, rest[1..])
      case QuoteClosed => rest[0] == f.dialect.quote
  }

  /** The field that lies from `p` to `e`, cut to `limit` bytes. */
  function OneShown(f: Format, bytes: seq<byte>, base: nat, p: nat, e: nat, limit: nat, cut: bool): (r: FieldProjection)
    requires p <= e <= |bytes|
    ensures |r.decoded| <= limit
  {
    var raw := bytes[p..e];
    var full := Decode(f, raw);
    FieldProjection(
      Span(base + p, base + e), full[..Min(|full|, limit)], StartsQuoted(f, raw), EscapesRest(f, FieldStart, raw),
      cut && e == |bytes|, limit < |full|)
  }

  /** The fields from `p` on, each cut to what its own and the total limit
      leave it. */
  function Shown(f: Format, bytes: seq<byte>, base: nat, p: nat, fields: nat, perField: nat, total: nat,
                 cut: bool): seq<FieldProjection>
    requires p <= |bytes|
    decreases |bytes| - p
  {
    if fields == 0 then []
    else
      var e := FieldEnd(f, bytes, p, FieldStart);
      var first := OneShown(f, bytes, base, p, e, Min(perField, total), cut);
      if e == |bytes| then [first]
      else [first] + Shown(f, bytes, base, e + 1, fields - 1, perField, total - |first.decoded|, cut)
  }

  // --------------------------------------------------------- the field at hand

  /** What has been read of one field, and how much of it may be kept. */
  datatype Accumulator = Accumulator(
    rawStart: nat, decoded: seq<byte>, limit: nat, quoted: bool, escaped: bool, truncated: bool)
  {
    function Push(b: byte): Accumulator {
      if |decoded| < limit then this.(decoded := decoded + [b]) else this.(truncated := true)
    }
  }

  /** `acc` is what the bytes read so far decode to; the accumulator keeps as
      much of it as its limit allows. */
  ghost predicate Reading(f: Format, bytes: seq<byte>, a: Accumulator, acc: seq<byte>, cursor: nat, s: CsvState) {
    && f.Delimited? && a.rawStart <= cursor <= |bytes|
    && FieldEnd(f, bytes, cursor, s) == FieldEnd(f, bytes, a.rawStart, FieldStart)
    && (s == FieldStart <==> cursor == a.rawStart)
    && var e := FieldEnd(f, bytes, cursor, s);
    && var raw := bytes[a.rawStart..e];
    && Decode(f, raw) == acc + DecodeRest(f, s, bytes[cursor..e])
    && a.decoded == acc[..Min(|acc|, a.limit)] && (a.truncated <==> |acc| > a.limit)
    && a.quoted == (cursor > a.rawStart && bytes[a.rawStart] == f.dialect.quote)
    && EscapesRest(f, FieldStart, raw) == (a.escaped || EscapesRest(f, s, bytes[cursor..e]))
  }

  lemma StartReading(f: Format, bytes: seq<byte>, p: nat, limit: nat)
    requires f.Delimited? && p <= |bytes|
    ensures Reading(f, bytes, Accumulator(p, [], limit, false, false, false), [], p, FieldStart)
  {
    var e := FieldEnd(f, bytes, p, FieldStart);
    assert [] + Decode(f, bytes[p..e]) == Decode(f, bytes[p..e]);
  }

  /** What one byte inside a field decodes to: nothing for a quote that opens,
      closes or escapes. */
  function Yields(f: Format, s: CsvState, b: byte): seq<byte>
    requires f.Delimited?
  {
    if b == f.dialect.quote && (s == FieldStart || s == Quoted) then [] else [b]
  }

  lemma InsideField(f: Format, bytes: seq<byte>, cursor: nat, s: CsvState)
    requires f.Delimited? && cursor < |bytes| && (s == Quoted || bytes[cursor] != f.dialect.delimiter)
    ensures var s', e := Next(f, s, bytes[cursor]), FieldEnd(f, bytes, cursor, s);
            && e == FieldEnd(f, bytes, cursor + 1, s') && cursor < e && s' != FieldStart
            && DecodeRest(f, s, bytes[cursor..e]) ==
               Yields(f, s, bytes[cursor]) + DecodeRest(f, s', bytes[cursor + 1..e])
            && EscapesRest(f, s, bytes[cursor..e]) ==
               ((s == QuoteClosed && bytes[cursor] == f.dialect.quote) || EscapesRest(f, s', bytes[cursor + 1..e]))
  {
    var s', e := Next(f, s, bytes[cursor]), FieldEnd(f, bytes, cursor, s);
    assert e == FieldEnd(f, bytes, cursor + 1, s');
    assert bytes[cursor..e][0] == bytes[cursor];
    assert bytes[cursor..e][1..] == bytes[cursor + 1..e];
    assert bytes[cursor..e] == [bytes[cursor]] + bytes[cursor + 1..e];
  }

  /** The accumulator after one byte inside the field. */
  function Taken(f: Format, a: Accumulator, s: CsvState, b: byte): Accumulator
    requires f.Delimited?
  {
    var q := b == f.dialect.quote;
    if s == FieldStart && q then a.(quoted := true)
    else if s == Quoted && q then a
    else if s == QuoteClosed && q then a.(escaped := true).Push(b)
    else a.Push(b)
  }

  lemma TakeByte(f: Format, bytes: seq<byte>, a: Accumulator, acc: seq<byte>, cursor: nat, s: CsvState)
    requires Reading(f, bytes, a, acc, cursor, s) && cursor < |bytes|
    requires s == Quoted || bytes[cursor] != f.dialect.delimiter
    ensures var b := bytes[cursor];
            Reading(f, bytes, Taken(f, a, s, b), acc + Yields(f, s, b), cursor + 1, Next(f, s, b))
  {
    hide FieldEnd, Decode, DecodeRest, EscapesRest;
    var b := bytes[cursor];
    InsideField(f, bytes, cursor, s);
    var s', e := Next(f, s, b), FieldEnd(f, bytes, cursor, s);
    var more, rest := Yields(f, s, b), DecodeRest(f, s', bytes[cursor + 1..e]);
    assert acc + (more + rest) == (acc + more) + rest;
    Kept(a, acc, b);
    assert acc + [] == acc;
  }

  lemma Kept(a: Accumulator, acc: seq<byte>, b: byte)
    requires a.decoded == acc[..Min(|acc|, a.limit)] && (a.truncated <==> |acc| > a.limit)
    ensures var a' := a.Push(b);
            a'.decoded == (acc + [b])[..Min(|acc| + 1, a.limit)] && (a'.truncated <==> |acc + [b]| > a.limit)
  {
    if |acc| < a.limit {
      assert acc[..|acc|] == acc;
    }
  }

  /** A field that ends at `cursor` is shown as far as its limit allows. */
  function Finish(a: Accumulator, base: nat, end: nat, cut: bool): FieldProjection {
    FieldProjection(Span(base + a.rawStart, base + end), a.decoded, a.quoted, a.escaped, cut, a.truncated)
  }

  lemma FinishShows(f: Format, bytes: seq<byte>, a: Accumulator, acc: seq<byte>, cursor: nat, s: CsvState, base: nat,
                    perField: nat, total: nat, fields: nat, cut: bool)
    requires Reading(f, bytes, a, acc, cursor, s) && cursor == FieldEnd(f, bytes, cursor, s)
    requires fields > 0 && a.limit == Min(perField, total)
    ensures var shown := Shown(f, bytes, base, a.rawStart, fields, perField, total, cut);
            var first := Finish(a, base, cursor, cut && cursor == |bytes|);
            && |a.decoded| <= total
            && shown == if cursor == |bytes| then [first]
                        else [first] + Shown(f, bytes, base, cursor + 1, fields - 1, perField, total - |a.decoded|, cut)
  {
    hide FieldEnd, Decode, DecodeRest, EscapesRest;
    NothingLeft(f, s);
    assert bytes[cursor..cursor] == [];
    assert acc + [] == acc;
  }

  lemma NothingLeft(f: Format, s: CsvState)
    ensures DecodeRest(f, s, []) == [] && !EscapesRest(f, s, [])
  {}

  // --------------------------------------------------------------- projection

  /** Everything the projection has decided: `fields` are shown, and the fields
      from the one at hand on will be. `n` fields are finished. */
  ghost predicate Projecting(f: Format, bytes: seq<byte>, base: nat, limits: Limits, cut: bool,
                             fields: seq<FieldProjection>, remaining: nat, omitted: bool, a: Accumulator, n: nat) {
    && a.rawStart <= |bytes| && |fields| == Min(n, limits.fields)
    && a.limit == (if |fields| < limits.fields then Min(limits.perField, remaining) else 0)
    && (omitted <==> n > limits.fields)
    && |RawFieldsFrom(f, bytes, 0)| == n + |RawFieldsFrom(f, bytes, a.rawStart)|
    && fields + Shown(f, bytes, base, a.rawStart, limits.fields - |fields|, limits.perField, remaining, cut)
       == Shown(f, bytes, base, 0, limits.fields, limits.perField, limits.total, cut)
  }

  /** What is decided once a field is finished: its projection is added and
      its bytes are taken off the total, unless there are fields enough. */
  datatype Decided = Decided(fields: seq<FieldProjection>, omitted: bool, remaining: nat)

  function FinishField(fields: seq<FieldProjection>, omitted: bool, remaining: nat, a: Accumulator,
                       base: nat, end: nat, cut: bool, limits: Limits): Decided {
    if |fields| == limits.fields then Decided(fields, true, remaining)
    else Decided(fields + [Finish(a, base, end, cut)], omitted, Sub(remaining, |a.decoded|))
  }

  function NewField(start: nat, count: nat, remaining: nat, limits: Limits): Accumulator {
    Accumulator(start, [], if count < limits.fields then Min(limits.perField, remaining) else 0, false, false, false)
  }

  /** Ending the field at hand at a delimiter keeps what has been decided. */
  lemma FieldEnds(f: Format, bytes: seq<byte>, base: nat, limits: Limits, cut: bool,
                  fields: seq<FieldProjection>, remaining: nat, omitted: bool, a: Accumulator, n: nat,
                  acc: seq<byte>, cursor: nat, s: CsvState)
    requires Projecting(f, bytes, base, limits, cut, fields, remaining, omitted, a, n)
    requires Reading(f, bytes, a, acc, cursor, s) && cursor < |bytes| && cursor == FieldEnd(f, bytes, cursor, s)
    ensures |fields| <= limits.fields && (|fields| < limits.fields ==> |a.decoded| <= remaining)
    ensures var d := FinishField(fields, omitted, remaining, a, base, cursor, false, limits);
            Projecting(f, bytes, base, limits, cut, d.fields, d.remaining, d.omitted,
                       NewField(cursor + 1, |d.fields|, d.remaining, limits), n + 1)
  {
    hide Shown, EscapesRest, Decode, DecodeRest, RawFieldsFrom, FieldEnd, Reading;
    CountOne(f, bytes, a, acc, cursor, s);
    if |fields| < limits.fields {
      FinishShows(f, bytes, a, acc, cursor, s, base, limits.perField, remaining, limits.fields - |fields|, cut);
      var first := Finish(a, base, cursor, false);
      var rest := Shown(f, bytes, base, cursor + 1, limits.fields - |fields| - 1, limits.perField,
        remaining - |a.decoded|, cut);
      assert fields + ([first] + rest) == (fields + [first]) + rest;
    } else {
      NothingShown(f, bytes, base, a.rawStart, limits.perField, remaining, cut);
      NothingShown(f, bytes, base, cursor + 1, limits.perField, remaining, cut);
    }
  }

  /** One more raw field is behind. */
  lemma CountOne(f: Format, bytes: seq<byte>, a: Accumulator, acc: seq<byte>, cursor: nat, s: CsvState)
    requires Reading(f, bytes, a, acc, cursor, s) && cursor < |bytes| && cursor == FieldEnd(f, bytes, cursor, s)
    ensures a.rawStart <= |bytes| && |a.decoded| <= a.limit
    ensures |RawFieldsFrom(f, bytes, a.rawStart)| == 1 + |RawFieldsFrom(f, bytes, cursor + 1)|
  {
    hide Decode, DecodeRest, EscapesRest, FieldEnd;
  }

  lemma NothingShown(f: Format, bytes: seq<byte>, base: nat, p: nat, perField: nat, total: nat, cut: bool)
    requires p <= |bytes|
    ensures Shown(f, bytes, base, p, 0, perField, total, cut) == []
  {}

  lemma LastField(f: Format, bytes: seq<byte>, base: nat, limits: Limits, cut: bool,
                  fields: seq<FieldProjection>, remaining: nat, omitted: bool, a: Accumulator, n: nat,
                  acc: seq<byte>, s: CsvState)
    requires Projecting(f, bytes, base, limits, cut, fields, remaining, omitted, a, n)
    requires Reading(f, bytes, a, acc, |bytes|, s)
    ensures |fields| <= limits.fields && (|fields| < limits.fields ==> |a.decoded| <= remaining)
    ensures var d := FinishField(fields, omitted, remaining, a, base, |bytes|, cut, limits);
            && d.fields == Shown(f, bytes, base, 0, limits.fields, limits.perField, limits.total, cut)
            && d.omitted == (|RawFieldsFrom(f, bytes, 0)| > limits.fields)
  {
    hide Shown, EscapesRest, Decode, DecodeRest;
    if |fields| < limits.fields {
      FinishShows(f, bytes, a, acc, |bytes|, s, base, limits.perField, remaining, limits.fields - |fields|, cut);
    } else {
      NothingShown(f, bytes, base, a.rawStart, limits.perField, remaining, cut);
      assert fields + [] == fields;
    }
  }

  /** The fields of a visible record's prefix `bytes`, which `cut` says is not
      all of it. */
  method ProjectDelimitedRecord(bytes: seq<byte>, span: Span, truncated: bool, dialect: CsvDialect, limits: Limits)
    returns (r: Result<RecordProjection>)
    ensures limits.fields == 0 ==> r == Err(ZeroFieldLimit)
    ensures limits.fields > 0 && span.start + |bytes| > U64_MAX ==> r == Err(NumericRange)
    ensures limits.fields > 0 && span.end < span.start + |bytes| <= U64_MAX ==> r == Err(VisiblePrefixOutsideRecord)
    ensures limits.fields > 0 && span.start + |bytes| <= Min(span.end, U64_MAX) ==>
              && r.Ok?
              && var cut := span.start + |bytes| < span.end || truncated;
              && var f := Delimited(dialect);
              && r.value.fields == Shown(f, bytes, span.start, 0, limits.fields, limits.perField, limits.total, cut)
              && r.value.truncated == (cut || |RawFieldsFrom(f, bytes, 0)| > limits.fields)
  {
    hide Shown, EscapesRest, Decode, DecodeRest, Reading, Projecting, RawFieldsFrom;
    if limits.fields == 0 {
      return Err(ZeroFieldLimit);
    }
    var visibleEnd := span.start + |bytes|;
    if visibleEnd > U64_MAX {
      return Err(NumericRange);
    }
    if visibleEnd > span.end {
      return Err(VisiblePrefixOutsideRecord);
    }
    ghost var f := Delimited(dialect);
    var cut := visibleEnd < span.end || truncated;
    var fields: seq<FieldProjection>, remaining, omitted := [], limits.total, false;
    var state := FieldStart;
    var field := NewField(0, 0, remaining, limits);
    var cursor := 0;
    ghost var n, acc := 0, [];
    ProjectionBegins(f, bytes, span.start, limits, cut);
    while cursor < |bytes|
      invariant cursor <= |bytes|
      invariant Projecting(f, bytes, span.start, limits, cut, fields, remaining, omitted, field, n)
      invariant Reading(f, bytes, field, acc, cursor, state)
    {
      var byte := bytes[cursor];
      if state != Quoted && byte == dialect.delimiter {
        FieldEnds(f, bytes, span.start, limits, cut, fields, remaining, omitted, field, n, acc, cursor, state);
        var done := FinishField(fields, omitted, remaining, field, span.start, cursor, false, limits);
        fields, omitted, remaining := done.fields, done.omitted, done.remaining;
        cursor := cursor + 1;
        field := NewField(cursor, |fields|, remaining, limits);
        StartReading(f, bytes, cursor, field.limit);
        state, n, acc := FieldStart, n + 1, [];
      } else {
        TakeByte(f, bytes, field, acc, cursor, state);
        SameDecided(f, bytes, span.start, limits, cut, fields, remaining, omitted, field, n,
          Taken(f, field, state, byte));
        acc := acc + Yields(f, state, byte);
        if state == FieldStart && byte == dialect.quote {
          field := field.(quoted := true);
          state := Quoted;
        } else if state == Quoted && byte == dialect.quote {
          state := QuoteClosed;
        } else if state == QuoteClosed && byte == dialect.quote {
          field := field.(escaped := true).Push(dialect.quote);
          state := Quoted;
        } else if state == Quoted {
          field := field.Push(byte);
        } else {
          field := field.Push(byte);
          state := Unquoted;
        }
        cursor := cursor + 1;
      }
    }
    LastField(f, bytes, span.start, limits, cut, fields, remaining, omitted, field, n, acc, state);
    var done := FinishField(fields, omitted, remaining, field, span.start, |bytes|, cut, limits);
    r := Ok(RecordProjection(done.fields, done.omitted || cut));
  }

  lemma ProjectionBegins(f: Format, bytes: seq<byte>, base: nat, limits: Limits, cut: bool)
    requires f.Delimited? && limits.fields > 0
    ensures Projecting(f, bytes, base, limits, cut, [], limits.total, false, NewField(0, 0, limits.total, limits), 0)
    ensures Reading(f, bytes, NewField(0, 0, limits.total, limits), [], 0, FieldStart)
  {
    hide Shown;
    StartReading(f, bytes, 0, Min(limits.perField, limits.total));
  }

  lemma SameDecided(f: Format, bytes: seq<byte>, base: nat, limits: Limits, cut: bool,
                    fields: seq<FieldProjection>, remaining: nat, omitted: bool, a: Accumulator, n: nat,
                    a': Accumulator)
    requires Projecting(f, bytes, base, limits, cut, fields, remaining, omitted, a, n)
    requires a'.rawStart == a.rawStart && a'.limit == a.limit
    ensures Projecting(f, bytes, base, limits, cut, fields, remaining, omitted, a', n)
  {
    hide Shown, RawFieldsFrom;
  }

  // ---------------------------------------------------------- what it promises

  function TotalShown(fields: seq<FieldProjection>): nat {
    if fields == [] then 0 else |fields[0].decoded| + TotalShown(fields[1..])
  }

  /** Each field shown is a prefix of the decoded field, within its limit and
      marked exactly when it is cut. */
  ghost predicate Prefixes(shown: seq<FieldProjection>, full: seq<seq<byte>>, perField: nat) {
    && |shown| <= |full|
    && forall i :: 0 <= i < |shown| ==>
         && |shown[i].decoded| <= perField && shown[i].decoded <= full[i]
         && (shown[i].decodedTruncated <==> shown[i].decoded != full[i])
  }

  /** The first field shown, and its decoded bytes in full. */
  lemma FirstShown(f: Format, bytes: seq<byte>, base: nat, p: nat, fields: nat, perField: nat, total: nat, cut: bool)
    returns (first: FieldProjection, full: seq<byte>, e: nat)
    requires p <= |bytes| && fields > 0
    ensures e == FieldEnd(f, bytes, p, FieldStart) && full == Decode(f, bytes[p..e])
    ensures p <= e <= |bytes| && |full| <= e - p
    ensures |first.decoded| == Min(|full|, Min(perField, total)) && first.decoded <= full
    ensures first.decodedTruncated <==> first.decoded != full
    ensures var shown, all := Shown(f, bytes, base, p, fields, perField, total, cut), FieldsFrom(f, bytes, p);
            if e == |bytes| then shown == [first] && all == [full]
            else
              && shown == [first] + Shown(f, bytes, base, e + 1, fields - 1, perField, total - |first.decoded|, cut)
              && all == [full] + FieldsFrom(f, bytes, e + 1)
  {
    hide EscapesRest, FieldEnd, Decode, Shown;
    e := FieldEnd(f, bytes, p, FieldStart);
    full := Decode(f, bytes[p..e]);
    DecodingShortens(f, bytes[p..e]);
    first := OneShown(f, bytes, base, p, e, Min(perField, total), cut);
    ShownIs(f, bytes, base, p, fields, perField, total, cut);
    if |first.decoded| == |full| {
      assert first.decoded == full;
    }
  }

  lemma ShownIs(f: Format, bytes: seq<byte>, base: nat, p: nat, fields: nat, perField: nat, total: nat, cut: bool)
    requires p <= |bytes| && fields > 0
    ensures var e := FieldEnd(f, bytes, p, FieldStart);
            var first := OneShown(f, bytes, base, p, e, Min(perField, total), cut);
            Shown(f, bytes, base, p, fields, perField, total, cut) ==
            if e == |bytes| then [first]
            else [first] + Shown(f, bytes, base, e + 1, fields - 1, perField, total - |first.decoded|, cut)
  {
    hide OneShown, FieldEnd;
  }

  lemma DecodingShortens(f: Format, raw: seq<byte>)
    ensures |Decode(f, raw)| <= |raw|
  {
    if StartsQuoted(f, raw) {
      UnquoteShortens(f.dialect.quote, raw[1..]);
    }
  }

  lemma {:induction false} UnquoteShortens(q: byte, s: seq<byte>)
    ensures |Unquote(q, s)| <= |s| && |Closed(q, s)| <= |s|
    decreases |s|
  {
    if s != [] {
      UnquoteShortens(q, s[1..]);
    }
  }

  lemma PrefixesCons(first: FieldProjection, full: seq<byte>, shown: seq<FieldProjection>, all: seq<seq<byte>>,
                     perField: nat)
    requires Prefixes(shown, all, perField)
    requires |first.decoded| <= perField && first.decoded <= full && (first.decodedTruncated <==> first.decoded != full)
    ensures Prefixes([first] + shown, [full] + all, perField)
    ensures TotalShown([first] + shown) == |first.decoded| + TotalShown(shown)
  {
    assert ([first] + shown)[1..] == shown;
  }

  /** The fields shown are prefixes, as many as allowed, and their total stays
      within the limit. */
  lemma {:induction false} ShownIsBounded(f: Format, bytes: seq<byte>, base: nat, p: nat, fields: nat, perField: nat,
                                          total: nat, cut: bool)
    requires p <= |bytes|
    ensures var shown, full := Shown(f, bytes, base, p, fields, perField, total, cut), FieldsFrom(f, bytes, p);
            |shown| == Min(fields, |full|) && TotalShown(shown) <= total && Prefixes(shown, full, perField)
    decreases |bytes| - p
  {
    hide Shown, FieldsFrom, FieldEnd, Decode, Prefixes;
    if fields == 0 {
      NothingShown(f, bytes, base, p, perField, total, cut);
      NoPrefixes(FieldsFrom(f, bytes, p), perField);
    } else {
      var first, full, e := FirstShown(f, bytes, base, p, fields, perField, total, cut);
      if e < |bytes| {
        ShownIsBounded(f, bytes, base, e + 1, fields - 1, perField, total - |first.decoded|, cut);
        PrefixesCons(first, full, Shown(f, bytes, base, e + 1, fields - 1, perField, total - |first.decoded|, cut),
          FieldsFrom(f, bytes, e + 1), perField);
      } else {
        NoPrefixes([], perField);
        PrefixesCons(first, full, [], [], perField);
        assert [first] + [] == [first] && [full] + [] == [full];
      }
    }
  }

  lemma NoPrefixes(full: seq<seq<byte>>, perField: nat)
    ensures Prefixes([], full, perField) && TotalShown([]) == 0
  {}

  /** With limits no smaller than the record every field is shown in full. */
  lemma {:induction false} AmpleLimits(f: Format, bytes: seq<byte>, base: nat, p: nat, fields: nat, perField: nat,
                                       total: nat, cut: bool, i: nat)
    requires p <= |bytes| && perField >= |bytes| - p && total >= |bytes| - p && fields > |bytes| - p
    ensures var shown, full := Shown(f, bytes, base, p, fields, perField, total, cut), FieldsFrom(f, bytes, p);
            |shown| == |full| && (i < |full| ==> shown[i].decoded == full[i])
    decreases |bytes| - p
  {
    hide Shown, FieldsFrom, FieldEnd, Decode;
    var first, full, e := FirstShown(f, bytes, base, p, fields, perField, total, cut);
    if e < |bytes| {
      AmpleLimits(f, bytes, base, e + 1, fields - 1, perField, total - |first.decoded|, cut,
                  if i > 0 then i - 1 else 0);
    }
  }

  // ------------------------------------------------ what is said of each field

  /** At byte `k` of a raw field a quote is doubled. */
  predicate EscapeAt(d: CsvDialect, raw: seq<byte>, k: int) {
    && 0 <= k && k + 1 < |raw|
    && StateAfter(Delimited(d), raw[..k]) == Quoted && raw[k] == d.quote && raw[k + 1] == d.quote
  }

  /** A raw field holds no delimiter outside quotes. */
  ghost predicate OneField(d: CsvDialect, raw: seq<byte>) {
    forall k :: 0 <= k < |raw| && raw[k] == d.delimiter ==> StateAfter(Delimited(d), raw[..k]) == Quoted
  }

  lemma {:induction false} EscapesIsExact(d: CsvDialect, raw: seq<byte>, j: nat, s: CsvState)
    requires j <= |raw| && s == StateAfter(Delimited(d), raw[..j]) && OneField(d, raw)
    requires s == FieldStart ==> j == 0
    ensures EscapesRest(Delimited(d), s, raw[j..]) <==>
            (s == QuoteClosed && j < |raw| && raw[j] == d.quote) || exists k :: j <= k && EscapeAt(d, raw, k)
    decreases |raw| - j
  {
    var f := Delimited(d);
    if j < |raw| {
      var s' := Next(f, s, raw[j]);
      StateStep(f, raw[..j], raw[j]);
      assert raw[..j] + [raw[j]] == raw[..j + 1];
      assert raw[j..][0] == raw[j] && raw[j..][1..] == raw[j + 1..];
      EscapesIsExact(d, raw, j + 1, s');
      var later := exists k :: j + 1 <= k && EscapeAt(d, raw, k);
      assert (exists k :: j <= k && EscapeAt(d, raw, k)) <==> later || EscapeAt(d, raw, j) by {
        if later {
          var k :| j + 1 <= k && EscapeAt(d, raw, k);
          assert j <= k;
        }
      }
    }
  }

  lemma OneMore(d: CsvDialect, field: seq<byte>, b: byte)
    requires OneField(d, field) && (b == d.delimiter ==> StateAfter(Delimited(d), field) == Quoted)
    ensures OneField(d, field + [b])
  {
    var more := field + [b];
    forall k | 0 <= k < |more| && more[k] == d.delimiter
      ensures StateAfter(Delimited(d), more[..k]) == Quoted
    {
      if k < |field| {
        assert more[..k] == field[..k];
      } else {
        assert more[..k] == field;
      }
    }
  }

  /** The first field from `p` on is one, and ends at a delimiter outside quotes
      or with the record. */
  lemma {:induction false} FieldIsOne(d: CsvDialect, rec: seq<byte>, p: nat, i: nat, s: CsvState)
    requires p <= i <= |rec| && s == StateAfter(Delimited(d), rec[p..i]) && OneField(d, rec[p..i])
    ensures var e := FieldEnd(Delimited(d), rec, i, s);
            && OneField(d, rec[p..e])
            && (e < |rec| ==> rec[e] == d.delimiter && StateAfter(Delimited(d), rec[p..e]) != Quoted)
    decreases |rec| - i
  {
    hide StateAfter, Next, OneField;
    var f := Delimited(d);
    if i < |rec| && (s == Quoted || rec[i] != d.delimiter) {
      StateStep(f, rec[p..i], rec[i]);
      assert rec[p..i] + [rec[i]] == rec[p..i + 1];
      OneMore(d, rec[p..i], rec[i]);
      FieldIsOne(d, rec, p, i + 1, Next(f, s, rec[i]));
    }
  }

  /** The raw fields of a record, with the delimiters between them, are the
      record, and are split at every delimiter outside quotes and at no other. */
  ghost predicate Splits(d: CsvDialect, rec: seq<byte>, p: nat, raws: seq<Span>)
    decreases |raws|
  {
    && |raws| > 0 && p == raws[0].start <= raws[0].end <= |rec|
    && var field, e := rec[p..raws[0].end], raws[0].end;
    && OneField(d, field)
    && if e == |rec| then |raws| == 1
       else rec[e] == d.delimiter && StateAfter(Delimited(d), field) != Quoted && Splits(d, rec, e + 1, raws[1..])
  }

  lemma {:induction false} RawFieldsSplit(d: CsvDialect, rec: seq<byte>, p: nat)
    requires p <= |rec|
    ensures Splits(d, rec, p, RawFieldsFrom(Delimited(d), rec, p))
    decreases |rec| - p
  {
    hide OneField, StateAfter, FieldEnd;
    var f := Delimited(d);
    var e := FieldEnd(f, rec, p, FieldStart);
    assert rec[p..p] == [];
    NothingIsOne(d);
    FieldIsOne(d, rec, p, p, FieldStart);
    if e < |rec| {
      RawFieldsSplit(d, rec, e + 1);
      var rest := RawFieldsFrom(f, rec, e + 1);
      assert RawFieldsFrom(f, rec, p)[1..] == rest;
    }
  }

  lemma NothingIsOne(d: CsvDialect)
    ensures OneField(d, []) && StateAfter(Delimited(d), []) == FieldStart
  {}

  /** What the projection says of a field: where it lies, whether it begins with
      a quote, whether one is doubled in it, and whether the visible prefix ends
      inside it. */
  ghost predicate Tells(d: CsvDialect, bytes: seq<byte>, base: nat, raw: Span, last: bool, cut: bool,
                        shown: FieldProjection) {
    && raw.start <= raw.end <= |bytes|
    && var field := bytes[raw.start..raw.end];
    && shown.raw == Span(base + raw.start, base + raw.end)
    && (shown.quoted <==> field != [] && field[0] == d.quote)
    && (shown.escaped <==> exists k :: EscapeAt(d, field, k))
    && (shown.rawTruncated <==> cut && last)
  }

  lemma OneTells(d: CsvDialect, bytes: seq<byte>, base: nat, p: nat, limit: nat, cut: bool)
    requires p <= |bytes|
    ensures var e := FieldEnd(Delimited(d), bytes, p, FieldStart);
            Tells(d, bytes, base, Span(p, e), e == |bytes|, cut,
                  OneShown(Delimited(d), bytes, base, p, e, limit, cut))
  {
    hide OneField, EscapesRest, EscapeAt, FieldEnd;
    var e := FieldEnd(Delimited(d), bytes, p, FieldStart);
    var raw := bytes[p..e];
    assert bytes[p..p] == [] && raw[..0] == [] && raw[0..] == raw;
    NothingIsOne(d);
    FieldIsOne(d, bytes, p, p, FieldStart);
    EscapesIsExact(d, raw, 0, FieldStart);
    EscapesWithin(d, raw);
  }

  lemma EscapesWithin(d: CsvDialect, raw: seq<byte>)
    ensures (exists k :: EscapeAt(d, raw, k)) <==> exists k :: 0 <= k && EscapeAt(d, raw, k)
  {
    if k :| EscapeAt(d, raw, k) {
      assert 0 <= k;
    }
  }

  /** Field `i` shown is raw field `i`, and what is said of it is so. */
  lemma {:induction false} ShownTells(d: CsvDialect, bytes: seq<byte>, base: nat, p: nat, fields: nat, perField: nat,
                                      total: nat, cut: bool, i: nat)
    requires p <= |bytes| && i < |Shown(Delimited(d), bytes, base, p, fields, perField, total, cut)|
    ensures var raws := RawFieldsFrom(Delimited(d), bytes, p);
            && i < |raws|
            && Tells(d, bytes, base, raws[i], i == |raws| - 1, cut,
                     Shown(Delimited(d), bytes, base, p, fields, perField, total, cut)[i])
    decreases |bytes| - p
  {
    hide OneShown, FieldEnd, Tells, Shown;
    var f := Delimited(d);
    if fields == 0 {
      NothingShown(f, bytes, base, p, perField, total, cut);
    } else {
      ShownIs(f, bytes, base, p, fields, perField, total, cut);
      OneTells(d, bytes, base, p, Min(perField, total), cut);
      var e := FieldEnd(f, bytes, p, FieldStart);
      var first := OneShown(f, bytes, base, p, e, Min(perField, total), cut);
      if i > 0 && e < |bytes| {
        ShownTells(d, bytes, base, e + 1, fields - 1, perField, total - |first.decoded|, cut, i - 1);
      }
    }
  }

  /** The key a record is sorted by is the field that is displayed, malformed
      quoting included; a missing field sorts as empty. */
  lemma SortKeyIsDisplayed(d: CsvDialect, rec: seq<byte>, base: nat, column: nat, limits: Limits)
    requires limits.fields > |rec| && limits.perField >= |rec| && limits.total >= |rec|
    ensures var shown := Shown(Delimited(d), rec, base, 0, limits.fields, limits.perField, limits.total, false);
            KeyBytes(Delimited(d), rec, column) == if column < |shown| then shown[column].decoded else []
  {
    AmpleLimits(Delimited(d), rec, base, 0, limits.fields, limits.perField, limits.total, false, column);
  }
}
