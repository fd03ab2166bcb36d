/** Locating and decoding one record's sort key under a byte budget. */
module Key {
  import opened Prelude
  import opened Records
  import opened Fields

  const PREFIX: nat := 32

  /** The sort key a run file stores for one record. */
  datatype Descriptor = Descriptor(
    row: nat,
    start: nat,
    end: nat,
    keyStart: nat,
    keyEnd: nat,
    quoted: bool,
    prefix: seq<byte>,
    len: nat,
    group: nat,
    sign: int,
    magnitude: int,
    leading: nat,
    digits: nat)

  function ZeroPrefix(): (r: seq<byte>)
    ensures |r| == PREFIX
  {
    seq(PREFIX, _ => 0)
  }

  /** A descriptor that knows its record but not yet its key. */
  function Blank(row: nat, span: Span): Descriptor {
    Descriptor(row, span.start, span.end, 0, 0, false, ZeroPrefix(), 0, 0, 0, 0, 0, 0)
  }

  /** The descriptor with the key's raw span found. */
  function Located(f: Format, src: Source, row: nat, span: Span, column: nat): Descriptor
    requires span.start <= span.end <= |src|
  {
    var rec := src[span.start..span.end];
    match KeySpan(f, rec, 0, column)
    case Some(k) =>
      Blank(row, span).(
        keyStart := span.start + k.start,
        keyEnd := span.start + k.end,
        quoted := StartsQuoted(f, rec[k.start..k.end]))
    case None =>
      Blank(row, span).(keyStart := span.end, keyEnd := span.end)
  }

  predicate PointsAtKey(src: Source, d: Descriptor) {
    d.keyStart <= d.keyEnd <= |src| && (d.quoted ==> d.keyStart < d.keyEnd)
  }

  /** The key a descriptor points at. */
  function KeyOf(src: Source, quote: byte, d: Descriptor): seq<byte>
    requires PointsAtKey(src, d)
  {
    if d.quoted then Unquote(quote, src[d.keyStart + 1..d.keyEnd]) else src[d.keyStart..d.keyEnd]
  }

  /** The located span decodes to exactly the field the projection shows. */
  lemma LocatedKeyIsField(f: Format, src: Source, row: nat, span: Span, column: nat)
    requires span.start <= span.end <= |src|
    ensures var d := Located(f, src, row, span, column);
            && d.start <= d.keyStart <= d.keyEnd <= d.end
            && PointsAtKey(src, d) && (d.quoted ==> src[d.keyStart] == QuoteOf(f) && f.Delimited?)
            && KeyOf(src, QuoteOf(f), d) == KeyBytes(f, src[span.start..span.end], column)
  {
    hide FieldsFrom, KeySpan, FieldEnd, Unquote;
    var rec := src[span.start..span.end];
    KeySpanSelectsField(f, rec, 0, column);
    var k := KeySpan(f, rec, 0, column);
    if k.Some? {
      SliceOfSlice(src, span.start, span.end, k.value.start, k.value.end);
      if StartsQuoted(f, rec[k.value.start..k.value.end]) {
        DropFirst(src, span.start + k.value.start, span.start + k.value.end);
      }
    }
  }

  lemma DropFirst(s: seq<byte>, a: nat, b: nat)
    requires a < b <= |s|
    ensures s[a..b][1..] == s[a + 1..b] && s[a..b][0] == s[a] && s[a..b] == [s[a]] + s[a + 1..b]
  {}

  /** A locator reading field `column` at `p..i` of `rec` in state `s` will find
      what a fresh one would. */
  ghost predicate Locating(f: Format, rec: seq<byte>, target: nat, column: nat, p: int, i: int, s: CsvState) {
    && 0 <= p <= i <= |rec| && column <= target
    && KeySpan(f, rec, 0, target) == KeySpan(f, rec, p, target - column)
    && FieldEnd(f, rec, i, s) == FieldEnd(f, rec, p, FieldStart)
    && (s == FieldStart <==> i == p || f.Lines?)
  }

  predicate EndsField(f: Format, s: CsvState, b: byte) {
    f.Delimited? && s != Quoted && b == f.dialect.delimiter
  }

  lemma LocatingStep(f: Format, rec: seq<byte>, target: nat, column: nat, p: nat, i: nat, s: CsvState)
    requires Locating(f, rec, target, column, p, i, s) && i < |rec|
    ensures column <= target && (s == FieldStart <==> i == p || f.Lines?)
    ensures !EndsField(f, s, rec[i]) ==> Locating(f, rec, target, column, p, i + 1, Next(f, s, rec[i]))
    ensures EndsField(f, s, rec[i]) && column < target ==>
              Locating(f, rec, target, column + 1, i + 1, i + 1, FieldStart)
    ensures EndsField(f, s, rec[i]) && column == target ==> KeySpan(f, rec, 0, target) == Some(Span(p, i))
  {}

  lemma LocatingEnd(f: Format, rec: seq<byte>, target: nat, column: nat, p: nat, i: nat, s: CsvState)
    requires Locating(f, rec, target, column, p, i, s) && i == |rec|
    ensures KeySpan(f, rec, 0, target) == if column == target then Some(Span(p, i)) else None
  {}

  class Locator {
    const format: Format
    const target: nat
    var descriptor: Descriptor
    var cursor: nat
    var fieldStart: nat
    var column: nat
    var state: CsvState

    ghost predicate Valid(src: Source, row: nat, span: Span)
      reads this
    {
      && span.start <= fieldStart <= cursor <= span.end <= |src|
      && var rec, p, i := src[span.start..span.end], fieldStart - span.start, cursor - span.start;
      && Locating(format, rec, target, column, p, i, state)
      && descriptor == Blank(row, span).(
           quoted := format.Delimited? && column == target && i > p && rec[p] == QuoteOf(format))
    }

    constructor (row: nat, span: Span, format: Format, target: nat, ghost src: Source)
      requires span.start <= span.end <= |src|
      ensures this.format == format && this.target == target
      ensures Valid(src, row, span)
      ensures cursor == span.start
    {
      this.format := format;
      this.target := target;
      descriptor := Blank(row, span);
      cursor := span.start;
      fieldStart := span.start;
      column := 0;
      state := FieldStart;
    }

    /** Reads one byte; the result is the finished descriptor if the byte is
        the delimiter that ends the target field. */
    method Step(ghost src: Source, ghost row: nat, ghost span: Span, byte: byte)
      returns (found: Option<Descriptor>)
      requires Valid(src, row, span) && cursor < span.end && byte == src[cursor]
      modifies this
      ensures cursor == old(cursor) + 1
      ensures found.None? ==> Valid(src, row, span)
      ensures found.Some? ==> found.value == Located(format, src, row, span, target)
    {
      hide Locating, KeySpan, ZeroPrefix;
      found := None;
      ghost var rec := src[span.start..span.end];
      assert byte == rec[cursor - span.start];
      LocatingStep(format, rec, target, column, fieldStart - span.start, cursor - span.start, state);
      var at := cursor;
      cursor := cursor + 1;
      if format.Delimited? {
        var d := format.dialect;
        if state == FieldStart && byte == d.quote {
          state := Quoted;
          if column == target {
            descriptor := descriptor.(quoted := true);
          }
        } else if state == Quoted && byte == d.quote {
          state := QuoteClosed;
        } else if state == Quoted {
        } else if state == QuoteClosed && byte == d.quote {
          state := Quoted;
        } else if byte == d.delimiter {
          if column == target {
            return Some(descriptor.(keyStart := fieldStart, keyEnd := at));
          }
          column := column + 1;
          fieldStart := cursor;
          state := FieldStart;
        } else {
          state := Unquoted;
        }
      }
    }

    /** Looks for the key until it is found or the budget is spent. Where the
        budget runs out makes no difference to the result. */
    method Advance(src: Source, ghost row: nat, ghost span: Span, budget: nat, calm: bool)
      returns (r: Result<Option<Descriptor>>, left: nat)
      requires Valid(src, row, span)
      modifies this
      ensures left <= budget
      ensures r.Ok? && r.value.None? ==>
                left == 0 && Valid(src, row, span) && cursor == old(cursor) + budget
      ensures r.Ok? && r.value.Some? ==> r.value.value == Located(format, src, row, span, target)
      ensures r.Err? ==> !calm && SourceError(r.error) && Valid(src, row, span)
    {
      hide Locating, KeySpan, ZeroPrefix;
      left := budget;
      while cursor < descriptor.end && left > 0
        invariant Valid(src, row, span)
        invariant left <= budget && cursor == old(cursor) + (budget - left)
        decreases left
      {
        var chunk := ReadAt(src, cursor, Min(Min(left, 4096), descriptor.end - cursor), calm);
        if chunk.Err? {
          return Err(chunk.error), left;
        }
        var n := 0;
        ghost var before := left;
        while n < |chunk.value|
          invariant n <= |chunk.value| <= before == left + n
          invariant Valid(src, row, span)
          invariant left <= budget && cursor == old(cursor) + (budget - left)
          invariant cursor + (|chunk.value| - n) <= span.end
          invariant chunk.value[n..] == src[cursor..cursor + (|chunk.value| - n)]
        {
          assert chunk.value[n..][0] == chunk.value[n];
          var found := Step(src, row, span, chunk.value[n]);
          left := left - 1;
          n := n + 1;
          if found.Some? {
            return Ok(found), left;
          }
        }
      }
      if cursor == descriptor.end {
        LocatingEnd(format, src[span.start..span.end], target, column, fieldStart - span.start, cursor - span.start,
          state);
        if column == target {
          descriptor := descriptor.(keyStart := fieldStart, keyEnd := cursor);
        } else {
          descriptor := descriptor.(keyStart := cursor, keyEnd := cursor);
        }
        return Ok(Some(descriptor)), left;
      }
      r := Ok(None);
    }
  }

  datatype ByteStep = Byte(b: byte) | End | Yield

  lemma UnquoteStep(q: byte, s: seq<byte>)
    requires s != []
    ensures Unquote(q, s) == if s[0] == q then Closed(q, s[1..]) else [s[0]] + Unquote(q, s[1..])
    ensures Closed(q, s) == if s[0] == q then [q] + Unquote(q, s[1..]) else s
  {}

  /** Decodes one key a byte at a time, reading ahead through a buffer. */
  class Cursor {
    const end: nat
    const quote: byte
    var offset: nat
    var buf: seq<byte>
    var pos: nat
    var quoted: bool
    var closed: bool
    var first: bool

    ghost predicate Valid(src: Source)
      reads this
    {
      && offset <= end <= |src|
      && Aligned(buf, pos, src, offset) && offset + (|buf| - pos) <= end
      && (first ==> !closed) && (first && quoted ==> offset < end)
    }

    /** The decoded bytes still to come. */
    ghost function Rest(src: Source): seq<byte>
      reads this
      requires Valid(src)
    {
      if !quoted then src[offset..end]
      else if first then Unquote(quote, src[offset + 1..end])
      else if closed then Closed(quote, src[offset..end])
      else Unquote(quote, src[offset..end])
    }

    constructor (d: Descriptor, quote: byte, ghost src: Source)
      requires PointsAtKey(src, d)
      ensures this.quote == quote && end == d.keyEnd && offset == d.keyStart
      ensures Valid(src) && Rest(src) == KeyOf(src, quote, d)
    {
      offset := d.keyStart;
      end := d.keyEnd;
      buf := [];
      pos := 0;
      quoted := d.quoted;
      closed := false;
      first := true;
      this.quote := quote;
    }

    /** Takes the buffered byte at the cursor; quotes that only delimit or
        escape yield nothing. */
    method Take(ghost src: Source) returns (b: Option<byte>)
      requires Valid(src) && pos < |buf|
      modifies this
      ensures Valid(src) && offset == old(offset) + 1
      ensures old(Rest(src)) == (match b case None => [] case Some(x) => [x]) + Rest(src)
    {
      hide Unquote, Closed, Aligned;
      var byte := buf[pos];
      AlignedByte(buf, pos, src, offset);
      DropFirst(src, offset, end);
      UnquoteStep(quote, src[offset..end]);
      pos := pos + 1;
      offset := offset + 1;
      if first {
        first := false;
        if quoted {
          return None;
        }
      }
      if quoted {
        if closed {
          closed := false;
          if byte == quote {
            return Some(byte);
          }
          quoted := false;
          return Some(byte);
        }
        if byte == quote {
          closed := true;
          return None;
        }
      }
      b := Some(byte);
    }

    /** The next decoded byte, the end, or a yield when the budget is spent. */
    method Next(src: Source, budget: nat, calm: bool) returns (r: Result<ByteStep>, left: nat)
      requires Valid(src)
      modifies this
      ensures Valid(src) && left <= budget && offset == old(offset) + (budget - left)
      ensures r.Ok? ==>
                match r.value
                case Byte(b) => old(Rest(src)) == [b] + Rest(src) && left < budget
                case End => old(Rest(src)) == Rest(src) == []
                case Yield => old(Rest(src)) == Rest(src) && left == 0
      ensures r.Err? ==> !calm && SourceError(r.error) && Rest(src) == old(Rest(src))
    {
      hide Unquote, Closed;
      left := budget;
      while left > 0
        invariant Valid(src) && left <= budget && offset == old(offset) + (budget - left)
        invariant old(Rest(src)) == Rest(src)
        decreases left
      {
        if pos == |buf| {
          if offset == end {
            AtEnd(src);
            return Ok(End), left;
          }
          var chunk := ReadAt(src, offset, Min(4096, end - offset), calm);
          if chunk.Err? {
            return Err(chunk.error), left;
          }
          buf, pos := chunk.value, 0;
        }
        var b := Take(src);
        left := left - 1;
        if b.Some? {
          return Ok(Byte(b.value)), left;
        }
      }
      r := Ok(Yield);
    }

    lemma AtEnd(src: Source)
      requires Valid(src) && offset == end
      ensures Rest(src) == []
    {}
  }
}
