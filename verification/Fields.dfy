/** What the fields of a record are: split at delimiters outside quotes, then
    decode each raw field on its own. */
module Fields {
  import opened Prelude
  import opened Records

  /** The first delimiter outside quotes at or after `i`, or the record's end. */
  function FieldEnd(f: Format, rec: seq<byte>, i: nat, s: CsvState): (e: nat)
    requires i <= |rec|
    ensures i <= e <= |rec|
    ensures e < |rec| ==> f.Delimited? && rec[e] == f.dialect.delimiter
    decreases |rec| - i
  {
    if i == |rec| then i
    else if f.Delimited? && s != Quoted && rec[i] == f.dialect.delimiter then i
    else FieldEnd(f, rec, i + 1, Next(f, s, rec[i]))
  }

  /** The raw fields from the field start `p` on. There is always one. */
  function RawFieldsFrom(f: Format, rec: seq<byte>, p: nat): (r: seq<Span>)
    requires p <= |rec|
    ensures |r| > 0
    decreases |rec| - p
  {
    var e := FieldEnd(f, rec, p, FieldStart);
    if e == |rec| then [Span(p, e)] else [Span(p, e)] + RawFieldsFrom(f, rec, e + 1)
  }

  /** What a quoted field's bytes after its opening quote stand for: a doubled
      quote is one quote, and after the closing quote every byte is itself. */
  function Unquote(q: byte, s: seq<byte>): seq<byte> {
    if s == [] then []
    else if s[0] == q then Closed(q, s[1..])
    else [s[0]] + Unquote(q, s[1..])
  }

  /** The same, just after a quote that may close the field. */
  function Closed(q: byte, s: seq<byte>): seq<byte> {
    if s == [] then []
    else if s[0] == q then [q] + Unquote(q, s[1..])
    else s
  }

  predicate StartsQuoted(f: Format, raw: seq<byte>) {
    f.Delimited? && raw != [] && raw[0] == f.dialect.quote
  }

  function Decode(f: Format, raw: seq<byte>): seq<byte> {
    if StartsQuoted(f, raw) then Unquote(f.dialect.quote, raw[1..]) else raw
  }

  /** The decoded fields from the field start `p` on. */
  function FieldsFrom(f: Format, rec: seq<byte>, p: nat): (r: seq<seq<byte>>)
    requires p <= |rec|
    ensures |r| > 0
    decreases |rec| - p
  {
    var e := FieldEnd(f, rec, p, FieldStart);
    var field := Decode(f, rec[p..e]);
    if e == |rec| then [field] else [field] + FieldsFrom(f, rec, e + 1)
  }

  function FieldsOf(f: Format, rec: seq<byte>): seq<seq<byte>> {
    FieldsFrom(f, rec, 0)
  }

  /** The bytes a record is sorted by; a missing column is an empty key. */
  function KeyBytes(f: Format, rec: seq<byte>, column: nat): seq<byte> {
    var fields := FieldsOf(f, rec);
    if column < |fields| then fields[column] else []
  }

  /** Where the `k`-th field from `p` lies, if there is one. */
  function KeySpan(f: Format, rec: seq<byte>, p: nat, k: nat): (r: Option<Span>)
    requires p <= |rec|
    ensures r.Some? ==> p <= r.value.start <= r.value.end <= |rec|
    decreases |rec| - p
  {
    var e := FieldEnd(f, rec, p, FieldStart);
    if k == 0 then Some(Span(p, e))
    else if e == |rec| then None
    else KeySpan(f, rec, e + 1, k - 1)
  }

  lemma {:induction false} KeySpanSelectsField(f: Format, rec: seq<byte>, p: nat, k: nat)
    requires p <= |rec|
    ensures var fields, at := FieldsFrom(f, rec, p), KeySpan(f, rec, p, k);
            && (at.Some? <==> k < |fields|)
            && (at.Some? ==> Decode(f, rec[at.value.start..at.value.end]) == fields[k])
    decreases |rec| - p
  {
    hide FieldEnd, Decode;
    var e := FieldEnd(f, rec, p, FieldStart);
    if k > 0 && e < |rec| {
      KeySpanSelectsField(f, rec, e + 1, k - 1);
    }
  }

  /** What the rest of a raw field decodes to, given the automaton's state. A
      cursor over one field and a projection of a whole record both stand
      somewhere in this. */
  function DecodeRest(f: Format, s: CsvState, rest: seq<byte>): seq<byte> {
    match s
    case FieldStart => Decode(f, rest)
    case Unquoted => rest
    case Quoted => Unquote(QuoteOf(f), rest)
    case QuoteClosed => Closed(QuoteOf(f), rest)
  }
}
