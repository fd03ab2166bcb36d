/** The fixed-size records scratch files are made of, byte by byte. */
module Codec {
  import opened Prelude
  import opened Records
  import opened Key
  import opened Hits
  import Decimal
  import DecimalOrder
  import Number
  import KeyOrder
  import FieldSpec = Fields
  import Projection

  const DESCRIPTOR_BYTES: nat := 128
  const ENTRY_BYTES: nat := 24
  const TWO_127: int := 0x8000_0000_0000_0000_0000_0000_0000_0000

  // ------------------------------------------------------------ little endian

  function Pow256(w: nat): nat {
    if w == 0 then 1 else 256 * Pow256(w - 1)
  }

  function ToLe(n: nat, w: nat): (s: seq<byte>)
    ensures |s| == w
  {
    if w == 0 then [] else [n % 256] + ToLe(n / 256, w - 1)
  }

  function FromLe(s: seq<byte>): nat {
    if s == [] then 0 else s[0] + 256 * FromLe(s[1..])
  }

  lemma {:induction false} LeRoundTrips(n: nat, w: nat)
    requires n < Pow256(w)
    ensures FromLe(ToLe(n, w)) == n
    decreases w
  {
    if w > 0 {
      LeRoundTrips(n / 256, w - 1);
      assert ToLe(n, w)[1..] == ToLe(n / 256, w - 1);
    }
  }

  lemma {:induction false} BytesRoundTrip(s: seq<byte>)
    ensures FromLe(s) < Pow256(|s|) && ToLe(FromLe(s), |s|) == s
    decreases |s|
  {
    if s != [] {
      var rest := FromLe(s[1..]);
      BytesRoundTrip(s[1..]);
      assert (s[0] + 256 * rest) % 256 == s[0] && (s[0] + 256 * rest) / 256 == rest;
      assert s == [s[0]] + s[1..];
    }
  }

  /** `n` divided by 256, `i` times over. */
  function Divided(n: nat, i: nat): nat {
    if i == 0 then n else Divided(n / 256, i - 1)
  }

  /** The lowest byte comes first. */
  lemma {:induction false} LittleEndian(n: nat, w: nat, i: nat)
    requires i < w
    ensures ToLe(n, w)[i] == Divided(n, i) % 256
    decreases w
  {
    if i > 0 {
      LittleEndian(n / 256, w - 1, i - 1);
    }
  }

  lemma Widths()
    ensures Pow256(8) == U64_MAX + 1 && Pow256(16) == 2 * TWO_127
  {
    assert Pow256(4) == 0x1_0000_0000;
    assert Pow256(8) == 0x1_0000_0000_0000_0000;
    assert Pow256(12) == 0x1_0000_0000_0000_0000_0000_0000;
  }

  function U64(n: nat): (s: seq<byte>)
    ensures |s| == 8
  {
    ToLe(n, 8)
  }

  /** A signed 128-bit number in two's complement. */
  function I128(m: int): (s: seq<byte>)
    requires -TWO_127 <= m < TWO_127
    ensures |s| == 16
  {
    ToLe(if m < 0 then m + 2 * TWO_127 else m, 16)
  }

  function FromI128(s: seq<byte>): int {
    var n := FromLe(s);
    if n < TWO_127 then n else n - 2 * TWO_127
  }

  lemma U64RoundTrips(n: nat)
    requires n <= U64_MAX
    ensures FromLe(U64(n)) == n
  {
    Widths();
    LeRoundTrips(n, 8);
  }

  lemma I128RoundTrips(m: int)
    requires -TWO_127 <= m < TWO_127
    ensures FromI128(I128(m)) == m
  {
    Widths();
    LeRoundTrips(if m < 0 then m + 2 * TWO_127 else m, 16);
  }

  // ------------------------------------------------------------- hits and maps

  /** A row and a span: a search hit, or an entry of the order map. */
  function EncodeEntry(row: nat, span: Span): (b: seq<byte>)
    ensures |b| == ENTRY_BYTES
  {
    U64(row) + U64(span.start) + U64(span.end)
  }

  function DecodeEntry(b: seq<byte>): Result<Hit>
    requires |b| == ENTRY_BYTES
  {
    var row, start, end := FromLe(b[..8]), FromLe(b[8..16]), FromLe(b[16..24]);
    if end < start then Err(InvalidScratch) else Ok(Hit(row, Span(start, end)))
  }

  lemma EntryRoundTrips(row: nat, span: Span)
    requires row <= U64_MAX && span.start <= span.end <= U64_MAX
    ensures DecodeEntry(EncodeEntry(row, span)) == Ok(Hit(row, span))
  {
    hide ToLe, FromLe;
    var b := EncodeEntry(row, span);
    assert b[..8] == U64(row) && b[8..16] == U64(span.start) && b[16..24] == U64(span.end);
    U64RoundTrips(row);
    U64RoundTrips(span.start);
    U64RoundTrips(span.end);
  }

  // --------------------------------------------------------------- descriptors

  /** Every field fits where it is stored. */
  ghost predicate Fits(d: Descriptor) {
    && d.row <= U64_MAX && d.start <= U64_MAX && d.end <= U64_MAX && d.keyStart <= U64_MAX && d.keyEnd <= U64_MAX
    && |d.prefix| == PREFIX && d.len <= U64_MAX && -TWO_127 <= d.magnitude < TWO_127
    && d.leading <= U64_MAX && d.digits <= U64_MAX && d.group < 256 && -128 <= d.sign < 128
  }

  /** What a descriptor read back must satisfy to be believed. */
  predicate Sound(d: Descriptor) {
    d.start <= d.keyStart <= d.keyEnd <= d.end && d.group <= 2 && -1 <= d.sign <= 1
  }

  function SignByte(sign: int): byte
    requires -128 <= sign < 128
  {
    if sign < 0 then sign + 256 else sign
  }

  function SignOf(b: byte): int {
    if b < 128 then b else b - 256
  }

  function Numbers(d: Descriptor): (b: seq<byte>)
    ensures |b| == 40
  {
    U64(d.row) + U64(d.start) + U64(d.end) + U64(d.keyStart) + U64(d.keyEnd)
  }

  function Summary(d: Descriptor): (b: seq<byte>)
    requires -TWO_127 <= d.magnitude < TWO_127
    ensures |b| == 40
  {
    U64(d.len) + I128(d.magnitude) + U64(d.leading) + U64(d.digits)
  }

  function Encode(d: Descriptor): (b: seq<byte>)
    requires Fits(d)
    ensures |b| == DESCRIPTOR_BYTES
  {
    Numbers(d) + d.prefix + Summary(d)
    + [d.group, SignByte(d.sign), if d.quoted then 1 else 0] + seq(13, _ => 0)
  }

  function FieldsOf(b: seq<byte>): Descriptor
    requires |b| == DESCRIPTOR_BYTES
  {
    Descriptor(
      FromLe(b[..8]), FromLe(b[8..16]), FromLe(b[16..24]), FromLe(b[24..32]), FromLe(b[32..40]),
      b[114] == 1, b[40..72], FromLe(b[72..80]), b[112], SignOf(b[113]),
      FromI128(b[80..96]), FromLe(b[96..104]), FromLe(b[104..112]))
  }

  function Decode(b: seq<byte>): Result<Descriptor>
    requires |b| == DESCRIPTOR_BYTES
  {
    var d := FieldsOf(b);
    if !Sound(d) || b[114] > 1 then Err(InvalidScratch) else Ok(d)
  }

  lemma NumbersRead(d: Descriptor)
    requires Fits(d)
    ensures var b := Numbers(d);
            && FromLe(b[..8]) == d.row && FromLe(b[8..16]) == d.start && FromLe(b[16..24]) == d.end
            && FromLe(b[24..32]) == d.keyStart && FromLe(b[32..40]) == d.keyEnd
  {
    hide ToLe, FromLe, U64;
    var r, x, y, z, w := U64(d.row), U64(d.start), U64(d.end), U64(d.keyStart), U64(d.keyEnd);
    var b := Numbers(d);
    SliceOfParts([], r, x + y + z + w);
    assert b == [] + r + (x + y + z + w);
    SliceOfParts(r, x, y + z + w);
    assert b == r + x + (y + z + w);
    SliceOfParts(r + x, y, z + w);
    assert b == r + x + y + (z + w);
    SliceOfParts(r + x + y, z, w);
    SliceOfParts(r + x + y + z, w, []);
    assert b == r + x + y + z + w + [];
    U64RoundTrips(d.row);
    U64RoundTrips(d.start);
    U64RoundTrips(d.end);
    U64RoundTrips(d.keyStart);
    U64RoundTrips(d.keyEnd);
  }

  lemma SummaryReads(d: Descriptor)
    requires Fits(d)
    ensures var b := Summary(d);
            && FromLe(b[..8]) == d.len && FromI128(b[8..24]) == d.magnitude
            && FromLe(b[24..32]) == d.leading && FromLe(b[32..40]) == d.digits
  {
    hide ToLe, FromLe, FromI128, U64, I128;
    var l, m, x, y := U64(d.len), I128(d.magnitude), U64(d.leading), U64(d.digits);
    var b := Summary(d);
    SliceOfParts([], l, m + x + y);
    assert b == [] + l + (m + x + y);
    SliceOfParts(l, m, x + y);
    assert b == l + m + (x + y);
    SliceOfParts(l + m, x, y);
    SliceOfParts(l + m + x, y, []);
    assert b == l + m + x + y + [];
    U64RoundTrips(d.len);
    I128RoundTrips(d.magnitude);
    U64RoundTrips(d.leading);
    U64RoundTrips(d.digits);
  }

  /** The words of a descriptor's two blocks, found in the whole. */
  lemma Words(b: seq<byte>, n: seq<byte>, s: seq<byte>)
    requires |b| == DESCRIPTOR_BYTES && |n| == 40 && |s| == 40 && b[0..40] == n && b[72..112] == s
    ensures b[..8] == n[..8] && b[8..16] == n[8..16] && b[16..24] == n[16..24]
    ensures b[24..32] == n[24..32] && b[32..40] == n[32..40]
    ensures b[72..80] == s[..8] && b[80..96] == s[8..24] && b[96..104] == s[24..32] && b[104..112] == s[32..40]
  {
    SliceOfSlice(b, 0, 40, 0, 8);
    SliceOfSlice(b, 0, 40, 8, 16);
    SliceOfSlice(b, 0, 40, 16, 24);
    SliceOfSlice(b, 0, 40, 24, 32);
    SliceOfSlice(b, 0, 40, 32, 40);
    SliceOfSlice(b, 72, 112, 0, 8);
    SliceOfSlice(b, 72, 112, 8, 24);
    SliceOfSlice(b, 72, 112, 24, 32);
    SliceOfSlice(b, 72, 112, 32, 40);
  }

  /** A descriptor written is read back as it was exactly when it is sound. */
  lemma DescriptorRoundTrips(d: Descriptor)
    requires Fits(d)
    ensures Decode(Encode(d)) == if Sound(d) then Ok(d) else Err(InvalidScratch)
  {
    hide ToLe, FromLe, FromI128, Numbers, Summary;
    var b, n, s := Encode(d), Numbers(d), Summary(d);
    NumbersRead(d);
    SummaryReads(d);
    var tail := [d.group, SignByte(d.sign), if d.quoted then 1 else 0];
    SliceOfParts([], n, d.prefix + s + tail + seq(13, _ => 0));
    assert b == [] + n + (d.prefix + s + tail + seq(13, _ => 0));
    SliceOfParts(n, d.prefix, s + tail + seq(13, _ => 0));
    assert b == n + d.prefix + (s + tail + seq(13, _ => 0));
    SliceOfParts(n + d.prefix, s, tail + seq(13, _ => 0));
    assert b == n + d.prefix + s + (tail + seq(13, _ => 0));
    Words(b, n, s);
  }

  lemma WordIs(b: seq<byte>, i: nat)
    requires i + 8 <= |b|
    ensures FromLe(b[i..i + 8]) <= U64_MAX && U64(FromLe(b[i..i + 8])) == b[i..i + 8]
  {
    Widths();
    BytesRoundTrip(b[i..i + 8]);
  }

  lemma WideIs(s: seq<byte>)
    requires |s| == 16
    ensures -TWO_127 <= FromI128(s) < TWO_127 && I128(FromI128(s)) == s
  {
    Widths();
    BytesRoundTrip(s);
  }

  /** What is believed could have been written: only the unused bytes at the
      end may differ. */
  lemma BelievedIsWritten(b: seq<byte>)
    requires |b| == DESCRIPTOR_BYTES && Decode(b).Ok?
    ensures var d := Decode(b).value;
            Fits(d) && Sound(d) && Encode(d)[..115] == b[..115]
  {
    hide ToLe, FromLe, U64, FromI128;
    var d := Decode(b).value;
    assert b[..8] == b[0..8];
    WordIs(b, 0);
    WordIs(b, 8);
    WordIs(b, 16);
    WordIs(b, 24);
    WordIs(b, 32);
    WordIs(b, 72);
    WordIs(b, 96);
    WordIs(b, 104);
    WideIs(b[80..96]);
    assert Numbers(d) == b[..40];
    assert Summary(d) == b[72..112];
    SameBytes(b, d);
  }

  lemma SameBytes(b: seq<byte>, d: Descriptor)
    requires |b| == DESCRIPTOR_BYTES && Fits(d) && Decode(b) == Ok(d)
    requires Numbers(d) == b[..40] && Summary(d) == b[72..112]
    ensures Encode(d)[..115] == b[..115]
  {
    hide Numbers, Summary, FromLe, FromI128;
    var tail := [d.group, SignByte(d.sign), if d.quoted then 1 else 0];
    assert tail == b[112..115];
    assert b[..115] == b[..40] + b[40..72] + b[72..112] + b[112..115];
  }

  /** A decoded key is no longer than the source. */
  lemma KeyIsShort(f: Format, src: Source, row: nat, span: Span, column: nat)
    requires span.start <= span.end <= |src|
    ensures |FieldSpec.KeyBytes(f, src[span.start..span.end], column)| <= |src|
  {
    hide Located, FieldSpec.KeyBytes, FieldSpec.Unquote;
    LocatedKeyIsField(f, src, row, span, column);
    var d := Located(f, src, row, span, column);
    if d.quoted {
      Projection.UnquoteShortens(QuoteOf(f), src[d.keyStart + 1..d.keyEnd]);
    }
  }

  lemma {:induction false} TwoPartsFit(parts: seq<seq<byte>>, i: nat, j: nat)
    requires i <= j < |parts|
    ensures |parts[j]| <= |Decimal.Flat(parts)|
    ensures i < j ==> |parts[i]| + |parts[j]| <= |Decimal.Flat(parts)|
    decreases j
  {
    if j > 0 {
      assert parts[1..][j - 1] == parts[j];
      TwoPartsFit(parts[1..], if i > 0 then i - 1 else 0, j - 1);
      if i > 0 {
        assert parts[1..][i - 1] == parts[i];
      }
    }
  }

  lemma SummaryFits(k: seq<byte>)
    requires !Number.OutOfRange(k) && |k| <= U64_MAX
    ensures var s := Number.Summarise(k);
            && s.group <= 2 && -1 <= s.sign <= 1 && -TWO_127 <= s.magnitude < TWO_127
            && s.leading <= U64_MAX && s.digits <= U64_MAX
  {
    hide Decimal.Read, Decimal.Flat, DecimalOrder.NatValue;
    if Number.IsNumber(k) {
      var l := Number.LiteralOf(k);
      Decimal.ReadIsSound(k);
      TwoPartsFit(l.Parts(), 2, 4);
      Number.NatValueNonNegative(l.exps);
    }
  }

  /** Every descriptor the sort writes to a run file is read back as it was. */
  lemma StoredDescriptorsReadBack(env: KeyOrder.Env, row: nat, span: Span)
    requires span.start <= span.end <= |env.src| && row <= U64_MAX
    requires env.request.mode == KeyOrder.Numeric ==>
               !Number.OutOfRange(FieldSpec.KeyBytes(env.format, env.src[span.start..span.end], env.request.column))
    ensures var d := KeyOrder.DescriptorOf(env, row, span);
            Fits(d) && Sound(d) && Decode(Encode(d)) == Ok(d)
  {
    hide Encode, Decode, Number.Summarise, Number.OutOfRange, FieldSpec.KeyBytes, FieldSpec.KeySpan;
    hide FieldSpec.StartsQuoted, KeyOrder.PrefixOf;
    var d := KeyOrder.DescriptorOf(env, row, span);
    var k := FieldSpec.KeyBytes(env.format, env.src[span.start..span.end], env.request.column);
    LocatedKeyIsField(env.format, env.src, row, span, env.request.column);
    KeyIsShort(env.format, env.src, row, span, env.request.column);
    if env.request.mode == KeyOrder.Numeric {
      SummaryFits(k);
    }
    DescriptorRoundTrips(d);
  }

  // --------------------------------------------------------------------- files

  /** The bytes of a file after its header. */
  function Image(records: seq<seq<byte>>): seq<byte> {
    if records == [] then [] else Image(records[..|records| - 1]) + records[|records| - 1]
  }

  /** Record `i` of a file of equal records lies at `i` times their size. */
  lemma {:induction false} RecordAt(records: seq<seq<byte>>, size: nat, i: nat)
    requires forall k :: 0 <= k < |records| ==> |records[k]| == size
    requires i < |records|
    ensures |Image(records)| == |records| * size
    ensures i * size + size <= |Image(records)| && Image(records)[i * size..i * size + size] == records[i]
    decreases |records|
  {
    var n := |records| - 1;
    var before := Image(records[..n]);
    ImageLength(records[..n], size);
    assert (n + 1) * size == n * size + size;
    if i < n {
      RecordAt(records[..n], size, i);
      assert Image(records)[i * size..i * size + size] == before[i * size..i * size + size];
    }
  }

  lemma {:induction false} ImageLength(records: seq<seq<byte>>, size: nat)
    requires forall k :: 0 <= k < |records| ==> |records[k]| == size
    ensures |Image(records)| == |records| * size
    decreases |records|
  {
    if records != [] {
      var n := |records| - 1;
      ImageLength(records[..n], size);
      assert (n + 1) * size == n * size + size;
    }
  }
}
