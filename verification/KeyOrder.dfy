/** The order records are sorted in, and the fast path that decides it from a
    descriptor's stored fields alone. */
module KeyOrder {
  import opened Prelude
  import opened Records
  import opened Fields
  import opened Key
  import opened Decimal
  import opened DecimalOrder
  import opened Number

  datatype Mode = Text | Numeric
  datatype Direction = Ascending | Descending
  datatype Request = Request(column: nat, mode: Mode, direction: Direction)

  /** Everything that determines the sorted order. */
  datatype Env = Env(src: Source, format: Format, request: Request)

  // ---------------------------------------------------------- the key order

  function LexCompare(a: seq<byte>, b: seq<byte>): Ordering {
    if a == [] && b == [] then Equal
    else if a == [] then Less
    else if b == [] then Greater
    else CompareInt(a[0], b[0]).Then(LexCompare(a[1..], b[1..]))
  }

  function Directed(req: Request, o: Ordering): Ordering {
    if req.direction == Descending then o.Reverse() else o
  }

  /** Numbers by exact value, before text by bytes, before blank keys. The
      direction reverses values and never the groups. */
  function KeyCompare(req: Request, a: seq<byte>, b: seq<byte>): Ordering {
    if req.mode == Text then Directed(req, LexCompare(a, b))
    else if GroupOf(a) != GroupOf(b) then CompareInt(GroupOf(a), GroupOf(b))
    else if GroupOf(a) == 0 then Directed(req, CompareReal(Value(LiteralOf(a)), Value(LiteralOf(b))))
    else if GroupOf(a) == 1 then Directed(req, LexCompare(a, b))
    else Equal
  }

  function KeyIn(env: Env, d: Descriptor): seq<byte> {
    if PointsAtKey(env.src, d) then KeyOf(env.src, QuoteOf(env.format), d) else []
  }

  /** Keys first, then source rows, which are never reversed. */
  function Order(env: Env, a: Descriptor, b: Descriptor): Ordering {
    KeyCompare(env.request, KeyIn(env, a), KeyIn(env, b)).Then(CompareInt(a.row, b.row))
  }

  // ------------------------------------------------- it is a total order

  lemma {:induction false} LexAntisymmetric(a: seq<byte>, b: seq<byte>)
    ensures LexCompare(b, a) == LexCompare(a, b).Reverse()
  {
    if a != [] && b != [] {
      LexAntisymmetric(a[1..], b[1..]);
    }
  }

  lemma {:induction false} LexTransitive(a: seq<byte>, b: seq<byte>, c: seq<byte>)
    requires LexCompare(a, b) != Greater && LexCompare(b, c) != Greater
    ensures LexCompare(a, c) != Greater
    ensures LexCompare(a, c) == Equal ==> LexCompare(a, b) == LexCompare(b, c) == Equal
  {
    if a != [] && b != [] && c != [] && a[0] == b[0] == c[0] {
      LexTransitive(a[1..], b[1..], c[1..]);
    }
  }

  lemma KeyAntisymmetric(req: Request, a: seq<byte>, b: seq<byte>)
    ensures KeyCompare(req, b, a) == KeyCompare(req, a, b).Reverse()
  {
    hide LexCompare, IsNumber, AllSpace, Value;
    LexAntisymmetric(a, b);
  }

  lemma KeyTransitive(req: Request, a: seq<byte>, b: seq<byte>, c: seq<byte>)
    requires KeyCompare(req, a, b) != Greater && KeyCompare(req, b, c) != Greater
    ensures KeyCompare(req, a, c) != Greater
    ensures KeyCompare(req, a, c) == Equal ==> KeyCompare(req, a, b) == KeyCompare(req, b, c) == Equal
  {
    hide LexCompare, IsNumber, AllSpace, Value;
    LexAntisymmetric(a, b);
    LexAntisymmetric(b, c);
    LexAntisymmetric(a, c);
    if LexCompare(a, b) != Greater && LexCompare(b, c) != Greater {
      LexTransitive(a, b, c);
    }
    if LexCompare(c, b) != Greater && LexCompare(b, a) != Greater {
      LexTransitive(c, b, a);
    }
  }

  lemma OrderAntisymmetric(env: Env, a: Descriptor, b: Descriptor)
    ensures Order(env, b, a) == Order(env, a, b).Reverse()
  {
    hide KeyCompare, KeyIn;
    KeyAntisymmetric(env.request, KeyIn(env, a), KeyIn(env, b));
  }

  lemma OrderTransitive(env: Env, a: Descriptor, b: Descriptor, c: Descriptor)
    requires Order(env, a, b) != Greater && Order(env, b, c) != Greater
    ensures Order(env, a, c) != Greater
  {
    hide KeyCompare, KeyIn;
    KeyTransitive(env.request, KeyIn(env, a), KeyIn(env, b), KeyIn(env, c));
  }

  /** Two records are never tied: only a row is equal to itself. */
  lemma OrderStrict(env: Env, a: Descriptor, b: Descriptor)
    ensures Order(env, a, b) == Equal ==> a.row == b.row
  {}

  // -------------------------------------------------------------- descriptors

  /** The first 32 bytes of a key, padded with zeros. */
  function PrefixOf(k: seq<byte>): (p: seq<byte>)
    ensures |p| == PREFIX
  {
    k[..Min(|k|, PREFIX)] + ZeroPrefix()[Min(|k|, PREFIX)..]
  }

  /** A descriptor's stored fields tell the truth about its key. */
  ghost predicate Describes(env: Env, d: Descriptor) {
    && PointsAtKey(env.src, d)
    && var k := KeyIn(env, d);
    && d.len == |k| && d.prefix == PrefixOf(k)
    && (env.request.mode == Numeric ==>
          Summary(d.group, d.sign, d.magnitude, d.leading, d.digits) == Summarise(k))
  }

  /** The descriptor of one record. */
  function DescriptorOf(env: Env, row: nat, span: Span): Descriptor
    requires span.start <= span.end <= |env.src|
  {
    var d := Located(env.format, env.src, row, span, env.request.column);
    var k := KeyBytes(env.format, env.src[span.start..span.end], env.request.column);
    var d' := d.(len := |k|, prefix := PrefixOf(k));
    if env.request.mode == Text then d'
    else
      var s := Summarise(k);
      d'.(group := s.group, sign := s.sign, magnitude := s.magnitude, leading := s.leading, digits := s.digits)
  }

  lemma DescriptorTellsTruth(env: Env, row: nat, span: Span)
    requires span.start <= span.end <= |env.src|
    ensures var d := DescriptorOf(env, row, span);
            && Describes(env, d) && d.row == row && d.start == span.start && d.end == span.end
            && KeyIn(env, d) == KeyBytes(env.format, env.src[span.start..span.end], env.request.column)
  {
    hide Summarise, KeyBytes, Located, PrefixOf;
    LocatedFields(env.format, env.src, row, span, env.request.column);
    LocatedKeyIsField(env.format, env.src, row, span, env.request.column);
  }

  lemma LocatedFields(f: Format, src: Source, row: nat, span: Span, column: nat)
    requires span.start <= span.end <= |src|
    ensures var d := Located(f, src, row, span, column);
            d.row == row && d.start == span.start && d.end == span.end
  {}

  // ---------------------------------------------------------------- fast path

  /** The digits before an exponent mark. */
  function MantissaDigits(k: seq<byte>): seq<byte> {
    if k == [] || IsMark(k[0]) then []
    else if IsDigit(k[0]) then [k[0]] + MantissaDigits(k[1..])
    else MantissaDigits(k[1..])
  }

  function Skip(s: seq<byte>, n: nat): seq<byte> {
    if n <= |s| then s[n..] else []
  }

  /** Orders two short numbers of one sign and magnitude from their prefixes. */
  function ShortNumberOrder(a: Descriptor, b: Descriptor): Ordering
    requires a.len <= |a.prefix| && b.len <= |b.prefix|
  {
    PaddedCompare(Skip(MantissaDigits(a.prefix[..a.len]), a.leading),
                  Skip(MantissaDigits(b.prefix[..b.len]), b.leading))
  }

  /** Reverses the order of values when descending, never that of rows. */
  function FinishOrder(req: Request, a: Descriptor, b: Descriptor, value: Ordering): Ordering {
    Directed(req, value).Then(CompareInt(a.row, b.row))
  }

  function Decide(a: Descriptor, b: Descriptor, req: Request): Option<Ordering>
    requires |a.prefix| == |b.prefix| == PREFIX
  {
    if req.mode == Numeric && a.group != b.group then Some(CompareInt(a.group, b.group))
    else if req.mode == Numeric && a.group == 2 then Some(CompareInt(a.row, b.row))
    else if req.mode == Numeric && a.group == 0 then
      if a.sign != b.sign then Some(FinishOrder(req, a, b, CompareInt(a.sign, b.sign)))
      else if a.sign == 0 then Some(CompareInt(a.row, b.row))
      else if a.magnitude != b.magnitude then
        var m := CompareInt(a.magnitude, b.magnitude);
        Some(FinishOrder(req, a, b, if a.sign < 0 then m.Reverse() else m))
      else if a.len <= PREFIX && b.len <= PREFIX then
        var v := ShortNumberOrder(a, b);
        Some(FinishOrder(req, a, b, if a.sign < 0 then v.Reverse() else v))
      else None
    else
      var p := LexCompare(a.prefix[..Min(a.len, PREFIX)], b.prefix[..Min(b.len, PREFIX)]);
      if p != Equal then Some(FinishOrder(req, a, b, p))
      else if a.len <= PREFIX && b.len <= PREFIX then Some(CompareInt(a.row, b.row))
      else None
  }

  // ------------------------------------------------- the fast path is exact

  predicate NoMark(s: seq<byte>) {
    forall b :: b in s ==> !IsMark(b)
  }

  lemma {:induction false} MantissaDigitsConcat(a: seq<byte>, b: seq<byte>)
    requires NoMark(a)
    ensures MantissaDigits(a + b) == MantissaDigits(a) + MantissaDigits(b)
  {
    if a == [] {
      assert a + b == b;
    } else {
      assert a[0] in a;
      assert (a + b)[1..] == a[1..] + b;
      MantissaDigitsConcat(a[1..], b);
    }
  }

  lemma {:induction false} MantissaOfDigits(s: seq<byte>)
    requires AllDigits(s)
    ensures MantissaDigits(s) == s && NoMark(s)
  {
    if s != [] {
      assert s[0] in s;
      MantissaOfDigits(s[1..]);
      assert s == [s[0]] + s[1..];
    }
  }

  lemma {:induction false} MantissaOfOther(s: seq<byte>)
    requires forall b :: b in s ==> !IsDigit(b) && !IsMark(b)
    ensures MantissaDigits(s) == [] && NoMark(s)
  {
    if s != [] {
      assert s[0] in s;
      MantissaOfOther(s[1..]);
    }
  }

  /** The digits before the mark of a literal are all its mantissa digits. */
  lemma MantissaOfLiteral(l: Literal)
    requires IsLiteral(l)
    ensures MantissaDigits(l.Text()) == AllDigitsOf(l)
  {
    hide MantissaDigits, NoMark;
    var exponent := l.mark + (l.expSign + (l.exps + l.post));
    FlatParts(l);
    MantissaOfOther(l.pre);
    MantissaDigitsConcat(l.pre, l.sign + (l.ints + (l.dot + (l.fracs + exponent))));
    MantissaOfOther(l.sign);
    MantissaDigitsConcat(l.sign, l.ints + (l.dot + (l.fracs + exponent)));
    MantissaOfDigits(l.ints);
    MantissaDigitsConcat(l.ints, l.dot + (l.fracs + exponent));
    MantissaOfOther(l.dot);
    MantissaDigitsConcat(l.dot, l.fracs + exponent);
    MantissaOfDigits(l.fracs);
    MantissaDigitsConcat(l.fracs, exponent);
    MantissaOfExponent(l);
    assert l.ints + ([] + (l.fracs + [])) == l.ints + l.fracs;
  }

  lemma MantissaOfExponent(l: Literal)
    requires IsLiteral(l)
    ensures MantissaDigits(l.mark + (l.expSign + (l.exps + l.post))) == []
  {
    if l.mark == [] {
      assert l.mark + (l.expSign + (l.exps + l.post)) == l.post;
      MantissaOfOther(l.post);
    }
  }

  lemma FlatParts(l: Literal)
    ensures l.Text() == l.pre + (l.sign + (l.ints + (l.dot + (l.fracs + (l.mark + (l.expSign + (l.exps + l.post)))))))
  {
    var p := l.Parts();
    assert Flat(p[9..]) == [];
    FlatStep(p, 8);
    FlatStep(p, 7);
    FlatStep(p, 6);
    FlatStep(p, 5);
    FlatStep(p, 4);
    FlatStep(p, 3);
    FlatStep(p, 2);
    FlatStep(p, 1);
    FlatStep(p, 0);
    assert p[0..] == p;
    assert l.post + [] == l.post;
  }

  lemma FlatStep(p: seq<seq<byte>>, i: nat)
    requires i < |p|
    ensures Flat(p[i..]) == p[i] + Flat(p[i + 1..])
  {
    assert p[i..][1..] == p[i + 1..];
  }

  /** The significant digits a digit reader yields for a number. */
  lemma SkipIsSignificant(k: seq<byte>)
    requires IsNumber(k)
    ensures Skip(MantissaDigits(k), Summarise(k).leading) == Significant(LiteralOf(k))
  {
    hide MantissaDigits, IsLiteral, LeadingZeros;
    AcceptsExactlyLiterals(k, LiteralOf(k));
    MantissaOfLiteral(LiteralOf(k));
  }

  /** A prefix that differs decides; one that does not says nothing about what
      follows it. */
  lemma {:induction false} LexPrefix(a: seq<byte>, b: seq<byte>, n: nat)
    ensures var p := LexCompare(a[..Min(|a|, n)], b[..Min(|b|, n)]);
            && (p != Equal ==> LexCompare(a, b) == p)
            && (p == Equal && |a| <= n && |b| <= n ==> LexCompare(a, b) == Equal)
    decreases n
  {
    if a != [] && b != [] && n > 0 {
      var pa, pb := a[..Min(|a|, n)], b[..Min(|b|, n)];
      assert pa[1..] == a[1..][..Min(|a[1..]|, n - 1)];
      assert pb[1..] == b[1..][..Min(|b[1..]|, n - 1)];
      LexPrefix(a[1..], b[1..], n - 1);
    }
  }

  lemma StoredPrefix(k: seq<byte>)
    ensures PrefixOf(k)[..Min(|k|, PREFIX)] == k[..Min(|k|, PREFIX)]
    ensures |k| <= PREFIX ==> PrefixOf(k)[..|k|] == k
  {}

  /** What the fast path leaves to decide: digits for numbers, bytes for text. */
  function Residue(env: Env, d: Descriptor): seq<byte> {
    var k := KeyIn(env, d);
    if env.request.mode == Numeric && d.group == 0 then Skip(MantissaDigits(k), d.leading) else k
  }

  function ResidueCompare(req: Request, a: Descriptor, x: seq<byte>, y: seq<byte>): Ordering {
    if req.mode == Numeric && a.group == 0 then
      var v := PaddedCompare(x, y);
      if a.sign < 0 then v.Reverse() else v
    else LexCompare(x, y)
  }

  lemma NumbersByExactValue(env: Env, a: Descriptor, b: Descriptor)
    requires Describes(env, a) && Describes(env, b) && env.request.mode == Numeric && a.group == b.group == 0
    ensures IsNumber(KeyIn(env, a)) && IsNumber(KeyIn(env, b))
    ensures Order(env, a, b) ==
            FinishOrder(env.request, a, b, SummaryCompare(LiteralOf(KeyIn(env, a)), LiteralOf(KeyIn(env, b))))
  {
    hide AllSpace, SummaryCompare, Value, Read, PrefixOf, KeyIn;
    var ka, kb := KeyIn(env, a), KeyIn(env, b);
    AcceptsExactlyLiterals(ka, LiteralOf(ka));
    AcceptsExactlyLiterals(kb, LiteralOf(kb));
    SummaryCompareIsExact(LiteralOf(ka), LiteralOf(kb));
  }

  lemma DecideNumbers(env: Env, a: Descriptor, b: Descriptor)
    requires Describes(env, a) && Describes(env, b) && env.request.mode == Numeric && a.group == b.group == 0
    ensures var fast := Decide(a, b, env.request);
            var slow := FinishOrder(env.request, a, b,
              ResidueCompare(env.request, a, Residue(env, a), Residue(env, b)));
            && (fast.Some? ==> fast.value == Order(env, a, b))
            && (fast.None? ==> slow == Order(env, a, b))
  {
    hide Order, PaddedCompare, MantissaDigits, IsNumber, Value, AllSpace, PrefixOf, Significant, MagnitudeOf, KeyIn;
    var ka, kb := KeyIn(env, a), KeyIn(env, b);
    NumbersByExactValue(env, a, b);
    SkipIsSignificant(ka);
    SkipIsSignificant(kb);
    StoredPrefix(ka);
    StoredPrefix(kb);
  }

  lemma DecideBytes(env: Env, a: Descriptor, b: Descriptor)
    requires Describes(env, a) && Describes(env, b)
    requires env.request.mode == Numeric ==> a.group == b.group == 1
    ensures var fast := Decide(a, b, env.request);
            var slow := FinishOrder(env.request, a, b,
              ResidueCompare(env.request, a, Residue(env, a), Residue(env, b)));
            && (fast.Some? ==> fast.value == Order(env, a, b))
            && (fast.None? ==> slow == Order(env, a, b))
  {
    hide LexCompare, IsNumber, AllSpace, PrefixOf, KeyIn;
    var ka, kb := KeyIn(env, a), KeyIn(env, b);
    StoredPrefix(ka);
    StoredPrefix(kb);
    LexPrefix(ka, kb, PREFIX);
  }

  /** The fast path agrees with the key order whenever it answers, and when it
      does not the residues settle it. */
  lemma DecideIsExact(env: Env, a: Descriptor, b: Descriptor)
    requires Describes(env, a) && Describes(env, b)
    ensures |a.prefix| == |b.prefix| == PREFIX
    ensures var fast := Decide(a, b, env.request);
            var slow := FinishOrder(env.request, a, b,
              ResidueCompare(env.request, a, Residue(env, a), Residue(env, b)));
            && (fast.Some? ==> fast.value == Order(env, a, b))
            && (fast.None? ==> slow == Order(env, a, b) && (env.request.mode == Numeric ==> a.group == b.group))
  {
    hide LexCompare, PaddedCompare, MantissaDigits, IsNumber, Value, AllSpace, PrefixOf, KeyIn;
    if env.request.mode == Numeric && a.group == b.group == 0 {
      DecideNumbers(env, a, b);
    } else if env.request.mode == Numeric && (a.group != b.group || a.group == 2) {
    } else {
      DecideBytes(env, a, b);
    }
  }
}
