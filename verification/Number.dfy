/** The number recogniser: one pass over a key that keeps only counts and
    flags, proved against the literal grammar. */
module Number {
  import opened Prelude
  import opened Decimal
  import opened DecimalOrder

  /** What numeric sorting knows about a key. Group 0 is a number, 1 is text
      and 2 is blank. */
  datatype Summary = Summary(group: nat, sign: int, magnitude: int, leading: nat, digits: nat)

  predicate IsNumber(k: seq<byte>) {
    Read(k).Some? && Accepts(Read(k).value)
  }

  function LiteralOf(k: seq<byte>): Literal
    requires IsNumber(k)
  {
    Read(k).value.lit
  }

  function GroupOf(k: seq<byte>): nat {
    if IsNumber(k) then 0 else if AllSpace(k) then 2 else 1
  }

  function Summarise(k: seq<byte>): Summary {
    if IsNumber(k) then
      var l := LiteralOf(k);
      Summary(0, SignOf(l), MagnitudeOf(l), LeadingOf(l), |AllDigitsOf(l)|)
    else Summary(GroupOf(k), 0, 0, 0, 0)
  }

  /** The one numeric key that cannot be sorted: its exponent does not fit in
      64 signed bits. */
  predicate OutOfRange(k: seq<byte>) {
    IsNumber(k) && NatValue(LiteralOf(k).exps) > I64_MAX
  }

  /** Which bytes are blank, and which may begin a number, end one, stand in its
      midst, or follow its mark. */
  lemma BytesOfNumbers(b: byte)
    ensures AllSpace([b]) <==> b == 9 || b == 10 || b == 12 || b == 13 || b == 32
    ensures IsNumber([b]) <==> 48 <= b <= 57
    ensures IsNumber([b, 49]) <==> IsNumber([b]) || AllSpace([b]) || b == 43 || b == 45 || b == 46
    ensures IsNumber([49, b]) <==> IsNumber([b]) || AllSpace([b]) || b == 46
    ensures IsNumber([49, b, 49]) <==> IsNumber([b]) || b == 46 || b == 69 || b == 101
    ensures IsNumber([49, 101, b, 49]) <==> IsNumber([b]) || b == 43 || b == 45
  {
    hide IsNumber;
    BlankByte(b);
    OneByte(b);
    TwoBytes(b, 49);
    TwoBytes(49, b);
    ThreeBytes(49, b, 49);
    FourBytes(49, 101, b, 49);
  }

  lemma BlankByte(b: byte)
    ensures AllSpace([b]) <==> IsSpace(b)
  {
    assert b in [b];
  }

  function ReadOn(r: Option<Reading>, b: byte): Option<Reading> {
    if r.None? then None else ReadByte(r.value, b)
  }

  predicate AcceptsAll(r: Option<Reading>) {
    r.Some? && Accepts(r.value)
  }

  const BEGUN := Some(Reading(Start, NOTHING))

  lemma ReadMore(w: seq<byte>, b: byte)
    ensures Read(w + [b]) == ReadOn(Read(w), b) && Read([]) == BEGUN
  {
    assert (w + [b])[..|w|] == w;
  }

  lemma OneByte(b: byte)
    ensures Read([b]) == ReadOn(BEGUN, b)
    ensures IsNumber([b]) <==> AcceptsAll(ReadOn(BEGUN, b))
  {
    hide ReadByte;
    ReadMore([], b);
    assert [] + [b] == [b];
  }

  lemma TwoBytes(a: byte, b: byte)
    ensures Read([a, b]) == ReadOn(ReadOn(BEGUN, a), b)
    ensures IsNumber([a, b]) <==> AcceptsAll(ReadOn(ReadOn(BEGUN, a), b))
  {
    hide ReadByte;
    OneByte(a);
    ReadMore([a], b);
    assert [a] + [b] == [a, b];
  }

  lemma ThreeBytes(a: byte, b: byte, c: byte)
    ensures Read([a, b, c]) == ReadOn(ReadOn(ReadOn(BEGUN, a), b), c)
    ensures IsNumber([a, b, c]) <==> AcceptsAll(ReadOn(ReadOn(ReadOn(BEGUN, a), b), c))
  {
    hide ReadByte;
    TwoBytes(a, b);
    ReadMore([a, b], c);
    assert [a, b] + [c] == [a, b, c];
  }

  lemma FourBytes(a: byte, b: byte, c: byte, d: byte)
    ensures IsNumber([a, b, c, d]) <==> AcceptsAll(ReadOn(ReadOn(ReadOn(ReadOn(BEGUN, a), b), c), d))
  {
    hide ReadByte;
    ThreeBytes(a, b, c);
    ReadMore([a, b, c], d);
    assert [a, b, c] + [d] == [a, b, c, d];
  }

  function PhaseCode(p: Phase): nat {
    match p
    case Start => 0
    case Signed => 1
    case Ints => 2
    case Fraction => 3
    case Exponent => 4
    case ExpSigned => 5
    case ExpDigits => 6
    case Trailing => 7
  }

  lemma {:induction false} LeadingZerosAppend(ds: seq<byte>, b: byte)
    ensures LeadingZeros(ds + [b]) ==
            if LeadingZeros(ds) < |ds| || b != 48 then LeadingZeros(ds) else |ds| + 1
  {
    if ds == [] {
    } else {
      assert (ds + [b])[1..] == ds[1..] + [b];
      LeadingZerosAppend(ds[1..], b);
    }
  }

  lemma NatValueAppend(ds: seq<byte>, b: byte)
    ensures NatValue(ds + [b]) == 10 * NatValue(ds) + DigitValue(b)
  {
    assert (ds + [b])[..|ds|] == ds;
  }

  lemma {:induction false} NatValueNonNegative(ds: seq<byte>)
    requires AllDigits(ds)
    ensures NatValue(ds) >= 0
  {
    if ds != [] {
      assert ds[|ds| - 1] in ds;
      NatValueNonNegative(ds[..|ds| - 1]);
    }
  }

  /** Blank keys are exactly those the recogniser never left its start on. */
  lemma BlankIsStart(k: seq<byte>)
    ensures (Read(k).Some? && Read(k).value.phase.Start?) <==> AllSpace(k)
  {
    hide ReadByte;
    if Read(k).Some? && Read(k).value.phase.Start? {
      ReadIsSound(k);
      var l := Read(k).value.lit;
      OnlyPre(l);
    }
    if AllSpace(k) {
      var l := NOTHING.(pre := k);
      OnlyPre(l);
      ReadIsComplete(Reading(Start, l));
    }
  }

  lemma OnlyPre(l: Literal)
    requires |l.sign| + |l.ints| + |l.dot| + |l.fracs| + |l.mark| + |l.expSign| + |l.exps| + |l.post| == 0
    ensures l.Text() == l.pre
  {
    FlatOfEmpties(l.Parts()[1..]);
  }

  class Number {
    var state: nat
    var negative: bool
    var expNegative: bool
    var exp: nat
    var expDigits: nat
    var beforeDot: nat
    var digits: nat
    var leading: nat
    var significant: bool
    var invalid: bool
    var expOverflow: bool

    /** The digit counts describe the digits `ds`. */
    ghost predicate CountsDigits(ds: seq<byte>)
      reads this
    {
      digits == |ds| && leading == LeadingZeros(ds) && (significant <==> leading < digits)
    }

    ghost predicate CountsExponent(ds: seq<byte>)
      reads this
    {
      && expDigits == |ds| && exp <= I64_MAX
      && AllDigits(ds)
      && (expOverflow <==> NatValue(ds) > I64_MAX)
      && (!expOverflow ==> exp == NatValue(ds))
    }

    ghost predicate Summarises(r: Reading)
      reads this
    {
      && state == PhaseCode(r.phase)
      && (negative <==> r.lit.sign == [45])
      && (expNegative <==> r.lit.expSign == [45])
      && beforeDot == |r.lit.ints|
      && CountsDigits(AllDigitsOf(r.lit))
      && CountsExponent(r.lit.exps)
    }

    /** The recogniser has read exactly `w`. */
    ghost predicate Valid(w: seq<byte>)
      reads this
    {
      if Read(w).None? then invalid else !invalid && Summarises(Read(w).value)
    }

    constructor ()
      ensures Valid([])
    {
      state := 0;
      negative, expNegative, significant, invalid, expOverflow := false, false, false, false, false;
      exp, expDigits, beforeDot, digits, leading := 0, 0, 0, 0, 0;
    }

    method Digit(b: byte, integer: bool, ghost ds: seq<byte>)
      requires CountsDigits(ds)
      modifies this`digits, this`beforeDot, this`leading, this`significant
      ensures CountsDigits(ds + [b])
      ensures beforeDot == old(beforeDot) + if integer then 1 else 0
    {
      LeadingZerosAppend(ds, b);
      digits := digits + 1;
      if integer {
        beforeDot := beforeDot + 1;
      }
      if !significant && b == 48 {
        leading := leading + 1;
      }
      if b != 48 {
        significant := true;
      }
    }

    method ExponentDigit(b: byte, ghost ds: seq<byte>)
      requires CountsExponent(ds) && IsDigit(b)
      modifies this`exp, this`expOverflow, this`expDigits
      ensures CountsExponent(ds + [b])
    {
      NatValueAppend(ds, b);
      NatValueNonNegative(ds);
      var next := exp * 10 + (b - 48);
      if next <= I64_MAX {
        exp := next;
      } else {
        expOverflow := true;
      }
      expDigits := expDigits + 1;
    }

    method Push(b: byte, ghost w: seq<byte>)
      requires Valid(w)
      modifies this
      ensures Valid(w + [b])
    {
      assert (w + [b])[..|w|] == w;
      if invalid {
        return;
      }
      ReadIsSound(w);
      ghost var l := Read(w).value.lit;
      if IsSpace(b) {
        if state == 1 || state == 4 || state == 5 {
          invalid := true;
        }
        if state != 0 {
          state := 7;
        }
        return;
      }
      if state <= 2 {
        PushInteger(b, Read(w).value);
      } else if state == 3 {
        PushFraction(b, Read(w).value);
      } else {
        PushExponent(b, Read(w).value);
      }
    }

    method PushInteger(b: byte, ghost r: Reading)
      requires !invalid && Summarises(r) && |r.lit.fracs| == 0 && !IsSpace(b) && state <= 2
      modifies this
      ensures if ReadByte(r, b).None? then invalid else !invalid && Summarises(ReadByte(r, b).value)
    {
      hide LeadingZeros, NatValue, AllSpace, AllDigits;
      ghost var l := r.lit;
      if IsDigit(b) {
        assert (l.ints + [b]) + l.fracs == (l.ints + l.fracs) + [b];
        state := 2;
        Digit(b, true, AllDigitsOf(l));
      } else if state == 0 && IsSign(b) {
        negative := b == 45;
        state := 1;
      } else if b == 46 {
        state := 3;
      } else if state > 0 && IsMark(b) && digits > 0 {
        state := 4;
      } else {
        invalid := true;
      }
    }

    method PushFraction(b: byte, ghost r: Reading)
      requires !invalid && Summarises(r) && !IsSpace(b) && state == 3
      modifies this
      ensures if ReadByte(r, b).None? then invalid else !invalid && Summarises(ReadByte(r, b).value)
    {
      hide LeadingZeros, NatValue, AllSpace, AllDigits;
      ghost var l := r.lit;
      if IsDigit(b) {
        assert l.ints + (l.fracs + [b]) == (l.ints + l.fracs) + [b];
        Digit(b, false, AllDigitsOf(l));
      } else if IsMark(b) && digits > 0 {
        state := 4;
      } else {
        invalid := true;
      }
    }

    method PushExponent(b: byte, ghost r: Reading)
      requires !invalid && Summarises(r) && !IsSpace(b) && state >= 4
      modifies this
      ensures if ReadByte(r, b).None? then invalid else !invalid && Summarises(ReadByte(r, b).value)
    {
      hide LeadingZeros, NatValue, AllSpace, AllDigits;
      ghost var l := r.lit;
      if state == 4 && IsSign(b) {
        expNegative := b == 45;
        state := 5;
      } else if state < 7 && IsDigit(b) {
        state := 6;
        ExponentDigit(b, l.exps);
      } else {
        invalid := true;
      }
    }

    /** The summary of the whole key, or the range error. */
    method Finish(ghost k: seq<byte>, len: nat) returns (r: Result<Summary>)
      requires Valid(k) && len == |k|
      ensures r == if OutOfRange(k) then Err(NumericRange) else Ok(Summarise(k))
    {
      BlankIsStart(k);
      if !invalid {
        ReadIsSound(k);
      }
      var group := if len == 0 || (state == 0 && !invalid) then 2 else 1;
      if invalid || digits == 0 || state == 1 || state == 4 || state == 5 || (expDigits == 0 && state == 6) {
        return Ok(Summary(group, 0, 0, 0, 0));
      }
      if expOverflow {
        return Err(NumericRange);
      }
      assert |Significant(LiteralOf(k))| == digits - leading;
      var sign := if !significant then 0 else if negative then -1 else 1;
      var e := exp * (if expNegative then -1 else 1);
      r := Ok(Summary(0, sign, beforeDot - leading + e, leading, digits));
    }
  }
}
