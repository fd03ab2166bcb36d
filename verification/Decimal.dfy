/** Decimal literals: their grammar, their exact value, and the order numeric
    sorting gives them. */
module Decimal {
  import opened Prelude

  predicate IsSpace(b: byte) {
    b == 32 || b == 9 || b == 10 || b == 12 || b == 13
  }

  predicate IsDigit(b: byte) {
    48 <= b <= 57
  }

  predicate IsSign(b: byte) {
    b == 43 || b == 45
  }

  predicate IsMark(b: byte) {
    b == 101 || b == 69
  }

  predicate AllSpace(s: seq<byte>) {
    forall b :: b in s ==> IsSpace(b)
  }

  predicate AllDigits(s: seq<byte>) {
    forall b :: b in s ==> IsDigit(b)
  }

  // ----------------------------------------------------------------- grammar

  /** The parts of a literal, in the order they are written. */
  datatype Literal = Literal(
    pre: seq<byte>, sign: seq<byte>, ints: seq<byte>, dot: seq<byte>, fracs: seq<byte>,
    mark: seq<byte>, expSign: seq<byte>, exps: seq<byte>, post: seq<byte>)
  {
    function Parts(): (r: seq<seq<byte>>)
      ensures |r| == 9
    {
      [pre, sign, ints, dot, fracs, mark, expSign, exps, post]
    }

    function Text(): seq<byte> {
      Flat(Parts())
    }
  }

  function Flat(parts: seq<seq<byte>>): seq<byte> {
    if parts == [] then [] else parts[0] + Flat(parts[1..])
  }

  predicate OptionalSign(s: seq<byte>) {
    |s| == 0 || (|s| == 1 && IsSign(s[0]))
  }

  predicate OptionalMark(s: seq<byte>) {
    |s| == 0 || (|s| == 1 && IsMark(s[0]))
  }

  predicate Mantissa(l: Literal) {
    && AllSpace(l.pre) && OptionalSign(l.sign) && AllDigits(l.ints)
    && (|l.dot| == 0 || (|l.dot| == 1 && l.dot[0] == 46)) && AllDigits(l.fracs)
    && (|l.dot| == 0 ==> |l.fracs| == 0)
  }

  /** A number: spaces, a sign, digits with at most one point and at least one
      digit, an exponent with at least one digit, spaces. */
  predicate IsLiteral(l: Literal) {
    && Mantissa(l) && |l.ints| + |l.fracs| > 0
    && OptionalMark(l.mark) && OptionalSign(l.expSign) && AllDigits(l.exps)
    && (|l.mark| == 0 ==> |l.expSign| + |l.exps| == 0)
    && (|l.mark| > 0 ==> |l.exps| > 0)
    && AllSpace(l.post)
  }

  datatype Phase = Start | Signed | Ints | Fraction | Exponent | ExpSigned | ExpDigits | Trailing

  /** A literal read so far. */
  datatype Reading = Reading(phase: Phase, lit: Literal)

  const NOTHING := Literal([], [], [], [], [], [], [], [], [])

  function HasDigits(l: Literal): bool {
    |l.ints| + |l.fracs| > 0
  }

  /** Reads one more byte, or rejects it. */
  function ReadByte(r: Reading, b: byte): Option<Reading> {
    var l := r.lit;
    if IsSpace(b) then
      match r.phase
      case Start => Some(r.(lit := l.(pre := l.pre + [b])))
      case Signed | Exponent | ExpSigned => None
      case _ => Some(Reading(Trailing, l.(post := l.post + [b])))
    else
      match r.phase
      case Start =>
        if IsSign(b) then Some(Reading(Signed, l.(sign := [b])))
        else if b == 46 then Some(Reading(Fraction, l.(dot := [b])))
        else if IsDigit(b) then Some(Reading(Ints, l.(ints := l.ints + [b])))
        else None
      case Signed | Ints =>
        if IsDigit(b) then Some(Reading(Ints, l.(ints := l.ints + [b])))
        else if b == 46 then Some(Reading(Fraction, l.(dot := [b])))
        else if IsMark(b) && HasDigits(l) then Some(Reading(Exponent, l.(mark := [b])))
        else None
      case Fraction =>
        if IsDigit(b) then Some(Reading(Fraction, l.(fracs := l.fracs + [b])))
        else if IsMark(b) && HasDigits(l) then Some(Reading(Exponent, l.(mark := [b])))
        else None
      case Exponent =>
        if IsSign(b) then Some(Reading(ExpSigned, l.(expSign := [b])))
        else if IsDigit(b) then Some(Reading(ExpDigits, l.(exps := l.exps + [b])))
        else None
      case ExpSigned | ExpDigits =>
        if IsDigit(b) then Some(Reading(ExpDigits, l.(exps := l.exps + [b])))
        else None
      case Trailing => None
  }

  function Read(w: seq<byte>): Option<Reading> {
    if w == [] then Some(Reading(Start, NOTHING))
    else
      match Read(w[..|w| - 1])
      case None => None
      case Some(r) => ReadByte(r, w[|w| - 1])
  }

  predicate Accepts(r: Reading) {
    HasDigits(r.lit) && (r.phase.Ints? || r.phase.Fraction? || r.phase.ExpDigits? || r.phase.Trailing?)
  }

  /** Which parts may be present in each phase. */
  predicate Shape(r: Reading) {
    var l := r.lit;
    && Mantissa(l)
    && OptionalMark(l.mark) && OptionalSign(l.expSign) && AllDigits(l.exps) && AllSpace(l.post)
    && (|l.mark| > 0 ==> HasDigits(l))
    && (|l.expSign| + |l.exps| > 0 ==> |l.mark| > 0)
    && match r.phase
       case Start => |l.sign| + |l.ints| + |l.dot| + |l.mark| + |l.post| == 0
       case Signed => |l.sign| > 0 && |l.ints| + |l.dot| + |l.mark| + |l.post| == 0
       case Ints => |l.ints| > 0 && |l.dot| + |l.mark| + |l.post| == 0
       case Fraction => |l.dot| > 0 && |l.mark| + |l.post| == 0
       case Exponent => |l.mark| > 0 && |l.expSign| + |l.exps| + |l.post| == 0
       case ExpSigned => |l.expSign| > 0 && |l.exps| + |l.post| == 0
       case ExpDigits => |l.exps| > 0 && |l.post| == 0
       case Trailing =>
         && |l.post| > 0
         && |l.ints| + |l.dot| > 0
         && (|l.mark| > 0 ==> |l.exps| > 0)
  }

  lemma ShapeStep(r: Reading, b: byte)
    requires Shape(r) && ReadByte(r, b).Some?
    ensures Shape(ReadByte(r, b).value)
  {}

  lemma {:induction false} FlatOfEmpties(parts: seq<seq<byte>>)
    requires forall i :: 0 <= i < |parts| ==> parts[i] == []
    ensures Flat(parts) == []
  {
    if parts != [] {
      FlatOfEmpties(parts[1..]);
    }
  }

  /** A byte added to the last part present is added to the text. */
  lemma {:induction false} FlatAppend(parts: seq<seq<byte>>, k: nat, b: byte)
    requires k < |parts| && forall j :: k < j < |parts| ==> parts[j] == []
    ensures Flat(parts[k := parts[k] + [b]]) == Flat(parts) + [b]
  {
    var after := parts[k := parts[k] + [b]];
    if k == 0 {
      FlatOfEmpties(parts[1..]);
      assert after[1..] == parts[1..];
    } else {
      FlatAppend(parts[1..], k - 1, b);
      assert after[1..] == parts[1..][k - 1 := parts[k] + [b]];
    }
  }

  /** The part the byte that led to `r` was added to. */
  function LastPart(r: Reading): nat {
    match r.phase
    case Start => 0
    case Signed => 1
    case Ints => 2
    case Fraction => if |r.lit.fracs| == 0 then 3 else 4
    case Exponent => 5
    case ExpSigned => 6
    case ExpDigits => 7
    case Trailing => 8
  }

  lemma TextStep(r: Reading, b: byte)
    requires Shape(r) && ReadByte(r, b).Some?
    ensures ReadByte(r, b).value.lit.Text() == r.lit.Text() + [b]
  {
    hide Flat, AllDigits, AllSpace;
    var r' := ReadByte(r, b).value;
    var k := LastPart(r');
    assert r.lit.Parts()[k] + [b] == r'.lit.Parts()[k];
    assert r'.lit.Parts() == r.lit.Parts()[k := r.lit.Parts()[k] + [b]];
    FlatAppend(r.lit.Parts(), k, b);
  }

  /** Whatever is read is written that way. */
  lemma {:induction false} ReadIsSound(w: seq<byte>)
    requires Read(w).Some?
    ensures Shape(Read(w).value) && Read(w).value.lit.Text() == w
  {
    hide Shape, ReadByte;
    if w == [] {
      EmptyShape();
    } else {
      var r := Read(w[..|w| - 1]).value;
      ReadIsSound(w[..|w| - 1]);
      ShapeStep(r, w[|w| - 1]);
      TextStep(r, w[|w| - 1]);
    }
  }

  lemma EmptyShape()
    ensures Shape(Reading(Start, NOTHING)) && NOTHING.Text() == []
  {
    FlatOfEmpties(NOTHING.Parts());
  }

  function AllButLast(s: seq<byte>): seq<byte>
    requires |s| > 0
  {
    s[..|s| - 1]
  }

  function Last(s: seq<byte>): byte
    requires |s| > 0
  {
    s[|s| - 1]
  }

  /** The phase of a reading whose last part present is no later than digits. */
  function PhaseOf(l: Literal): Phase {
    if |l.exps| > 0 then ExpDigits
    else if |l.expSign| > 0 then ExpSigned
    else if |l.mark| > 0 then Exponent
    else if |l.dot| > 0 then Fraction
    else if |l.ints| > 0 then Ints
    else if |l.sign| > 0 then Signed
    else Start
  }

  /** The reading one byte earlier. */
  function Previous(r: Reading): Reading
    requires Shape(r) && (r.phase.Start? ==> |r.lit.pre| > 0)
  {
    var l := r.lit;
    match r.phase
    case Start => r.(lit := l.(pre := AllButLast(l.pre)))
    case Signed => Before(l.(sign := []))
    case Ints => Before(l.(ints := AllButLast(l.ints)))
    case Fraction => if |l.fracs| > 0 then r.(lit := l.(fracs := AllButLast(l.fracs))) else Before(l.(dot := []))
    case Exponent => Before(l.(mark := []))
    case ExpSigned => Before(l.(expSign := []))
    case ExpDigits => Before(l.(exps := AllButLast(l.exps)))
    case Trailing =>
      if |l.post| > 1 then r.(lit := l.(post := AllButLast(l.post))) else Before(l.(post := []))
  }

  function Before(l: Literal): Reading {
    Reading(PhaseOf(l), l)
  }

  lemma AllButLastDigits(s: seq<byte>)
    requires |s| > 0
    ensures s == AllButLast(s) + [s[|s| - 1]]
    ensures AllDigits(s) ==> AllDigits(AllButLast(s)) && IsDigit(s[|s| - 1])
    ensures AllSpace(s) ==> AllSpace(AllButLast(s)) && IsSpace(s[|s| - 1])
  {
    assert s[|s| - 1] in s;
  }

  lemma TrailingLonger(r: Reading)
    requires Shape(r) && r.phase.Trailing? && |r.lit.post| > 1
    ensures Shape(Previous(r))
  {
    hide AllDigits, AllSpace;
    AllButLastDigits(r.lit.post);
  }

  lemma TrailingFirst(r: Reading)
    requires Shape(r) && r.phase.Trailing? && |r.lit.post| == 1
    ensures Shape(Previous(r))
  {
    hide AllDigits;
  }

  lemma PreviousShape(r: Reading)
    requires Shape(r) && (r.phase.Start? ==> |r.lit.pre| > 0)
    ensures Shape(Previous(r))
  {
    hide AllDigits, AllSpace;
    var l := r.lit;
    match r.phase
    case Start => AllButLastDigits(l.pre);
    case Signed =>
    case Ints => AllButLastDigits(l.ints);
    case Fraction =>
      if |l.fracs| > 0 {
        AllButLastDigits(l.fracs);
      }
    case Exponent =>
    case ExpSigned =>
    case ExpDigits => AllButLastDigits(l.exps);
    case Trailing =>
      if |l.post| > 1 { TrailingLonger(r); } else { TrailingFirst(r); }
  }

  lemma TrailingReads(r: Reading)
    requires Shape(r) && r.phase.Trailing?
    ensures ReadByte(Previous(r), Last(r.lit.post)) == Some(r)
  {
    hide AllDigits;
    var b := Last(r.lit.post);
    assert b in r.lit.post;
    if |r.lit.post| > 1 {
      assert r.lit.post == AllButLast(r.lit.post) + [b];
    } else {
      assert r.lit.post == [] + [b];
      assert !Previous(r).phase.Signed? && !Previous(r).phase.Exponent? && !Previous(r).phase.ExpSigned?;
    }
  }

  lemma MantissaReads(r: Reading) returns (b: byte)
    requires Shape(r) && (r.phase.Start? ==> |r.lit.pre| > 0)
    requires r.phase.Start? || r.phase.Signed? || r.phase.Ints? || r.phase.Fraction?
    ensures ReadByte(Previous(r), b) == Some(r)
  {
    hide AllDigits, AllSpace;
    var l := r.lit;
    if r.phase.Start? {
      AllButLastDigits(l.pre);
      b := Last(l.pre);
    } else if r.phase.Signed? {
      b := Last(l.sign);
      assert l.sign == [b];
    } else if r.phase.Ints? {
      AllButLastDigits(l.ints);
      b := Last(l.ints);
    } else if |l.fracs| > 0 {
      AllButLastDigits(l.fracs);
      b := Last(l.fracs);
    } else {
      b := Last(l.dot);
      assert l.dot == [b];
    }
  }

  lemma MarkReads(r: Reading)
    requires Shape(r) && r.phase.Exponent?
    ensures ReadByte(Previous(r), Last(r.lit.mark)) == Some(r)
  {
    hide AllDigits, AllSpace;
    assert r.lit.mark == [Last(r.lit.mark)];
  }

  lemma ExpSignReads(r: Reading)
    requires Shape(r) && r.phase.ExpSigned?
    ensures ReadByte(Previous(r), Last(r.lit.expSign)) == Some(r)
  {
    hide AllDigits, AllSpace;
    assert r.lit.expSign == [Last(r.lit.expSign)];
  }

  lemma ExpDigitReads(r: Reading)
    requires Shape(r) && r.phase.ExpDigits?
    ensures ReadByte(Previous(r), Last(r.lit.exps)) == Some(r)
  {
    hide AllDigits, AllSpace;
    AllButLastDigits(r.lit.exps);
  }

  lemma PreviousReads(r: Reading) returns (b: byte)
    requires Shape(r) && (r.phase.Start? ==> |r.lit.pre| > 0)
    ensures ReadByte(Previous(r), b) == Some(r)
  {
    hide ReadByte;
    if r.phase.Trailing? {
      b := Last(r.lit.post);
      TrailingReads(r);
    } else if r.phase.Exponent? {
      b := Last(r.lit.mark);
      MarkReads(r);
    } else if r.phase.ExpSigned? {
      b := Last(r.lit.expSign);
      ExpSignReads(r);
    } else if r.phase.ExpDigits? {
      b := Last(r.lit.exps);
      ExpDigitReads(r);
    } else {
      b := MantissaReads(r);
    }
  }

  /** Whatever can be written is read back as it was written: the reader is
      the grammar's only parser. */
  lemma {:induction false} ReadIsComplete(r: Reading)
    requires Shape(r)
    ensures Read(r.lit.Text()) == Some(r)
    decreases |r.lit.Text()|
  {
    hide ReadByte, Flat;
    if r.phase.Start? && |r.lit.pre| == 0 {
      assert r.lit == NOTHING;
      EmptyShape();
    } else {
      PreviousShape(r);
      var b := PreviousReads(r);
      TextStep(Previous(r), b);
      ReadIsComplete(Previous(r));
      var w := r.lit.Text();
      assert w[..|w| - 1] == Previous(r).lit.Text();
    }
  }

  /** The reader accepts a key exactly when the key is a literal, and then it
      has found that literal. */
  lemma AcceptsExactlyLiterals(w: seq<byte>, l: Literal)
    ensures (Read(w).Some? && Accepts(Read(w).value) && Read(w).value.lit == l)
       <==> (IsLiteral(l) && l.Text() == w)
  {
    hide Flat, ReadByte;
    if Read(w).Some? && Accepts(Read(w).value) && Read(w).value.lit == l {
      ReadIsSound(w);
    }
    if IsLiteral(l) && l.Text() == w {
      var r := Reading(if |l.post| > 0 then Trailing else PhaseOf(l), l);
      ReadIsComplete(r);
    }
  }
}
