/** The exact value of a decimal literal, and the proof that sorting by sign,
    magnitude and significant digits sorts by exact value. */
module DecimalOrder {
  import opened Prelude
  import opened Decimal

  function DigitValue(b: byte): int {
    b - 48
  }

  /** The natural number written by a sequence of digits. */
  function NatValue(ds: seq<byte>): int {
    if ds == [] then 0 else 10 * NatValue(ds[..|ds| - 1]) + DigitValue(ds[|ds| - 1])
  }

  /** The fraction 0.d1d2d3... */
  function Frac(ds: seq<byte>): real {
    if ds == [] then 0.0 else (DigitValue(ds[0]) as real + Frac(ds[1..])) / 10.0
  }

  function Pow10(e: int): real
    decreases if e < 0 then -e else e
  {
    if e == 0 then 1.0 else if e > 0 then 10.0 * Pow10(e - 1) else Pow10(e + 1) / 10.0
  }

  function ExponentOf(l: Literal): int {
    if l.expSign == [45] then -NatValue(l.exps) else NatValue(l.exps)
  }

  /** What the literal stands for, as anyone would read it: the integer part
      plus the fraction, scaled by the power of ten, with the sign. */
  function Value(l: Literal): real {
    var unsigned := (NatValue(l.ints) as real + Frac(l.fracs)) * Pow10(ExponentOf(l));
    if l.sign == [45] then -unsigned else unsigned
  }

  function CompareReal(x: real, y: real): Ordering {
    if x < y then Less else if x == y then Equal else Greater
  }

  // ------------------------------------------------------ the stored summary

  function LeadingZeros(ds: seq<byte>): (n: nat)
    ensures n <= |ds|
    ensures forall i :: 0 <= i < n ==> ds[i] == 48
    ensures n < |ds| ==> ds[n] != 48
  {
    if ds == [] || ds[0] != 48 then 0 else 1 + LeadingZeros(ds[1..])
  }

  function AllDigitsOf(l: Literal): seq<byte> {
    l.ints + l.fracs
  }

  function LeadingOf(l: Literal): nat {
    LeadingZeros(AllDigitsOf(l))
  }

  /** The digits from the first non-zero one on. */
  function Significant(l: Literal): seq<byte> {
    AllDigitsOf(l)[LeadingOf(l)..]
  }

  function MagnitudeOf(l: Literal): int {
    |l.ints| - LeadingOf(l) + ExponentOf(l)
  }

  function SignOf(l: Literal): int {
    if Significant(l) == [] then 0 else if l.sign == [45] then -1 else 1
  }

  /** Digit by digit, the shorter sequence continued with zeros. */
  function PaddedCompare(a: seq<byte>, b: seq<byte>): Ordering
    decreases |a| + |b|
  {
    if a == [] && b == [] then Equal
    else
      var x := if a == [] then 48 else a[0];
      var y := if b == [] then 48 else b[0];
      if x != y then CompareInt(x, y)
      else PaddedCompare(if a == [] then [] else a[1..], if b == [] then [] else b[1..])
  }

  /** The order of two numbers by their summaries. */
  function SummaryCompare(a: Literal, b: Literal): Ordering {
    if SignOf(a) != SignOf(b) then CompareInt(SignOf(a), SignOf(b))
    else if SignOf(a) == 0 then Equal
    else
      var m := if MagnitudeOf(a) != MagnitudeOf(b)
               then CompareInt(MagnitudeOf(a), MagnitudeOf(b))
               else PaddedCompare(Significant(a), Significant(b));
      if SignOf(a) < 0 then m.Reverse() else m
  }

  /** 0.d1d2d3... x 10^m */
  function Scaled(ds: seq<byte>, m: int): real {
    Frac(ds) * Pow10(m)
  }

  // ------------------------------------------------------------- real numbers

  lemma {:induction false} Pow10Positive(e: int)
    ensures Pow10(e) > 0.0
    decreases if e < 0 then -e else e
  {
    if e > 0 {
      Pow10Positive(e - 1);
    } else if e < 0 {
      Pow10Positive(e + 1);
    }
  }

  lemma {:induction false} Pow10Next(e: int)
    ensures Pow10(e + 1) == 10.0 * Pow10(e)
    decreases if e < 0 then -e else e
  {}

  lemma {:induction false} Pow10Add(e: int, n: nat)
    ensures Pow10(e + n) == Pow10(e) * Pow10(n)
    decreases n
  {
    if n > 0 {
      Pow10Add(e, n - 1);
      Pow10Next(e + n - 1);
    }
  }

  lemma {:induction false} Pow10Mono(d: int, e: int)
    requires d <= e
    ensures Pow10(d) <= Pow10(e)
    decreases e - d
  {
    if d < e {
      Pow10Mono(d, e - 1);
      Pow10Next(e - 1);
      Pow10Positive(e - 1);
    }
  }

  lemma {:induction false} FracRange(ds: seq<byte>)
    requires AllDigits(ds)
    ensures 0.0 <= Frac(ds) < 1.0
    ensures ds != [] && ds[0] != 48 ==> Frac(ds) >= 0.1
  {
    if ds != [] {
      assert ds[0] in ds;
      FracRange(ds[1..]);
    }
  }

  lemma ShiftDigit(d: byte, ds: seq<byte>)
    ensures 10.0 * Frac([d] + ds) == DigitValue(d) as real + Frac(ds)
  {
    assert ([d] + ds)[1..] == ds;
  }

  lemma TimesTen(f: real, p: real)
    ensures 10.0 * (f * p) == f * (10.0 * p)
  {}

  /** 0.<integer digits><fraction digits> scaled up by the integer digits. */
  lemma {:induction false} WholePlusFrac(ints: seq<byte>, fracs: seq<byte>)
    ensures NatValue(ints) as real + Frac(fracs) == Frac(ints + fracs) * Pow10(|ints|)
    decreases |ints|
  {
    hide Frac;
    if ints == [] {
      assert ints + fracs == fracs;
    } else {
      var n := |ints| - 1;
      var d := ints[n];
      WholePlusFrac(ints[..n], [d] + fracs);
      assert ints[..n] + ([d] + fracs) == ints + fracs;
      ShiftDigit(d, fracs);
      Pow10Next(n);
      TimesTen(Frac(ints + fracs), Pow10(n));
    }
  }

  lemma {:induction false} DropZeros(ds: seq<byte>, z: nat)
    requires z <= |ds| && forall i :: 0 <= i < z ==> ds[i] == 48
    ensures Frac(ds) * Pow10(z) == Frac(ds[z..])
    decreases z
  {
    if z == 0 {
      assert ds[0..] == ds;
    } else {
      DropZeros(ds[1..], z - 1);
      assert ds[1..][z - 1..] == ds[z..];
      assert Frac(ds) == Frac(ds[1..]) / 10.0;
      Pow10Next(z - 1);
    }
  }

  /** value = 0.d1d2d3... x 10^magnitude, with d1 not zero unless the value is. */
  lemma NormalForm(l: Literal)
    requires AllDigits(l.ints) && AllDigits(l.fracs)
    ensures var v := Scaled(Significant(l), MagnitudeOf(l));
            Value(l) == if l.sign == [45] then -v else v
    ensures AllDigits(Significant(l))
    ensures Significant(l) != [] ==> Significant(l)[0] != 48
  {
    hide Frac, Pow10, NatValue, ExponentOf, LeadingZeros;
    var all, z, e, m := AllDigitsOf(l), LeadingOf(l), ExponentOf(l), MagnitudeOf(l);
    WholePlusFrac(l.ints, l.fracs);
    DropZeros(all, z);
    assert m + z == e + |l.ints|;
    Pow10Add(m, z);
    Pow10Add(e, |l.ints|);
    Regroup(Frac(all), Pow10(|l.ints|), Pow10(e), Pow10(m), Pow10(z));
  }

  lemma Regroup(f: real, i: real, e: real, m: real, z: real)
    requires e * i == m * z
    ensures (f * i) * e == (f * z) * m
  {
    assert (f * i) * e == f * (e * i);
    assert (f * z) * m == f * (m * z);
  }

  lemma {:induction false} PaddedCompareIsExact(a: seq<byte>, b: seq<byte>)
    requires AllDigits(a) && AllDigits(b)
    ensures PaddedCompare(a, b) == CompareReal(Frac(a), Frac(b))
    decreases |a| + |b|
  {
    if a != [] || b != [] {
      var a', b' := if a == [] then [] else a[1..], if b == [] then [] else b[1..];
      var x := if a == [] then 48 else a[0];
      var y := if b == [] then 48 else b[0];
      assert IsDigit(x) && IsDigit(y);
      FracRange(a');
      FracRange(b');
      PaddedCompareIsExact(a', b');
      assert Frac(a) == ((x - 48) as real + Frac(a')) / 10.0;
      assert Frac(b) == ((y - 48) as real + Frac(b')) / 10.0;
    }
  }

  /** A larger magnitude outweighs any digits. */
  lemma MagnitudeDominates(s: seq<byte>, m: int, t: seq<byte>, n: int)
    requires AllDigits(s) && AllDigits(t) && t != [] && t[0] != 48
    requires m < n
    ensures Scaled(s, m) < Scaled(t, n)
  {
    hide Frac, Pow10;
    FracRange(s);
    FracRange(t);
    Pow10Positive(m);
    Pow10Mono(m, n - 1);
    Pow10Next(n - 1);
    ScaleBelow(Frac(s), Pow10(m), Frac(t), Pow10(n - 1));
  }

  lemma ScaleBelow(f: real, p: real, g: real, q: real)
    requires 0.0 <= f < 1.0 && 0.0 < p <= q && g >= 0.1
    ensures f * p < g * (10.0 * q)
  {
    var x, h := f * p, g * 10.0;
    var y := h * q;
    assert (1.0 - f) * p > 0.0;
    assert x < p;
    assert (h - 1.0) * q >= 0.0;
    assert y >= q;
    assert y == g * (10.0 * q);
  }

  lemma ScaleOrder(f: real, g: real, p: real)
    requires p > 0.0
    ensures CompareReal(f * p, g * p) == CompareReal(f, g)
  {
    var x, y := f * p, g * p;
    if f < g {
      assert x < y;
    } else if g < f {
      assert y < x;
    }
  }

  lemma UnsignedOrder(s: seq<byte>, m: int, t: seq<byte>, n: int)
    requires AllDigits(s) && s != [] && s[0] != 48
    requires AllDigits(t) && t != [] && t[0] != 48
    ensures CompareReal(Scaled(s, m), Scaled(t, n)) == if m != n then CompareInt(m, n) else PaddedCompare(s, t)
  {
    hide Frac, Pow10;
    if m < n {
      MagnitudeDominates(s, m, t, n);
    } else if n < m {
      MagnitudeDominates(t, n, s, m);
    } else {
      Pow10Positive(m);
      ScaleOrder(Frac(s), Frac(t), Pow10(m));
      PaddedCompareIsExact(s, t);
    }
  }

  lemma ScaledPositive(s: seq<byte>, m: int)
    requires AllDigits(s)
    ensures s == [] ==> Scaled(s, m) == 0.0
    ensures s != [] && s[0] != 48 ==> Scaled(s, m) > 0.0
  {
    FracRange(s);
    Pow10Positive(m);
  }

  lemma SignOfValue(l: Literal)
    requires AllDigits(l.ints) && AllDigits(l.fracs)
    ensures SignOf(l) == 0 ==> Value(l) == 0.0
    ensures SignOf(l) == 1 ==> Value(l) > 0.0
    ensures SignOf(l) == -1 ==> Value(l) < 0.0
  {
    hide Value, MagnitudeOf, Scaled, Significant;
    NormalForm(l);
    ScaledPositive(Significant(l), MagnitudeOf(l));
  }

  /** Numeric order is exact: it is the order of the rational values. */
  lemma SummaryCompareIsExact(a: Literal, b: Literal)
    requires IsLiteral(a) && IsLiteral(b)
    ensures SummaryCompare(a, b) == CompareReal(Value(a), Value(b))
  {
    hide Value, MagnitudeOf, Scaled, Significant, PaddedCompare;
    SignOfValue(a);
    SignOfValue(b);
    if SignOf(a) == SignOf(b) != 0 {
      NormalForm(a);
      NormalForm(b);
      UnsignedOrder(Significant(a), MagnitudeOf(a), Significant(b), MagnitudeOf(b));
    }
  }

  // ------------------------------------------------------ what a literal says

  /** `x` times ten, `n` times over. */
  function TimesTens(x: real, n: nat): real {
    if n == 0 then x else 10.0 * TimesTens(x, n - 1)
  }

  lemma {:induction false} TimesTensAre(x: real, n: nat)
    ensures TimesTens(x, n) == x * Pow10(n)
  {
    hide Pow10;
    if n > 0 {
      TimesTensAre(x, n - 1);
      Pow10Next(n - 1);
      TimesTen(x, Pow10(n - 1));
    } else {
      assert Pow10(0) == 1.0 by { Pow10Zero(); }
    }
  }

  lemma Pow10Zero()
    ensures Pow10(0) == 1.0
  {}

  /** The literal with its exponent left out. */
  function Plain(l: Literal): Literal {
    l.(mark := [], expSign := [], exps := [])
  }

  /** Digits write a natural number, the first ten of them 0 to 9. */
  lemma {:induction false} DigitsWriteNumbers(ds: seq<byte>, d: byte)
    requires AllDigits(ds) && IsDigit(d)
    ensures NatValue([]) == 0 && NatValue(ds) >= 0 && NatValue(ds + [d]) == 10 * NatValue(ds) + (d - 48)
    ensures Frac([]) == 0.0 && 10.0 * Frac([d] + ds) == (d - 48) as real + Frac(ds)
  {
    ShiftDigit(d, ds);
    assert (ds + [d])[..|ds|] == ds;
    if ds != [] {
      var n := |ds| - 1;
      assert ds[n] in ds && ds == ds[..n] + [ds[n]];
      DigitsWriteNumbers(ds[..n], ds[n]);
    }
  }

  /** Without an exponent a literal is worth its integer part and fraction,
      negative after a minus sign. An exponent moves the point to the right by
      the number it writes, and after a minus sign to the left. */
  lemma LiteralMeans(l: Literal)
    requires IsLiteral(l)
    ensures var unsigned := NatValue(l.ints) as real + Frac(l.fracs);
            IsLiteral(Plain(l)) && Value(Plain(l)) == if l.sign == [45] then -unsigned else unsigned
    ensures NatValue(l.exps) >= 0
    ensures l.expSign != [45] ==> Value(l) == TimesTens(Value(Plain(l)), NatValue(l.exps))
    ensures l.expSign == [45] ==> TimesTens(Value(l), NatValue(l.exps)) == Value(Plain(l))
  {
    hide Frac, Pow10, TimesTens, Value;
    DigitsWriteNumbers(l.exps, 48);
    PlainValue(l);
    if l.expSign == [45] {
      TimesTensAre(Value(l), NatValue(l.exps));
    } else {
      TimesTensAre(Value(Plain(l)), NatValue(l.exps));
    }
    ShiftedValue(l, NatValue(l.exps));
  }

  lemma PlainValue(l: Literal)
    ensures var unsigned := NatValue(l.ints) as real + Frac(l.fracs);
            Value(Plain(l)) == if l.sign == [45] then -unsigned else unsigned
  {
    hide Frac, Pow10;
    Pow10Zero();
    TimesOne(NatValue(l.ints) as real + Frac(l.fracs));
    assert NatValue([]) == 0;
  }

  lemma ShiftedValue(l: Literal, n: nat)
    requires n == NatValue(l.exps)
    ensures l.expSign != [45] ==> Value(l) == Value(Plain(l)) * Pow10(n)
    ensures l.expSign == [45] ==> Value(l) * Pow10(n) == Value(Plain(l))
  {
    hide Frac, Pow10, NatValue;
    var x := NatValue(l.ints) as real + Frac(l.fracs);
    PlainValue(l);
    Pow10Zero();
    var e := 0 - n;
    Pow10Add(e, n);
    PowersCancel(x, Pow10(n), Pow10(e));
  }

  lemma TimesOne(x: real)
    ensures x * 1.0 == x
  {}

  lemma PowersCancel(x: real, p: real, q: real)
    requires q * p == 1.0
    ensures (x * q) * p == x && (-(x * q)) * p == -x && (-x) * p == -(x * p)
  {
    assert (x * q) * p == x * (q * p);
  }
}
