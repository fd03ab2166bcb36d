/** What a sorted order looks like to whoever reads it: which bytes, numbers
    and rows come first, without any of the comparisons that produce it. */
module SortMeaning {
  import opened Prelude
  import opened Records
  import opened Decimal
  import opened DecimalOrder
  import opened Number
  import opened KeyOrder
  import opened SortSpec

  /** `x` is a proper beginning of `y`, or has the smaller byte where they first
      differ. */
  ghost predicate Precedes(x: seq<byte>, y: seq<byte>) {
    || (|x| < |y| && x == y[..|x|])
    || exists k :: 0 <= k < |x| && k < |y| && x[..k] == y[..k] && x[k] < y[k]
  }

  /** The first of two, when ascending; the second, when descending. */
  function Earlier<T>(direction: Direction, x: T, y: T): T {
    match direction
    case Ascending => x
    case Descending => y
  }

  lemma {:induction false} LexPrecedes(x: seq<byte>, y: seq<byte>)
    ensures LexCompare(x, y) == Less <==> Precedes(x, y)
    ensures LexCompare(x, y) == Equal <==> x == y
    decreases |x|
  {
    if x != [] && y != [] {
      LexPrecedes(x[1..], y[1..]);
      PrecedesTail(x, y);
      assert x == [x[0]] + x[1..] && y == [y[0]] + y[1..];
    } else if x == [] && y != [] {
      assert y[..0] == x;
    }
  }

  /** Past an equal first byte the rest decides. */
  lemma PrecedesTail(x: seq<byte>, y: seq<byte>)
    requires x != [] && y != []
    ensures Precedes(x, y) <==> x[0] < y[0] || (x[0] == y[0] && Precedes(x[1..], y[1..]))
  {
    var a, b := x[1..], y[1..];
    if x[0] < y[0] {
      assert x[..0] == y[..0];
    }
    if x[0] == y[0] {
      if |a| < |b| && a == b[..|a|] {
        assert x == [x[0]] + a && y[..|x|] == [y[0]] + b[..|a|];
      }
      if k :| 0 <= k < |a| && k < |b| && a[..k] == b[..k] && a[k] < b[k] {
        assert x[..k + 1] == [x[0]] + a[..k] && y[..k + 1] == [y[0]] + b[..k];
      }
      if |x| < |y| && x == y[..|x|] {
        assert a == b[..|a|];
      }
      if k :| 0 <= k < |x| && k < |y| && x[..k] == y[..k] && x[k] < y[k] {
        assert a[..k - 1] == x[..k][1..] && b[..k - 1] == y[..k][1..];
      }
    }
  }

  /** In a sort by text the earlier row has the earlier field, by its bytes, and
      equal fields keep the order of the source in both directions. */
  lemma TextIsSorted(env: Env, order: seq<Entry>, i: nat, j: nat)
    requires IsSorted(env, order) && i < j < |order| && env.request.mode == Text
    ensures var a, b := order[i].row, order[j].row;
            && a < RecordCount(env) && b < RecordCount(env)
            && SpanOf(env, a).start <= SpanOf(env, a).end <= |env.src|
            && SpanOf(env, b).start <= SpanOf(env, b).end <= |env.src|
            && var x, y := FieldOf(env, a), FieldOf(env, b);
            && var d := env.request.direction;
            (x == y && a < b) || Precedes(Earlier(d, x, y), Earlier(d, y, x))
  {
    hide AllRecords, LexCompare, Precedes;
    var a, b := order[i].row, order[j].row;
    assert ShownBefore(env, a, b);
    var x, y := FieldOf(env, a), FieldOf(env, b);
    LexAntisymmetric(x, y);
    LexPrecedes(x, y);
    LexPrecedes(y, x);
  }

  /** The key is a number, written `l`. */
  ghost predicate Writes(key: seq<byte>, l: Literal) {
    IsLiteral(l) && l.Text() == key
  }

  ghost predicate Numerical(key: seq<byte>) {
    exists l :: Writes(key, l)
  }

  lemma NumericalIsNumber(key: seq<byte>)
    ensures Numerical(key) <==> GroupOf(key) == 0
    ensures Numerical(key) ==> Writes(key, LiteralOf(key))
    ensures forall l :: Writes(key, l) ==> l == LiteralOf(key)
  {
    hide Read, Accepts, IsLiteral;
    forall l | Writes(key, l)
      ensures IsNumber(key) && l == LiteralOf(key)
    {
      AcceptsExactlyLiterals(key, l);
    }
    if IsNumber(key) {
      AcceptsExactlyLiterals(key, LiteralOf(key));
      assert Writes(key, LiteralOf(key));
    }
  }

  /** Numbers come before other text and text before blanks, in both directions. */
  lemma GroupsAreSorted(env: Env, order: seq<Entry>, i: nat, j: nat)
    requires IsSorted(env, order) && i < j < |order| && env.request.mode == Numeric
    ensures var a, b := order[i].row, order[j].row;
            && a < RecordCount(env) && b < RecordCount(env)
            && SpanOf(env, a).start <= SpanOf(env, a).end <= |env.src|
            && SpanOf(env, b).start <= SpanOf(env, b).end <= |env.src|
            && var x, y := FieldOf(env, a), FieldOf(env, b);
            && (Numerical(y) ==> Numerical(x))
            && (AllSpace(x) ==> AllSpace(y))
            && (AllSpace(x) ==> a < b)
  {
    hide AllRecords, LexCompare, Numerical, IsNumber, Value, AllSpace;
    var a, b := order[i].row, order[j].row;
    assert ShownBefore(env, a, b);
    NumericalIsNumber(FieldOf(env, a));
    NumericalIsNumber(FieldOf(env, b));
    BlankIsNoNumber(FieldOf(env, a));
    BlankIsNoNumber(FieldOf(env, b));
  }

  lemma BlankIsNoNumber(key: seq<byte>)
    ensures AllSpace(key) <==> GroupOf(key) == 2
  {
    BlankIsStart(key);
  }

  /** In a sort by number values do not fall when ascending nor rise when
      descending, and equal values keep the order of the source. */
  lemma NumbersAreSorted(env: Env, order: seq<Entry>, i: nat, j: nat, l: Literal, m: Literal)
    requires IsSorted(env, order) && i < j < |order| && env.request.mode == Numeric
    requires var a, b := order[i].row, order[j].row;
             && SpanOf(env, a).start <= SpanOf(env, a).end <= |env.src|
             && SpanOf(env, b).start <= SpanOf(env, b).end <= |env.src|
             && Writes(FieldOf(env, a), l) && Writes(FieldOf(env, b), m)
    ensures var d, x, y := env.request.direction, Value(l), Value(m);
            Earlier(d, x, y) <= Earlier(d, y, x) && (x == y ==> order[i].row < order[j].row)
  {
    hide AllRecords, LexCompare, Numerical, IsNumber, Value, Writes, AllSpace;
    var a, b := order[i].row, order[j].row;
    assert ShownBefore(env, a, b);
    assert Numerical(FieldOf(env, a)) && Numerical(FieldOf(env, b)) by {
      Written(FieldOf(env, a), l);
      Written(FieldOf(env, b), m);
    }
    NumericalIsNumber(FieldOf(env, a));
    NumericalIsNumber(FieldOf(env, b));
  }

  lemma Written(key: seq<byte>, l: Literal)
    requires Writes(key, l)
    ensures Numerical(key)
  {}

  /** What is neither number nor blank is sorted as text is. */
  lemma OtherTextIsSorted(env: Env, order: seq<Entry>, i: nat, j: nat)
    requires IsSorted(env, order) && i < j < |order| && env.request.mode == Numeric
    requires var a, b := order[i].row, order[j].row;
             && SpanOf(env, a).start <= SpanOf(env, a).end <= |env.src|
             && SpanOf(env, b).start <= SpanOf(env, b).end <= |env.src|
             && !Numerical(FieldOf(env, a)) && !AllSpace(FieldOf(env, a))
             && !Numerical(FieldOf(env, b)) && !AllSpace(FieldOf(env, b))
    ensures var a, b := order[i].row, order[j].row;
            var d, x, y := env.request.direction, FieldOf(env, a), FieldOf(env, b);
            (x == y && a < b) || Precedes(Earlier(d, x, y), Earlier(d, y, x))
  {
    hide AllRecords, LexCompare, Numerical, IsNumber, Value, AllSpace, Precedes;
    var a, b := order[i].row, order[j].row;
    assert ShownBefore(env, a, b);
    var x, y := FieldOf(env, a), FieldOf(env, b);
    NumericalIsNumber(x);
    NumericalIsNumber(y);
    LexAntisymmetric(x, y);
    LexPrecedes(x, y);
    LexPrecedes(y, x);
  }
}
