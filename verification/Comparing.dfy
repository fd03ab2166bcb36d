/** Reading full keys from the source: building descriptors and settling the
    comparisons their stored fields cannot. Every loop here can run out of
    budget at any byte and be resumed. */
module Comparing {
  import opened Prelude
  import opened Records
  import opened Fields
  import opened Key
  import opened Decimal
  import opened DecimalOrder
  import opened Number
  import opened KeyOrder

  lemma PrefixGrows(w: seq<byte>, b: byte)
    ensures |w| < PREFIX ==> PrefixOf(w + [b]) == PrefixOf(w)[|w| := b]
    ensures |w| >= PREFIX ==> PrefixOf(w + [b]) == PrefixOf(w)
  {
    if |w| >= PREFIX {
      assert (w + [b])[..PREFIX] == w[..PREFIX];
    }
  }

  /** The record's key is a number that cannot be sorted. */
  ghost predicate KeyOutOfRange(env: Env, span: Span) {
    && span.start <= span.end <= |env.src|
    && OutOfRange(KeyBytes(env.format, env.src[span.start..span.end], env.request.column))
  }

  /** Decodes one record's key into its descriptor. */
  class Builder {
    const cursor: Cursor
    const number: Number
    var descriptor: Descriptor

    /** The descriptor stands at the part `w` of the key. Which group a number
        is in is settled at its end, if it can be. */
    ghost predicate SoFar(env: Env, row: nat, span: Span, w: seq<byte>)
      reads this
      requires span.start <= span.end <= |env.src|
    {
      var d := Located(env.format, env.src, row, span, env.request.column).(len := |w|, prefix := PrefixOf(w));
      descriptor == if env.request.mode == Numeric then d.(group := descriptor.group) else d
    }

    /** The part `w` of the key has been read. */
    ghost predicate Valid(env: Env, row: nat, span: Span, w: seq<byte>)
      reads this, cursor, number
    {
      && span.start <= span.end <= |env.src|
      && cursor.Valid(env.src)
      && w + cursor.Rest(env.src) == KeyBytes(env.format, env.src[span.start..span.end], env.request.column)
      && SoFar(env, row, span, w)
      && (env.request.mode == Numeric ==> number.Valid(w))
    }

    constructor (d: Descriptor, quote: byte, ghost env: Env, ghost row: nat, ghost span: Span)
      requires span.start <= span.end <= |env.src| && quote == QuoteOf(env.format)
      requires d == Located(env.format, env.src, row, span, env.request.column)
      ensures Valid(env, row, span, []) && fresh(cursor) && fresh(number)
    {
      hide Located, KeyBytes, KeyOf, PrefixOf;
      LocatedKeyIsField(env.format, env.src, row, span, env.request.column);
      BlankPrefix(env.format, env.src, row, span, env.request.column);
      descriptor := d;
      cursor := new Cursor(d, quote, env.src);
      number := new Number();
      new;
      assert [] + cursor.Rest(env.src) == cursor.Rest(env.src);
    }

    /** Takes one decoded byte into the prefix, the length and the number. */
    method Take(b: byte, mode: Mode, ghost env: Env, ghost row: nat, ghost span: Span, ghost w: seq<byte>)
      requires mode == env.request.mode
      requires span.start <= span.end <= |env.src|
      requires SoFar(env, row, span, w)
      requires mode == Numeric ==> number.Valid(w)
      modifies this, number
      ensures SoFar(env, row, span, w + [b])
      ensures mode == Numeric ==> number.Valid(w + [b])
    {
      hide Located, PrefixOf;
      PrefixGrows(w, b);
      if descriptor.len < PREFIX {
        descriptor := descriptor.(prefix := descriptor.prefix[descriptor.len := b]);
      }
      descriptor := descriptor.(len := descriptor.len + 1);
      if mode == Numeric {
        number.Push(b, w);
      }
    }

    /** The key has been read to its end: store what it is as a number. */
    method Complete(mode: Mode, ghost env: Env, ghost row: nat, ghost span: Span, ghost k: seq<byte>)
      returns (r: Result<Option<Descriptor>>)
      requires mode == env.request.mode
      requires span.start <= span.end <= |env.src|
      requires k == KeyBytes(env.format, env.src[span.start..span.end], env.request.column)
      requires SoFar(env, row, span, k)
      requires mode == Numeric ==> number.Valid(k)
      modifies this
      ensures r.Ok? ==> r.value == Some(DescriptorOf(env, row, span))
      ensures r.Err? <==> mode == Numeric && OutOfRange(k)
      ensures r.Err? ==> r.error == NumericRange && SoFar(env, row, span, k)
    {
      hide Located, PrefixOf, KeyBytes, Read, Summarise, OutOfRange;
      if mode == Numeric {
        var s := number.Finish(k, descriptor.len);
        if s.Err? {
          descriptor := descriptor.(group := 1);
          return Err(s.error);
        }
        descriptor := descriptor.(
          group := s.value.group, sign := s.value.sign, magnitude := s.value.magnitude,
          leading := s.value.leading, digits := s.value.digits);
      }
      r := Ok(Some(descriptor));
    }

    /** One decoded byte, the end of the key, or a yield. */
    method Turn(src: Source, budget: nat, mode: Mode, calm: bool, ghost env: Env, ghost row: nat, ghost span: Span,
                ghost w: seq<byte>)
      returns (r: Result<Option<Descriptor>>, left: nat, yielded: bool, ghost w': seq<byte>)
      requires env.src == src && env.request.mode == mode && Valid(env, row, span, w)
      modifies this, cursor, number
      ensures left <= budget && cursor.offset == old(cursor.offset) + (budget - left)
      ensures r.Ok? && r.value.Some? ==> r.value.value == DescriptorOf(env, row, span)
      ensures r.Ok? && r.value.None? ==> Valid(env, row, span, w') && if yielded then left == 0 else left < budget
      ensures r.Err? ==> Valid(env, row, span, w')
      ensures r.Err? ==>
                || (!calm && SourceError(r.error))
                || (r.error == NumericRange && mode == Numeric && KeyOutOfRange(env, span))
      ensures mode == Numeric && KeyOutOfRange(env, span) ==> r.Err? || r.value.None?
    {
      hide Located, PrefixOf, KeyBytes, Read, Summarise, DescriptorOf, Unquote, Closed;
      w', yielded := w, false;
      var step;
      step, left := cursor.Next(src, budget, calm);
      if step.Err? {
        return Err(step.error), left, false, w;
      }
      match step.value
      case Yield =>
        r, yielded := Ok(None), true;
      case Byte(b) =>
        assert w + ([b] + cursor.Rest(src)) == (w + [b]) + cursor.Rest(src);
        Take(b, mode, env, row, span, w);
        w' := w + [b];
        r := Ok(None);
      case End =>
        assert w + [] == w;
        r := Complete(mode, env, row, span, w);
    }

    method Advance(src: Source, budget: nat, mode: Mode, calm: bool, ghost env: Env, ghost row: nat, ghost span: Span,
                   ghost w: seq<byte>)
      returns (r: Result<Option<Descriptor>>, left: nat, ghost w': seq<byte>)
      requires env.src == src && env.request.mode == mode && Valid(env, row, span, w)
      modifies this, cursor, number
      ensures left <= budget
      ensures r.Ok? && r.value.None? ==>
                left == 0 && Valid(env, row, span, w') && cursor.offset == old(cursor.offset) + budget
      ensures r.Ok? && r.value.Some? ==> r.value.value == DescriptorOf(env, row, span)
      ensures r.Err? ==> Valid(env, row, span, w')
      ensures r.Err? ==>
                || (!calm && SourceError(r.error))
                || (r.error == NumericRange && mode == Numeric && KeyOutOfRange(env, span))
      ensures mode == Numeric && KeyOutOfRange(env, span) ==> r.Err? || r.value.None?
    {
      hide Valid, DescriptorOf, KeyOutOfRange;
      left, w' := budget, w;
      while true
        invariant left <= budget && cursor.offset == old(cursor.offset) + (budget - left)
        invariant Valid(env, row, span, w')
        decreases left
      {
        var yielded;
        r, left, yielded, w' := Turn(src, left, mode, calm, env, row, span, w');
        if r.Err? || r.value.Some? || yielded {
          return;
        }
      }
    }
  }

  lemma BlankPrefix(f: Format, src: Source, row: nat, span: Span, column: nat)
    requires span.start <= span.end <= |src|
    ensures var d := Located(f, src, row, span, column);
            d == d.(len := 0, prefix := PrefixOf([]))
  {
    assert PrefixOf([]) == ZeroPrefix();
  }

  /** Reads the significant digits of a number. */
  class Digits {
    const cursor: Cursor
    var skip: nat
    var ended: bool

    ghost predicate Valid(src: Source)
      reads this, cursor
    {
      cursor.Valid(src)
    }

    ghost function Rest(src: Source): seq<byte>
      reads this, cursor
      requires Valid(src)
    {
      if ended then [] else Skip(MantissaDigits(cursor.Rest(src)), skip)
    }

    constructor (d: Descriptor, quote: byte, ghost src: Source)
      requires PointsAtKey(src, d)
      ensures fresh(cursor) && cursor.offset == d.keyStart && cursor.end == d.keyEnd
      ensures Valid(src) && Rest(src) == Skip(MantissaDigits(KeyOf(src, quote, d)), d.leading)
    {
      cursor := new Cursor(d, quote, src);
      skip := d.leading;
      ended := false;
    }

    method Next(src: Source, budget: nat, calm: bool) returns (r: Result<ByteStep>, left: nat)
      requires Valid(src)
      modifies this, cursor
      ensures Valid(src) && left <= budget && cursor.offset == old(cursor.offset) + (budget - left)
      ensures r.Ok? ==>
                match r.value
                case Byte(b) => old(Rest(src)) == [b] + Rest(src) && left < budget
                case End => old(Rest(src)) == Rest(src) == []
                case Yield => old(Rest(src)) == Rest(src) && left == 0
      ensures r.Err? ==> !calm && SourceError(r.error) && Rest(src) == old(Rest(src))
    {
      left := budget;
      if ended {
        return Ok(End), left;
      }
      while true
        invariant Valid(src) && left <= budget && cursor.offset == old(cursor.offset) + (budget - left)
        invariant !ended && old(Rest(src)) == Rest(src)
        decreases left
      {
        var step;
        ghost var before := cursor.Rest(src);
        step, left := cursor.Next(src, left, calm);
        if step.Err? {
          return step, left;
        }
        match step.value {
          case Yield =>
            return step, left;
          case End =>
            ended := true;
            return Ok(End), left;
          case Byte(b) =>
            MantissaStep(b, cursor.Rest(src), skip);
            if IsMark(b) {
              ended := true;
              return Ok(End), left;
            }
            if IsDigit(b) {
              if skip > 0 {
                skip := skip - 1;
              } else {
                return Ok(Byte(b)), left;
              }
            }
        }
      }
    }
  }

  lemma MantissaStep(b: byte, rest: seq<byte>, skip: nat)
    ensures var before := Skip(MantissaDigits([b] + rest), skip);
            before == if IsMark(b) then []
                      else if !IsDigit(b) then Skip(MantissaDigits(rest), skip)
                      else if skip > 0 then Skip(MantissaDigits(rest), skip - 1)
                      else [b] + Skip(MantissaDigits(rest), skip)
  {
    assert ([b] + rest)[1..] == rest;
  }

  lemma ResidueIsRest(env: Env, d: Descriptor)
    requires Describes(env, d)
    ensures PointsAtKey(env.src, d)
    ensures var k := KeyOf(env.src, QuoteOf(env.format), d);
            Residue(env, d) ==
            if env.request.mode == Numeric && d.group == 0 then Skip(MantissaDigits(k), d.leading) else k
  {}

  /** A comparison of two full keys that can stop between any two bytes. */
  class Comparison {
    const a: Descriptor
    const b: Descriptor
    const request: Request
    const numeric: bool
    const ca: Cursor
    const cb: Cursor
    const da: Digits
    const db: Digits
    var first: bool
    var left: Option<Option<byte>>

    ghost function Footprint(): set<object> {
      {this, ca, cb, da, db, da.cursor, db.cursor}
    }

    ghost predicate Parts(src: Source)
      reads ca, cb, da, db, da.cursor, db.cursor
    {
      && ca.Valid(src) && cb.Valid(src) && da.Valid(src) && db.Valid(src)
      && ca != cb && da != db && da.cursor != db.cursor
      && da.cursor != ca && da.cursor != cb && db.cursor != ca && db.cursor != cb
    }

    /** What the left key has still to offer, a byte held across a yield
        included. */
    ghost function LeftRest(src: Source): seq<byte>
      reads this`left, ca, cb, da, db, da.cursor, db.cursor
      requires Parts(src)
    {
      var rest := if numeric then da.Rest(src) else ca.Rest(src);
      match left
      case None => rest
      case Some(None) => []
      case Some(Some(x)) => [x] + rest
    }

    /** An end that is held was the end. */
    ghost predicate HeldOk(src: Source)
      reads this`left, ca, cb, da, db, da.cursor, db.cursor
      requires Parts(src)
    {
      left == Some(None) ==> (if numeric then da.Rest(src) else ca.Rest(src)) == []
    }

    ghost function RightRest(src: Source): seq<byte>
      reads ca, cb, da, db, da.cursor, db.cursor
      requires Parts(src)
    {
      if numeric then db.Rest(src) else cb.Rest(src)
    }

    /** However far it has read, it will answer with the key order. */
    ghost predicate Valid(env: Env)
      reads Footprint()
    {
      && Parts(env.src) && request == env.request
      && Describes(env, a) && Describes(env, b)
      && HeldOk(env.src)
      && numeric == (request.mode == Numeric && a.group == 0 && b.group == 0)
      && (!(first && Decide(a, b, request).Some?) ==> Settles(env))
    }

    /** Comparing what is left of both keys gives the key order. */
    ghost predicate Settles(env: Env)
      reads this`left, ca, cb, da, db, da.cursor, db.cursor
      requires Parts(env.src)
    {
      && (request.mode == Numeric ==> a.group == b.group)
      && FinishOrder(request, a, b, ResidueCompare(request, a, LeftRest(env.src), RightRest(env.src)))
         == Order(env, a, b)
    }

    ghost function Remaining(): int
      reads ca, cb, da, db, da.cursor, db.cursor
    {
      (ca.end - ca.offset) + (cb.end - cb.offset)
      + (da.cursor.end - da.cursor.offset) + (db.cursor.end - db.cursor.offset)
    }

    constructor (a: Descriptor, b: Descriptor, request: Request, quote: byte, ghost env: Env)
      requires env.request == request && quote == QuoteOf(env.format)
      requires Describes(env, a) && Describes(env, b)
      ensures Valid(env) && fresh(Footprint() - {this}) && this.a == a && this.b == b
    {
      hide Decide, ResidueCompare, Describes, Order, MantissaDigits, KeyOf, Residue, Skip, Cursor.Valid, Cursor.Rest;
      hide Digits.Valid, Digits.Rest;
      DecideIsExact(env, a, b);
      ResidueIsRest(env, a);
      ResidueIsRest(env, b);
      this.a := a;
      this.b := b;
      this.request := request;
      ca := new Cursor(a, quote, env.src);
      cb := new Cursor(b, quote, env.src);
      da := new Digits(a, quote, env.src);
      db := new Digits(b, quote, env.src);
      numeric := request.mode == Numeric && a.group == 0 && b.group == 0;
      first := true;
      left := None;
    }

    /** Reads the next byte of the left key and holds it. */
    method ReadLeft(src: Source, budget: nat, calm: bool) returns (r: Result<bool>, rest: nat)
      requires Parts(src) && left.None?
      modifies this`left, ca, da, da.cursor
      ensures Parts(src) && rest <= budget && Remaining() == old(Remaining()) - (budget - rest)
      ensures RightRest(src) == old(RightRest(src))
      ensures LeftRest(src) == old(LeftRest(src)) && HeldOk(src)
      ensures r.Ok? ==> r.value == left.Some?
      ensures r.Err? ==> !calm && SourceError(r.error)
      ensures r.Ok? && !r.value ==> rest == 0
      ensures left.Some? && left.value.Some? ==> rest < budget
    {
      hide Cursor.Valid, Cursor.Rest, Digits.Valid, Digits.Rest;
      var step;
      if numeric {
        step, rest := da.Next(src, budget, calm);
      } else {
        step, rest := ca.Next(src, budget, calm);
      }
      if step.Err? {
        return Err(step.error), rest;
      }
      match step.value
      case Yield => r := Ok(false);
      case Byte(x) =>
        left := Some(Some(x));
        r := Ok(true);
      case End =>
        left := Some(None);
        r := Ok(true);
    }

    method ReadRight(src: Source, budget: nat, calm: bool) returns (r: Result<ByteStep>, rest: nat)
      requires Parts(src)
      modifies cb, db, db.cursor
      ensures Parts(src) && rest <= budget && Remaining() == old(Remaining()) - (budget - rest)
      ensures LeftRest(src) == old(LeftRest(src)) && (old(HeldOk(src)) ==> HeldOk(src))
      ensures left == old(left)
      ensures r.Ok? ==>
                match r.value
                case Byte(x) => old(RightRest(src)) == [x] + RightRest(src) && rest < budget
                case End => old(RightRest(src)) == RightRest(src) == []
                case Yield => old(RightRest(src)) == RightRest(src) && rest == 0
      ensures r.Err? ==> !calm && SourceError(r.error) && RightRest(src) == old(RightRest(src))
    {
      hide MantissaDigits;
      if numeric {
        r, rest := db.Next(src, budget, calm);
      } else {
        r, rest := cb.Next(src, budget, calm);
      }
    }

    /** Compares one pair of bytes; the answer is the order, or none yet. */
    method Turn(src: Source, budget: nat, calm: bool, ghost env: Env)
      returns (r: Result<Option<Ordering>>, rest: nat, yielded: bool)
      requires env.src == src && Parts(src) && HeldOk(src) && Settles(env)
      requires numeric == (request.mode == Numeric && a.group == 0)
      modifies this`left, ca, cb, da, db, da.cursor, db.cursor
      ensures Parts(src) && rest <= budget && Remaining() == old(Remaining()) - (budget - rest)
      ensures r.Ok? && r.value.Some? ==> r.value.value == Order(env, a, b)
      ensures r.Ok? && r.value.None? ==> HeldOk(src) && Settles(env)
      ensures r.Err? ==> !calm && SourceError(r.error) && HeldOk(src) && Settles(env)
      ensures r.Ok? && r.value.None? && yielded ==> rest == 0
      ensures r.Ok? && r.value.None? && !yielded ==> rest < budget || (old(left.Some?) && left.None?)
    {
      hide ResidueCompare, Order, Cursor.Valid, Cursor.Rest, Digits.Valid, Digits.Rest;
      rest, yielded := budget, false;
      if left.None? {
        var held;
        held, rest := ReadLeft(src, rest, calm);
        if held.Err? {
          return Err(held.error), rest, false;
        }
        if !held.value {
          return Ok(None), rest, true;
        }
      }
      var step;
      step, rest := ReadRight(src, rest, calm);
      if step.Err? {
        return Err(step.error), rest, false;
      }
      if step.value.Yield? {
        return Ok(None), rest, true;
      }
      var l, rt := left.value, if step.value.End? then None else Some(step.value.b);
      left := None;
      ResidueStep(request, a, l, LeftRest(src), rt, RightRest(src));
      if l.None? && rt.None? {
        return Ok(Some(CompareInt(a.row, b.row))), rest, false;
      }
      var value := StepCompare(numeric, l, rt);
      if value != Equal {
        var directed := if numeric && a.sign < 0 then value.Reverse() else value;
        return Ok(Some(FinishOrder(request, a, b, directed))), rest, false;
      }
      r := Ok(None);
    }

    lemma SettledGroups(env: Env)
      requires Parts(env.src) && Settles(env)
      ensures request.mode == Numeric ==> a.group == b.group
    {}

    /** Compares until a byte differs, both keys end or the budget is spent. A
        later call goes on from exactly there. */
    method Advance(src: Source, budget: nat, calm: bool, ghost env: Env)
      returns (r: Result<Option<Ordering>>, rest: nat)
      requires env.src == src && Valid(env)
      modifies Footprint()
      ensures rest <= budget
      ensures r.Ok? && r.value.Some? ==> r.value.value == Order(env, a, b)
      ensures r.Ok? && r.value.None? ==> rest == 0 && Valid(env) && Remaining() == old(Remaining()) - budget
      ensures r.Err? ==> !calm && SourceError(r.error) && Valid(env)
    {
      hide Decide, Describes, Order, Remaining, Settles, HeldOk;
      DecideIsExact(env, a, b);
      rest := budget;
      if first {
        first := false;
        var order := Decide(a, b, request);
        if order.Some? {
          return Ok(order), rest;
        }
      }
      assert request.mode == Numeric ==> a.group == b.group by {
        SettledGroups(env);
      }
      while true
        invariant Parts(src) && HeldOk(src) && Settles(env)
        invariant !first && numeric == (request.mode == Numeric && a.group == 0 && b.group == 0)
        invariant request.mode == Numeric ==> a.group == b.group
        invariant rest <= budget && Remaining() == old(Remaining()) - (budget - rest)
        decreases rest, left.Some?
      {
        var yielded;
        r, rest, yielded := Turn(src, rest, calm, env);
        if r.Err? || r.value.Some? || yielded {
          return;
        }
      }
    }
  }

  /** One pair of bytes, or of a byte and an end. A missing digit is a zero; a
      missing byte sorts before every byte. */
  function StepCompare(numeric: bool, x: Option<byte>, y: Option<byte>): Ordering {
    if numeric then
      CompareInt(if x.Some? then x.value else 48, if y.Some? then y.value else 48)
    else
      match (x, y)
      case (None, None) => Equal
      case (None, Some(_)) => Less
      case (Some(_), None) => Greater
      case (Some(u), Some(v)) => CompareInt(u, v)
  }

  function Consed(x: Option<byte>, rest: seq<byte>): seq<byte> {
    if x.Some? then [x.value] + rest else []
  }

  lemma ResidueStep(req: Request, a: Descriptor, x: Option<byte>, xs: seq<byte>, y: Option<byte>, ys: seq<byte>)
    requires x.None? ==> xs == []
    requires y.None? ==> ys == []
    ensures var numeric := req.mode == Numeric && a.group == 0;
            var v := StepCompare(numeric, x, y);
            ResidueCompare(req, a, Consed(x, xs), Consed(y, ys)) ==
            if x.None? && y.None? then Equal
            else if v == Equal then ResidueCompare(req, a, xs, ys)
            else if numeric && a.sign < 0 then v.Reverse() else v
  {
    assert x.Some? ==> Consed(x, xs)[1..] == xs;
    assert y.Some? ==> Consed(y, ys)[1..] == ys;
  }
}
