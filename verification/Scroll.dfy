/** Scroll-thumb geometry: where the thumb lies for a position, and which
    position a dragged thumb means. */
module Scroll {
  import opened Prelude

  type int32 = x: int | -0x8000_0000 <= x <= 0x7FFF_FFFF
  type uint32 = x: int | 0 <= x <= 0xFFFF_FFFF

  datatype ScrollRange = ScrollRange(min: int32, max: int32, page: uint32, pos: int32) {
    function Span(): int {
      Max(max - min + 1, 0)
    }

    /** The last page starts here. */
    function LastPos(): int {
      Max(max - page + 1, min)
    }

    predicate Scrolls() {
      page > 0 && Span() > page
    }

    function Steps(): int {
      LastPos() - min
    }
  }

  datatype Thumb = Thumb(start: int32, length: int32)

  function Clamp(x: int, low: int, high: int): int {
    Max(low, Min(x, high))
  }

  /** `n * a / d`, rounded to the nearest with halves up. */
  function Round(n: int, a: int, d: int): int
    requires d > 0
  {
    (n * a + d / 2) / d
  }

  function Length(range: ScrollRange, track: int32, minLength: int32): int32
    requires range.Scrolls()
  {
    Min(Max(track * range.page / range.Span(), Min(minLength, track)), track)
  }

  /** A conversion to 32 bits that falls back on a default. */
  function Narrow(x: int, default: int32): int32 {
    if -0x8000_0000 <= x <= 0x7FFF_FFFF then x else default
  }

  function ThumbOf(range: ScrollRange, track: int32, minLength: int32): Option<Thumb> {
    if !range.Scrolls() || track <= 0 then None
    else
      var length := Length(range, track, minLength);
      var travel, steps := track - length, range.Steps();
      var offset := Clamp(range.pos - range.min, 0, steps);
      var start := if steps == 0 then 0 else Round(travel, offset, steps);
      Some(Thumb(Narrow(start, 0), Narrow(length, track)))
  }

  function PositionAt(range: ScrollRange, track: int32, length: int32, start: int32): int32 {
    var travel, steps := track - length, range.Steps();
    if travel <= 0 || steps <= 0 then range.min
    else Narrow(range.min + Round(steps, Clamp(start, 0, travel), travel), range.max)
  }

  // ---------------------------------------------------------------- rounding

  lemma QuotientIs(n: int, d: int, q: int)
    requires d > 0 && d * q <= n < d * q + d
    ensures n / d == q
  {
    var p := n / d;
    assert n == d * p + n % d;
    if p > q {
      Grows(d, q + 1, p);
    } else if p < q {
      Grows(d, p + 1, q);
    }
  }

  lemma Grows(d: int, a: int, b: int)
    requires d >= 0 && a <= b
    ensures d * a <= d * b
  {
    assert d * (b - a) >= 0;
  }

  lemma RoundIsNear(n: int, a: int, d: int)
    requires d > 0
    ensures var r := Round(n, a, d); d * r <= n * a + d / 2 < d * r + d
  {
    var x := n * a + d / 2;
    assert x == d * (x / d) + x % d;
  }

  /** Scaling up and back down is the identity. */
  lemma RoundBack(n: int, a: int, d: int)
    requires 0 < d <= n
    ensures Round(d, Round(n, a, d), n) == a
  {
    var r := Round(n, a, d);
    RoundIsNear(n, a, d);
    if d == n {
      QuotientIs(n * a + d / 2, d, a);
    }
    QuotientIs(d * r + n / 2, n, a);
  }

  lemma RoundGrows(n: int, a: int, b: int, d: int)
    requires d > 0 && n >= 0 && a <= b
    ensures Round(n, a, d) <= Round(n, b, d)
  {
    Grows(n, a, b);
    RoundIsNear(n, a, d);
    RoundIsNear(n, b, d);
    var p, q := Round(n, a, d), Round(n, b, d);
    Grows(d, Min(q + 1, p), p);
  }

  /** The ends stay the ends. */
  lemma RoundEnds(n: int, a: int, d: int)
    requires d > 0 && n >= 0 && 0 <= a <= d
    ensures 0 <= Round(n, a, d) <= n && Round(n, 0, d) == 0 && Round(n, d, d) == n
  {
    QuotientIs(n * 0 + d / 2, d, 0);
    QuotientIs(n * d + d / 2, d, n);
    RoundGrows(n, 0, a, d);
    RoundGrows(n, a, d, d);
  }

  /** If every step came back, each would need a value of its own. */
  lemma {:induction false} Climbs(n: int, d: int, k: int)
    requires n > 0 && d > 0 && 0 <= k <= d
    requires forall a :: 0 <= a <= d ==> Round(d, Round(n, a, d), n) == a
    ensures Round(n, k, d) >= k
    decreases k
  {
    hide Round;
    if k == 0 {
      RoundEnds(n, 0, d);
    } else {
      Climbs(n, d, k - 1);
      RoundGrows(n, k - 1, k, d);
      assert Round(d, Round(n, k - 1, d), n) == k - 1;
      assert Round(d, Round(n, k, d), n) == k;
    }
  }

  lemma CoarseLosesOne(n: int, d: int)
    requires 0 < n < d
    ensures exists a :: 0 <= a <= d && Round(d, Round(n, a, d), n) != a
  {
    if forall a :: 0 <= a <= d ==> Round(d, Round(n, a, d), n) == a {
      Climbs(n, d, d);
      RoundEnds(n, d, d);
    }
  }

  // ------------------------------------------------------------------ geometry

  function Travel(range: ScrollRange, track: int32, minLength: int32): int
    requires range.Scrolls()
  {
    track - Length(range, track, minLength)
  }

  lemma RangeFacts(range: ScrollRange, track: int32, minLength: int32)
    requires range.Scrolls() && track > 0
    ensures 0 <= Travel(range, track, minLength) <= track
    ensures 0 < range.Steps() <= 0xFFFF_FFFF && range.LastPos() <= range.max
  {
    var product, span := track * range.page, range.Span();
    assert product >= 0;
    assert product / span >= 0;
  }

  /** The thumb is to its track as the page is to the range, in whole pixels,
      but no shorter than asked for or than the track is. */
  lemma LengthIsProportional(range: ScrollRange, track: int32, minLength: int32)
    requires range.Scrolls() && track > 0
    ensures var length, least := Length(range, track, minLength), Min(minLength, track);
            var span := range.max - range.min + 1;
            && Max(least, 0) <= length <= track
            && track * range.page < length * span + span
            && (length > least ==> length * span <= track * range.page)
  {
    WholePart(track * range.page, range.Span());
    PartFits(track, range.page, range.Span());
    LengthCases(range, track, minLength);
  }

  lemma WholePart(product: int, span: int)
    requires span > 0
    ensures var q := product / span; q * span <= product < q * span + span
  {
    assert product == span * (product / span) + product % span;
  }

  lemma PartFits(track: int, page: int, span: int)
    requires 0 < page <= span && 0 < track
    ensures 0 <= track * page / span <= track
  {
    Grows(track, page, span);
    Grows(track, 0, page);
    WholePart(track * page, span);
    var q := track * page / span;
    if q > track {
      Grows(span, track + 1, q);
    }
    if q < 0 {
      Grows(span, q + 1, 0);
    }
  }

  lemma LengthCases(range: ScrollRange, track: int32, minLength: int32)
    requires range.Scrolls() && track > 0
    requires var q, span := track * range.page / range.Span(), range.Span();
             0 <= q <= track && q * span <= track * range.page < q * span + span
    ensures var length, least := Length(range, track, minLength), Min(minLength, track);
            var span := range.max - range.min + 1;
            && Max(least, 0) <= length <= track
            && track * range.page < length * span + span
            && (length > least ==> length * span <= track * range.page)
  {
    var q, span, length := track * range.page / range.Span(), range.Span(), Length(range, track, minLength);
    if q < length {
      Grows(span, q, length);
    }
  }

  /** The thumb lies on its track, and no intermediate product leaves 64 bits. */
  lemma ThumbFits(range: ScrollRange, track: int32, minLength: int32)
    requires range.Scrolls() && track > 0
    ensures ThumbOf(range, track, minLength).Some?
    ensures var t := ThumbOf(range, track, minLength).value;
            t.length == Length(range, track, minLength) && 0 <= t.length <= track && 0 <= t.start <= track - t.length
    ensures var offset := Clamp(range.pos - range.min, 0, range.Steps());
            0 <= Travel(range, track, minLength) * offset + range.Steps() / 2 <= I64_MAX
    ensures 0 <= track * range.page <= I64_MAX
  {
    hide Round, Length;
    RangeFacts(range, track, minLength);
    var travel, steps := Travel(range, track, minLength), range.Steps();
    var offset := Clamp(range.pos - range.min, 0, steps);
    RoundEnds(travel, offset, steps);
    ProductFits(travel, offset);
    ProductFits(track, range.page);
  }

  lemma ProductFits(a: int, b: int)
    requires 0 <= a <= 0x7FFF_FFFF && 0 <= b <= 0xFFFF_FFFF
    ensures 0 <= a * b <= 0x7FFF_FFFF * 0xFFFF_FFFF
  {
    Grows(a, b, 0xFFFF_FFFF);
    Grows(0xFFFF_FFFF, a, 0x7FFF_FFFF);
  }

  /** So does the inverse, for every start, even one off the track. */
  lemma PositionFits(range: ScrollRange, track: int32, minLength: int32, start: int32)
    requires range.Scrolls() && track > 0
    ensures var travel, pos := Travel(range, track, minLength),
              PositionAt(range, track, Length(range, track, minLength), start);
            && range.min <= pos <= range.LastPos()
            && 0 <= range.Steps() * Clamp(start, 0, travel) + travel / 2 <= I64_MAX
            && pos == range.min + if travel > 0 then Round(range.Steps(), Clamp(start, 0, travel), travel) else 0
  {
    hide Round, Length;
    RangeFacts(range, track, minLength);
    var travel, steps := Travel(range, track, minLength), range.Steps();
    ProductFits(Clamp(start, 0, travel), steps);
    if travel > 0 {
      RoundEnds(steps, Clamp(start, 0, travel), travel);
    }
  }

  /** A list scrolls when its range is longer than its page. The thumb is at
      the ends of its track for the first position and for the last, which is
      where the last page starts, and the ends of the track mean them. */
  lemma EndsMeet(range: ScrollRange, track: int32, minLength: int32)
    ensures ThumbOf(range, track, minLength).Some? <==> 0 < range.page < range.max - range.min + 1 && 0 < track
    ensures ThumbOf(range, track, minLength).Some? ==>
              var t, last := ThumbOf(range, track, minLength).value, range.max - range.page + 1;
              && (range.pos <= range.min ==> t.start == 0)
              && (range.pos >= last ==> t.start + t.length == track)
              && PositionAt(range, track, t.length, 0) == range.min
              && forall start: int32 :: start == track - t.length > 0 ==>
                   PositionAt(range, track, t.length, start) == last
  {
    hide Round, Length;
    if range.Scrolls() && track > 0 {
      ThumbFits(range, track, minLength);
      RangeFacts(range, track, minLength);
      var travel, steps := Travel(range, track, minLength), range.Steps();
      RoundEnds(travel, 0, steps);
      PositionFits(range, track, minLength, 0);
      PositionFits(range, track, minLength, travel);
      if travel > 0 {
        RoundEnds(steps, 0, travel);
      }
    }
  }

  /** The thumb and its inverse in terms of the rounding alone. */
  lemma ThumbStart(range: ScrollRange, track: int32, minLength: int32)
    requires range.Scrolls() && track > 0 && range.min <= range.pos <= range.LastPos()
    ensures range.Steps() > 0
    ensures var t := ThumbOf(range, track, minLength);
            && t.Some? && t.value.length == Length(range, track, minLength)
            && t.value.start == Round(Travel(range, track, minLength), range.pos - range.min, range.Steps())
  {
    hide Round, Length;
    ThumbFits(range, track, minLength);
    RangeFacts(range, track, minLength);
    RoundEnds(Travel(range, track, minLength), range.pos - range.min, range.Steps());
  }

  predicate PositionReturns(range: ScrollRange, track: int32, minLength: int32, pos: int32) {
    var t := ThumbOf(range.(pos := pos), track, minLength);
    t.Some? && PositionAt(range, track, t.value.length, t.value.start) == pos
  }

  predicate StartReturns(range: ScrollRange, track: int32, minLength: int32, start: int32)
    requires range.Scrolls()
  {
    var pos := PositionAt(range, track, Length(range, track, minLength), start);
    var t := ThumbOf(range.(pos := pos), track, minLength);
    t.Some? && t.value.start == start
  }

  lemma PositionReturnsWhen(range: ScrollRange, track: int32, minLength: int32, pos: int32)
    requires range.Scrolls() && track > 0 && range.min <= pos <= range.LastPos()
    ensures var travel, steps := Travel(range, track, minLength), range.Steps();
            PositionReturns(range, track, minLength, pos) <==>
            if travel == 0 then pos == range.min
              else Round(steps, Round(travel, pos - range.min, steps), travel) == pos - range.min
  {
    hide Round, Length, ThumbOf, PositionAt;
    var at := range.(pos := pos);
    SameGeometry(range, pos, track, minLength);
    ThumbStart(at, track, minLength);
    ThumbFits(at, track, minLength);
    PositionFits(range, track, minLength, ThumbOf(at, track, minLength).value.start);
  }

  lemma SameGeometry(range: ScrollRange, pos: int32, track: int32, minLength: int32)
    requires range.Scrolls()
    ensures var at := range.(pos := pos);
            at.Scrolls() && at.Steps() == range.Steps() && at.LastPos() == range.LastPos()
            && Length(at, track, minLength) == Length(range, track, minLength)
  {}

  lemma StartReturnsWhen(range: ScrollRange, track: int32, minLength: int32, start: int32)
    requires range.Scrolls() && 0 <= start <= Travel(range, track, minLength) && track > 0
    ensures var travel, steps := Travel(range, track, minLength), range.Steps();
            StartReturns(range, track, minLength, start) <==>
            travel == 0 || Round(travel, Round(steps, start, travel), steps) == start
  {
    hide Round, Length;
    var pos := PositionAt(range, track, Length(range, track, minLength), start);
    PositionFits(range, track, minLength, start);
    SameGeometry(range, pos, track, minLength);
    ThumbStart(range.(pos := pos), track, minLength);
    RangeFacts(range, track, minLength);
    RoundEnds(0, 0, range.Steps());
  }

  /** Every position survives being shown and read back exactly when the thumb
      has at least as many pixels to travel as there are steps. */
  lemma PositionsReturn(range: ScrollRange, track: int32, minLength: int32)
    requires range.Scrolls() && track > 0
    ensures (forall pos: int32 | range.min <= pos <= range.LastPos() ::
               PositionReturns(range, track, minLength, pos)) <==>
            Travel(range, track, minLength) >= range.Steps()
  {
    hide Round, Length, PositionReturns;
    var travel, steps := Travel(range, track, minLength), range.Steps();
    RangeFacts(range, track, minLength);
    forall pos: int32 | range.min <= pos <= range.LastPos()
      ensures travel >= steps ==> PositionReturns(range, track, minLength, pos)
    {
      PositionReturnsWhen(range, track, minLength, pos);
      if travel >= steps {
        RoundBack(travel, pos - range.min, steps);
      }
    }
    if travel < steps {
      var a := LostStep(travel, steps);
      PositionReturnsWhen(range, track, minLength, range.min + a);
    }
  }

  lemma LostStep(n: int, d: int) returns (a: int)
    requires 0 <= n < d
    ensures 0 <= a <= d && if n == 0 then a == 1 else Round(d, Round(n, a, d), n) != a
  {
    if n == 0 {
      a := 1;
    } else {
      CoarseLosesOne(n, d);
      a :| 0 <= a <= d && Round(d, Round(n, a, d), n) != a;
    }
  }

  /** Every thumb start survives being dragged to and shown again exactly when
      there are at least as many steps as pixels to travel. */
  lemma StartsReturn(range: ScrollRange, track: int32, minLength: int32)
    requires range.Scrolls() && track > 0
    ensures (forall start: int32 | 0 <= start <= Travel(range, track, minLength) ::
               StartReturns(range, track, minLength, start)) <==>
            range.Steps() >= Travel(range, track, minLength)
  {
    hide Round, Length, StartReturns;
    var travel, steps := Travel(range, track, minLength), range.Steps();
    RangeFacts(range, track, minLength);
    forall start: int32 | 0 <= start <= travel
      ensures steps >= travel ==> StartReturns(range, track, minLength, start)
    {
      StartReturnsWhen(range, track, minLength, start);
      if travel > 0 && steps >= travel {
        RoundBack(steps, start, travel);
      }
    }
    if steps < travel {
      var a := LostStep(steps, travel);
      StartReturnsWhen(range, track, minLength, a);
    }
  }

  /** Scrolling further never moves the thumb back, nor dragging the position. */
  lemma BothGrow(range: ScrollRange, track: int32, minLength: int32, a: int32, b: int32)
    requires range.Scrolls() && track > 0 && a <= b
    ensures var s, t := ThumbOf(range.(pos := a), track, minLength), ThumbOf(range.(pos := b), track, minLength);
            s.Some? && t.Some? && s.value.start <= t.value.start
    ensures var length := Length(range, track, minLength);
            PositionAt(range, track, length, a) <= PositionAt(range, track, length, b)
  {
    hide Round, Length;
    RangeFacts(range, track, minLength);
    SameGeometry(range, a, track, minLength);
    SameGeometry(range, b, track, minLength);
    ThumbFits(range.(pos := a), track, minLength);
    ThumbFits(range.(pos := b), track, minLength);
    var travel, steps := Travel(range, track, minLength), range.Steps();
    RoundEnds(travel, Clamp(a - range.min, 0, steps), steps);
    RoundEnds(travel, Clamp(b - range.min, 0, steps), steps);
    RoundGrows(travel, Clamp(a - range.min, 0, steps), Clamp(b - range.min, 0, steps), steps);
    PositionFits(range, track, minLength, a);
    PositionFits(range, track, minLength, b);
    if travel > 0 {
      RoundGrows(steps, Clamp(a, 0, travel), Clamp(b, 0, travel), travel);
    }
  }
}
