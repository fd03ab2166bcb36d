/** What a search finds: every occurrence of the needle inside a record,
    overlapping ones included, in the order their ends are read. */
module Hits {
  import opened Prelude
  import opened Records
  import opened Literal

  datatype Hit = Hit(row: nat, span: Span)

  /** What is searched for, where. */
  datatype Search = Search(src: Source, format: Format, needle: seq<byte>, mode: MatchMode)

  function Rows(q: Search): seq<Span> {
    AllRecords(q.format, q.src)
  }

  /** The needle ends at `end` without reaching back before `start`. */
  predicate OccursAt(q: Search, start: nat, end: nat)
    requires start <= end <= |q.src|
  {
    start + |q.needle| <= end && Folded(q.mode, q.src[end - |q.needle|..end]) == q.needle
  }

  /** A hit names a record and a span inside it that reads as the needle. */
  ghost predicate IsHit(q: Search, hit: Hit) {
    && hit.row < |Rows(q)|
    && var rec := Rows(q)[hit.row];
    && rec.start <= hit.span.start <= hit.span.end <= rec.end <= |q.src|
    && hit.span.end - hit.span.start == |q.needle|
    && Folded(q.mode, q.src[hit.span.start..hit.span.end]) == q.needle
  }

  /** The order hits are listed in; rows first, then where they start. */
  ghost predicate Before(a: Hit, b: Hit) {
    a.row < b.row || (a.row == b.row && a.span.start < b.span.start)
  }

  /** The hits of one record, which starts at `start`, whose ends lie in
      `(a, b]`. */
  function HitsBetween(q: Search, row: nat, start: nat, a: nat, b: nat): seq<Hit>
    requires start <= a <= b <= |q.src|
    decreases b - a
  {
    if a == b then []
    else
      HitsBetween(q, row, start, a, b - 1)
      + if OccursAt(q, start, b) then [Hit(row, Span(b - |q.needle|, b))] else []
  }

  /** The hits of one record up to `cursor`. */
  function HitsTo(q: Search, row: nat, start: nat, cursor: nat): seq<Hit>
    requires start <= cursor <= |q.src|
  {
    HitsBetween(q, row, start, start, cursor)
  }

  lemma HitsOfNothing(q: Search, row: nat, start: nat, a: nat)
    requires start <= a <= |q.src|
    ensures HitsBetween(q, row, start, a, a) == []
  {}

  /** One byte completes one hit at most. */
  lemma HitsOfByte(q: Search, row: nat, start: nat, at: nat)
    requires start <= at < |q.src|
    ensures HitsBetween(q, row, start, at, at + 1) ==
            if OccursAt(q, start, at + 1) then [Hit(row, Span(at + 1 - |q.needle|, at + 1))] else []
  {
    assert HitsBetween(q, row, start, at, at) == [];
  }

  /** Hits up to one place and then up to a later one are all of them. */
  lemma {:induction false} HitsSplit(q: Search, row: nat, start: nat, a: nat, b: nat, c: nat)
    requires start <= a <= b <= c <= |q.src|
    ensures HitsBetween(q, row, start, a, c) == HitsBetween(q, row, start, a, b) + HitsBetween(q, row, start, b, c)
    decreases c - b
  {
    if b < c {
      HitsSplit(q, row, start, a, b, c - 1);
    }
  }

  lemma {:induction false} FewHitsBetween(q: Search, row: nat, start: nat, a: nat, b: nat)
    requires start <= a <= b <= |q.src|
    ensures |HitsBetween(q, row, start, a, b)| <= b - a
    decreases b - a
  {
    hide OccursAt;
    if a < b {
      FewHitsBetween(q, row, start, a, b - 1);
    }
  }

  lemma FoldedSuffix(mode: MatchMode, s: seq<byte>, k: nat)
    requires k <= |s|
    ensures Folded(mode, s)[|s| - k..] == Folded(mode, s[|s| - k..])
  {}

  /** The needle occurs at `end` when it ends what has been read of the record. */
  lemma OccursWhenItEnds(q: Search, start: nat, end: nat)
    requires start <= end <= |q.src|
    ensures OccursAt(q, start, end) <==> Ends(q.needle, |q.needle|, Folded(q.mode, q.src[start..end]))
  {
    hide Folded;
    var n, text := |q.needle|, q.src[start..end];
    assert q.needle[..n] == q.needle;
    if start + n <= end {
      FoldedSuffix(q.mode, text, n);
      assert text[|text| - n..] == q.src[end - n..end];
    }
  }

  ghost predicate RowsOk(q: Search) {
    forall k :: 0 <= k < |Rows(q)| ==> Rows(q)[k].start <= Rows(q)[k].end <= |q.src|
  }

  lemma RowsAreOk(q: Search)
    ensures RowsOk(q)
  {
    forall k | 0 <= k < |Rows(q)|
      ensures Rows(q)[k].start <= Rows(q)[k].end <= |q.src|
    {
      RestartAt(q.format, q.src, 0, k);
    }
  }

  /** The hits of the first `k` records. */
  ghost function HitsOfRows(q: Search, k: nat): seq<Hit>
    requires k <= |Rows(q)| && RowsOk(q)
  {
    if k == 0 then []
    else HitsOfRows(q, k - 1) + HitsTo(q, k - 1, Rows(q)[k - 1].start, Rows(q)[k - 1].end)
  }

  lemma HitsOfOneMore(q: Search, k: nat)
    requires k < |Rows(q)| && RowsOk(q)
    ensures HitsOfRows(q, k + 1) == HitsOfRows(q, k) + HitsTo(q, k, Rows(q)[k].start, Rows(q)[k].end)
  {}

  ghost function AllHits(q: Search): seq<Hit>
    requires RowsOk(q)
  {
    HitsOfRows(q, |Rows(q)|)
  }

  lemma {:induction false} HitsOfRowsGrow(q: Search, a: nat, b: nat)
    requires a <= b <= |Rows(q)| && RowsOk(q)
    ensures HitsOfRows(q, a) <= HitsOfRows(q, b)
    decreases b - a
  {
    if a < b {
      HitsOfRowsGrow(q, a, b - 1);
      HitsOfOneMore(q, b - 1);
    }
  }

  /** What has been read of a record is the beginning of all there is. */
  lemma ReadIsPrefix(q: Search, row: nat, cursor: nat)
    requires row < |Rows(q)| && RowsOk(q) && Rows(q)[row].start <= cursor <= Rows(q)[row].end
    ensures HitsOfRows(q, row) + HitsTo(q, row, Rows(q)[row].start, cursor) <= AllHits(q)
  {
    hide HitsBetween, HitsOfRows, AllRecords;
    HitsSplit(q, row, Rows(q)[row].start, Rows(q)[row].start, cursor, Rows(q)[row].end);
    HitsOfOneMore(q, row);
    HitsOfRowsGrow(q, row + 1, |Rows(q)|);
  }

  // ---------------------------------------------- exactly the occurrences, once

  ghost predicate InOrder(hits: seq<Hit>) {
    forall i, j :: 0 <= i < j < |hits| ==> Before(hits[i], hits[j])
  }

  /** A record's hits, exactly: those of that row ending at or before `cursor`. */
  ghost predicate RowHits(q: Search, row: nat, start: nat, cursor: nat, hits: seq<Hit>)
    requires start <= cursor <= |q.src|
  {
    && InOrder(hits)
    && forall hit ::
         hit in hits <==>
           && hit.row == row && start <= hit.span.start <= hit.span.end <= cursor
           && start < hit.span.end && hit.span.end - hit.span.start == |q.needle|
           && Folded(q.mode, q.src[hit.span.start..hit.span.end]) == q.needle
  }

  lemma {:induction false} HitsToAreExact(q: Search, row: nat, start: nat, cursor: nat)
    requires start <= cursor <= |q.src|
    ensures RowHits(q, row, start, cursor, HitsTo(q, row, start, cursor))
    decreases cursor - start
  {
    hide Folded;
    if cursor > start {
      HitsToAreExact(q, row, start, cursor - 1);
    }
  }

  lemma {:induction false} HitsOfRowsAreExact(q: Search, k: nat)
    requires k <= |Rows(q)| && RowsOk(q) && |q.needle| > 0
    ensures InOrder(HitsOfRows(q, k))
    ensures forall hit :: hit in HitsOfRows(q, k) <==> hit.row < k && IsHit(q, hit)
  {
    hide Folded, AllRecords;
    if k > 0 {
      HitsOfRowsAreExact(q, k - 1);
      HitsToAreExact(q, k - 1, Rows(q)[k - 1].start, Rows(q)[k - 1].end);
    }
  }

  /** The hits listed are all the occurrences, each once and in order. */
  lemma AllHitsAreExact(q: Search)
    requires |q.needle| > 0
    ensures RowsOk(q) && InOrder(AllHits(q))
    ensures forall hit :: hit in AllHits(q) <==> IsHit(q, hit)
  {
    RowsAreOk(q);
    HitsOfRowsAreExact(q, |Rows(q)|);
  }

  /** No hit crosses the edge of a record. */
  lemma HitStaysInRecord(q: Search, hit: Hit, row: nat)
    requires IsHit(q, hit) && |q.needle| > 0 && row < |Rows(q)| && row != hit.row
    ensures hit.span.end <= Rows(q)[row].start || Rows(q)[row].end <= hit.span.start
  {
    if row < hit.row {
      StartsIncrease(q, row, hit.row);
    } else {
      StartsIncrease(q, hit.row, row);
    }
  }

  lemma {:induction false} StartsIncrease(q: Search, i: nat, j: nat)
    requires i < j < |Rows(q)|
    ensures Rows(q)[i].end < Rows(q)[j].start
    decreases j
  {
    RestartAt(q.format, q.src, 0, j - 1);
    if i < j - 1 {
      StartsIncrease(q, i, j - 1);
    }
  }

  // ------------------------------------------------------ what a hit looks like

  /** The same letter but for its case, or the same byte. */
  predicate SameLetter(a: byte, b: byte) {
    a == b || (65 <= a <= 90 && b == a + 32) || (65 <= b <= 90 && a == b + 32)
  }

  /** The bytes read as the needle the caller gave. */
  predicate ReadsAs(mode: MatchMode, bytes: seq<byte>, needle: seq<byte>) {
    match mode
    case Exact => bytes == needle
    case AsciiCaseInsensitive =>
      |bytes| == |needle| && forall i :: 0 <= i < |bytes| ==> SameLetter(bytes[i], needle[i])
  }

  /** The span lies in its record and its bytes read as the needle given. */
  ghost predicate IsMatch(src: Source, format: Format, needle: seq<byte>, mode: MatchMode, hit: Hit) {
    var records := AllRecords(format, src);
    && hit.row < |records| && records[hit.row].end <= |src|
    && records[hit.row].start <= hit.span.start <= hit.span.end <= records[hit.row].end
    && ReadsAs(mode, src[hit.span.start..hit.span.end], needle)
  }

  lemma FoldedIsSame(mode: MatchMode, a: seq<byte>, b: seq<byte>)
    ensures Folded(mode, a) == Folded(mode, b) <==> ReadsAs(mode, a, b)
  {
    if Folded(mode, a) == Folded(mode, b) {
      forall i | 0 <= i < |a|
        ensures mode == Exact ==> a[i] == b[i]
        ensures mode == AsciiCaseInsensitive ==> SameLetter(a[i], b[i])
      {
        assert Folded(mode, a)[i] == Folded(mode, b)[i];
      }
    }
  }

  /** A hit for the folded needle is a match of the needle given. */
  lemma HitsAreMatches(src: Source, format: Format, needle: seq<byte>, mode: MatchMode, hit: Hit)
    ensures IsHit(Search(src, format, Folded(mode, needle), mode), hit) <==> IsMatch(src, format, needle, mode, hit)
  {
    hide AllRecords, Folded, ReadsAs;
    var q := Search(src, format, Folded(mode, needle), mode);
    RowsAreOk(q);
    if hit.row < |Rows(q)| && Rows(q)[hit.row].start <= hit.span.start <= hit.span.end <= Rows(q)[hit.row].end {
      FoldedIsSame(mode, src[hit.span.start..hit.span.end], needle);
      SameLength(mode, src[hit.span.start..hit.span.end], needle);
    }
  }

  lemma SameLength(mode: MatchMode, a: seq<byte>, b: seq<byte>)
    ensures ReadsAs(mode, a, b) ==> |a| == |b|
  {}

  // ------------------------------------------------------------ how far apart

  /** Two occurrences that overlap leave a border of the needle. */
  lemma OverlapIsBorder(q: Search, start: nat, e: nat, d: nat)
    requires start <= e && e + d <= |q.src| && 0 < d < |q.needle|
    requires OccursAt(q, start, e) && OccursAt(q, start, e + d)
    ensures Ends(q.needle, |q.needle| - d, q.needle)
  {
    var n := |q.needle|;
    var one, two := q.src[e - n..e], q.src[e + d - n..e + d];
    assert one[d..] == two[..n - d];
    assert Folded(q.mode, one)[d..] == Folded(q.mode, two)[..n - d];
  }

  /** So occurrences are at least a period apart, the needle's length less its
      longest border, and bytes no longer than that hold one end at most. */
  lemma {:induction false} OneHitPerPeriod(q: Search, row: nat, start: nat, a: nat, b: nat, border: nat)
    requires start <= a <= b <= |q.src| && b - a <= |q.needle| - border
    requires Longest(q.needle, q.needle, |q.needle|, border)
    ensures |HitsBetween(q, row, start, a, b)| <= 1
    ensures a < b && OccursAt(q, start, b) ==> |HitsBetween(q, row, start, a, b)| == 1
    decreases b - a
  {
    hide Ends;
    if a < b {
      OneHitPerPeriod(q, row, start, a, b - 1, border);
      if OccursAt(q, start, b) {
        NoneWithin(q, row, start, a, b - 1, b, border);
      }
    }
  }

  lemma {:induction false} NoneWithin(q: Search, row: nat, start: nat, a: nat, b: nat, e: nat, border: nat)
    requires start <= a <= b < e <= |q.src| && e - a <= |q.needle| - border && OccursAt(q, start, e)
    requires Longest(q.needle, q.needle, |q.needle|, border)
    ensures HitsBetween(q, row, start, a, b) == []
    decreases b - a
  {
    hide Ends, Folded;
    if a < b {
      NoneWithin(q, row, start, a, b - 1, e, border);
      if OccursAt(q, start, b) {
        OverlapIsBorder(q, start, b, e - b);
      }
    }
  }

  /** The period is the least distance: for every needle that fits a line some
      line has two hits just that far apart. */
  lemma PeriodIsLeast(needle: seq<byte>, mode: MatchMode, border: nat)
    requires Longest(needle, needle, |needle|, border) && Folded(mode, needle) == needle && 2 * |needle| <= U64_MAX
    requires forall i :: 0 <= i < |needle| ==> !IsNewline(needle[i])
    ensures border < |needle|
    ensures var n, p := |needle|, |needle| - border;
            var q := Search(needle + needle[border..], Lines, needle, mode);
            Rows(q) == [Span(0, n + p)] && Hit(0, Span(0, n)) in AllHits(q) && Hit(0, Span(p, p + n)) in AllHits(q)
  {
    hide Folded, Longest, AllRecords, AllHits;
    LongestIsBelow(needle, needle, |needle|, border);
    var n, p, src := |needle|, |needle| - border, needle + needle[border..];
    var q := Search(src, Lines, needle, mode);
    RepeatsAtPeriod(needle, border);
    OneLine(src);
    AllHitsAreExact(q);
    assert IsHit(q, Hit(0, Span(0, n))) && IsHit(q, Hit(0, Span(p, p + n)));
  }

  lemma RepeatsAtPeriod(needle: seq<byte>, border: nat)
    requires Longest(needle, needle, |needle|, border)
    ensures var n, p, src := |needle|, |needle| - border, needle + needle[border..];
            0 < p <= n && |src| == n + p && src[0..n] == needle && src[p..p + n] == needle
  {
    var n, p, src := |needle|, |needle| - border, needle + needle[border..];
    assert src[p..p + n] == needle[p..] + needle[border..];
    assert needle[..border] + needle[border..] == needle;
  }
}
