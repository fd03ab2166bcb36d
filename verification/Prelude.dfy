/** Values shared by every component: bytes, options, results, orderings and
    the read-only source. */
module Prelude {
  type byte = b: int | 0 <= b < 256

  const U64_MAX: int := 0xFFFF_FFFF_FFFF_FFFF
  const I64_MAX: int := 0x7FFF_FFFF_FFFF_FFFF
  const U32_MAX: int := 0xFFFF_FFFF

  /** An immutable source. Its size is reported as a 64-bit count. */
  type Source = s: seq<byte> | |s| <= U64_MAX witness []

  datatype Option<+T> = None | Some(value: T)

  datatype Error =
    | Io
    | ScratchIo
    | SourceChanged
    | Allocation
    | Quota
    | NumericRange
    | AddressSpace
    | InvalidScratch
    | InvalidConfig
    | Index
    | ZeroWork
    | EmptyNeedle
    | NonMonotonic
    | OperationCancelled
    | InvalidCheckpoint
    | ZeroFieldLimit
    | VisiblePrefixOutsideRecord

  datatype Result<+T> = Ok(value: T) | Err(error: Error)

  datatype Ordering = Less | Equal | Greater {
    function Reverse(): Ordering {
      match this
      case Less => Greater
      case Equal => Equal
      case Greater => Less
    }

    function Then(other: Ordering): Ordering {
      if Equal? then other else this
    }
  }

  function CompareInt(a: int, b: int): Ordering {
    if a < b then Less else if a == b then Equal else Greater
  }

  function Min(a: int, b: int): int {
    if a <= b then a else b
  }

  function Max(a: int, b: int): int {
    if a >= b then a else b
  }

  /** A slice of a slice is a slice. */
  lemma SliceOfSlice<T>(s: seq<T>, a: nat, b: nat, i: nat, j: nat)
    requires a <= b <= |s| && i <= j <= b - a
    ensures s[a..b][i..j] == s[a + i..a + j]
  {
    forall k | 0 <= k < j - i
      ensures s[a..b][i..j][k] == s[a + i..a + j][k]
    {
      assert s[a..b][i + k] == s[a + i + k];
    }
  }

  /** A part of a concatenation is found at its place. */
  lemma SliceOfParts<T>(a: seq<T>, part: seq<T>, b: seq<T>)
    ensures (a + part + b)[|a|..|a| + |part|] == part
  {
    var s := a + part + b;
    forall i | 0 <= i < |part|
      ensures s[|a|..|a| + |part|][i] == part[i]
    {
      assert s[|a| + i] == (a + part)[|a| + i];
    }
  }

  lemma PrefixSplit<T>(s: seq<T>, a: nat, b: nat)
    requires a <= b <= |s|
    ensures s[..b] == s[..a] + s[a..b]
  {}

  /** Updating one element extends the slice that ends there. */
  lemma UpdateSlice<T>(s: seq<T>, a: nat, i: nat, x: T)
    requires a <= i < |s|
    ensures s[i := x][a..i + 1] == s[a..i] + [x] && s[i := x][..a] == s[..a]
  {
    var t := s[i := x];
    forall k | 0 <= k < i + 1 - a
      ensures t[a..i + 1][k] == (s[a..i] + [x])[k]
    {
      assert t[a..i + 1][k] == t[a + k];
    }
  }

  /** What is left of a buffer is what the source holds at `offset`. */
  predicate Aligned(buffer: seq<byte>, pos: nat, src: seq<byte>, offset: nat) {
    && pos <= |buffer| && offset + (|buffer| - pos) <= |src|
    && buffer[pos..] == src[offset..offset + (|buffer| - pos)]
  }

  lemma AlignedChunk(buffer: seq<byte>, pos: nat, src: seq<byte>, offset: nat, n: nat)
    requires Aligned(buffer, pos, src, offset) && n <= |buffer| - pos
    ensures offset + n <= |src| && buffer[pos..pos + n] == src[offset..offset + n]
    ensures Aligned(buffer, pos + n, src, offset + n)
  {
    assert buffer[pos..pos + n] == buffer[pos..][..n];
    assert buffer[pos + n..] == buffer[pos..][n..];
  }

  lemma AlignedByte(buffer: seq<byte>, pos: nat, src: seq<byte>, offset: nat)
    requires Aligned(buffer, pos, src, offset) && pos < |buffer|
    ensures offset < |src| && buffer[pos] == src[offset] && Aligned(buffer, pos + 1, src, offset + 1)
  {
    AlignedChunk(buffer, pos, src, offset, 1);
    assert buffer[pos..pos + 1][0] == src[offset..offset + 1][0];
  }

  /** A measure compared from its first component on. */
  datatype Rank = Rank(a: nat, b: nat, c: nat, d: nat, e: nat, f: nat)

  predicate Below(x: Rank, y: Rank) {
    x.a < y.a || (x.a == y.a &&
    (x.b < y.b || (x.b == y.b &&
    (x.c < y.c || (x.c == y.c &&
    (x.d < y.d || (x.d == y.d &&
    (x.e < y.e || (x.e == y.e && x.f < y.f)))))))))
  }

  /** It decreases, and decreases compose. */
  lemma BelowTransitive(x: Rank, y: Rank, z: Rank)
    requires Below(x, y)
    ensures (y.a, y.b, y.c, y.d, y.e, y.f decreases to x.a, x.b, x.c, x.d, x.e, x.f)
    ensures Below(y, z) ==> Below(x, z)
  {}

  function Sub(a: int, b: int): nat {
    if a >= b then a - b else 0
  }

  // A call is calm when nothing outside disturbs it: no read or write fails,
  // nothing is cancelled, the source does not change and memory is granted.
  // Every method that such things happen to is told whether it is.

  /** A positioned read. Disturbed it may fail, and it may be short, but bytes
      it does return are the source's own; a zero or oversized count is an
      error. */
  method ReadAt(src: Source, offset: nat, request: nat, calm: bool) returns (r: Result<seq<byte>>)
    requires offset < |src| && 0 < request
    ensures r.Ok? ==>
              && 0 < |r.value| <= request
              && offset + |r.value| <= |src|
              && r.value == src[offset..offset + |r.value|]
    ensures r.Err? ==> !calm && SourceError(r.error)
  {
    var fails := Disturbed(calm);
    var changed := Disturbed(calm);
    if fails {
      return Err(Io);
    } else if changed {
      return Err(SourceChanged);
    }
    var n :| 0 < n <= request && offset + n <= |src|;
    r := Ok(src[offset..offset + n]);
  }

  /** A read of the source failed, or found it changed. */
  predicate SourceError(e: Error) {
    e == Io || e == SourceChanged
  }

  /** Whether something outside happens that may happen. */
  method Disturbed(calm: bool) returns (happens: bool)
    ensures happens ==> !calm
  {
    happens := *;
    happens := happens && !calm;
  }

  /** The cancellation check made every `every` bytes, if it is made at all. */
  method CheckDue(done: nat, every: Option<nat>, calm: bool) returns (cancelled: bool)
    requires every.Some? ==> every.value > 0
    ensures cancelled ==> every.Some? && done % every.value == 0 && !calm
  {
    cancelled := false;
    if every.Some? && done % every.value == 0 {
      cancelled := Disturbed(calm);
    }
  }
}
