/** A compiled literal: the Knuth-Morris-Pratt table of its bytes and the
    matcher that reads a record one byte at a time. */
module Literal {
  import opened Prelude

  datatype MatchMode = Exact | AsciiCaseInsensitive

  /** ASCII letters fold to lower case; other bytes stay as they are. */
  function Fold(mode: MatchMode, b: byte): byte {
    if mode == AsciiCaseInsensitive && 65 <= b <= 90 then b + 32 else b
  }

  function Folded(mode: MatchMode, s: seq<byte>): (r: seq<byte>)
    ensures |r| == |s|
  {
    seq(|s|, i requires 0 <= i < |s| => Fold(mode, s[i]))
  }

  lemma FoldedStep(mode: MatchMode, s: seq<byte>, b: byte)
    ensures Folded(mode, s + [b]) == Folded(mode, s) + [Fold(mode, b)]
  {}

  // ------------------------------------------------------------------ borders

  /** The needle's first `k` bytes end `s`. */
  ghost predicate Ends(n: seq<byte>, k: nat, s: seq<byte>) {
    k <= |n| && k <= |s| && s[|s| - k..] == n[..k]
  }

  /** `k` is the longest needle prefix shorter than `bound` that ends `s`. */
  ghost predicate Longest(n: seq<byte>, s: seq<byte>, bound: nat, k: nat) {
    k < bound && Ends(n, k, s) && forall j: nat | k < j < bound :: !Ends(n, j, s)
  }

  /** Among prefixes that end `s`, the shorter ends the longer, and back. */
  lemma EndsNest(n: seq<byte>, s: seq<byte>, j: nat, k: nat)
    requires Ends(n, k, s) && j <= k
    ensures Ends(n, j, s) <==> Ends(n, j, n[..k])
  {
    assert n[..k][k - j..] == s[|s| - k..][k - j..] == s[|s| - j..];
  }

  /** A prefix ends `s + [c]` when the prefix one shorter ends `s` and is
      followed by `c` in the needle. */
  lemma EndsStep(n: seq<byte>, s: seq<byte>, c: byte, k: nat)
    requires k < |n|
    ensures Ends(n, k + 1, s + [c]) <==> Ends(n, k, s) && n[k] == c
  {
    var t := s + [c];
    if k <= |s| {
      assert t[|t| - (k + 1)..] == s[|s| - k..] + [c];
      assert n[..k + 1] == n[..k] + [n[k]];
      if Ends(n, k + 1, t) {
        assert s[|s| - k..] == t[|t| - (k + 1)..][..k];
        assert t[|t| - (k + 1)..][k] == c;
      }
    }
  }

  /** `k` is a prefix worth trying to extend with `c`: none longer can be. */
  ghost predicate Candidate(n: seq<byte>, s: seq<byte>, bound: nat, c: byte, k: nat) {
    k < bound <= |n| && Ends(n, k, s) && forall j: nat | k < j < bound && n[j] == c :: !Ends(n, j, s)
  }

  /** Falling back along the table skips no prefix that could be extended. */
  lemma FallBack(n: seq<byte>, s: seq<byte>, bound: nat, c: byte, k: nat, k': nat)
    requires Candidate(n, s, bound, c, k) && k > 0 && n[k] != c
    requires Longest(n, n[..k], k, k')
    ensures Candidate(n, s, bound, c, k')
  {
    EndsNest(n, s, k', k);
    forall j: nat | k' < j < bound && n[j] == c
      ensures !Ends(n, j, s)
    {
      if j < k {
        EndsNest(n, s, j, k);
      }
    }
  }

  /** Where the fallback stops decides the longest prefix that ends `s + [c]`. */
  lemma Extend(n: seq<byte>, s: seq<byte>, bound: nat, c: byte, k: nat)
    requires Candidate(n, s, bound, c, k) && (k == 0 || n[k] == c)
    ensures Longest(n, s + [c], bound + 1, if n[k] == c then k + 1 else k)
  {
    var r := if n[k] == c then k + 1 else k;
    EndsStep(n, s, c, k);
    forall j: nat | r < j < bound + 1
      ensures !Ends(n, j, s + [c])
    {
      EndsStep(n, s, c, j - 1);
    }
  }

  // ------------------------------------------------------------------ literal

  datatype CompiledLiteral = CompiledLiteral(bytes: seq<byte>, failure: seq<nat>, mode: MatchMode)

  /** Each entry is the longest proper border of the prefix it belongs to. */
  ghost predicate Table(bytes: seq<byte>, failure: seq<nat>) {
    && |failure| <= |bytes|
    && forall i :: 0 <= i < |failure| ==> Longest(bytes, bytes[..i + 1], i + 1, failure[i])
  }

  ghost predicate Compiled(lit: CompiledLiteral) {
    && |lit.bytes| > 0 && |lit.failure| == |lit.bytes|
    && Table(lit.bytes, lit.failure)
  }

  lemma TableAt(bytes: seq<byte>, failure: seq<nat>, k: nat)
    requires Table(bytes, failure) && 0 < k <= |failure|
    ensures Longest(bytes, bytes[..k], k, failure[k - 1])
  {}

  lemma TableGrows(bytes: seq<byte>, failure: seq<nat>, k: nat)
    requires Table(bytes, failure) && |failure| < |bytes|
    requires Longest(bytes, bytes[..|failure| + 1], |failure| + 1, k)
    ensures Table(bytes, failure + [k])
  {
    hide Longest;
  }

  /** The next table entry: the border search over the entries so far. */
  method NextFailure(bytes: seq<byte>, failure: seq<nat>) returns (candidate: nat)
    requires 0 < |failure| < |bytes| && Table(bytes, failure)
    ensures Table(bytes, failure + [candidate])
  {
    hide Table, Candidate, Longest, Ends;
    var index := |failure|;
    ghost var s, c := bytes[..index], bytes[index];
    TableAt(bytes, failure, index);
    candidate := failure[index - 1];
    LongestIsCandidate(bytes, s, index, c, candidate);
    while candidate > 0 && bytes[index] != bytes[candidate]
      invariant candidate < index && Candidate(bytes, s, index, c, candidate)
      decreases candidate
    {
      TableAt(bytes, failure, candidate);
      FallBack(bytes, s, index, c, candidate, failure[candidate - 1]);
      LongestIsBelow(bytes, bytes[..candidate], candidate, failure[candidate - 1]);
      candidate := failure[candidate - 1];
    }
    Extend(bytes, s, index, c, candidate);
    if bytes[index] == bytes[candidate] {
      candidate := candidate + 1;
    }
    assert s + [c] == bytes[..index + 1];
    TableGrows(bytes, failure, candidate);
  }

  lemma LongestIsCandidate(n: seq<byte>, s: seq<byte>, bound: nat, c: byte, k: nat)
    requires Longest(n, s, bound, k) && bound <= |n|
    ensures k < bound && Candidate(n, s, bound, c, k)
  {}

  lemma LongestIsBelow(n: seq<byte>, s: seq<byte>, bound: nat, k: nat)
    requires Longest(n, s, bound, k)
    ensures k < bound && k <= |s|
  {}

  method Compile(needle: seq<byte>, mode: MatchMode, calm: bool) returns (r: Result<CompiledLiteral>)
    ensures needle == [] <==> r == Err(EmptyNeedle)
    ensures r.Err? ==> r.error == EmptyNeedle || (!calm && r.error == Allocation)
    ensures r.Ok? ==> Compiled(r.value) && r.value.mode == mode && r.value.bytes == Folded(mode, needle)
  {
    if needle == [] {
      return Err(EmptyNeedle);
    }
    var refused := Disturbed(calm);
    if refused {
      return Err(Allocation);
    }
    var bytes := [];
    for i := 0 to |needle|
      invariant bytes == Folded(mode, needle[..i])
    {
      assert needle[..i + 1] == needle[..i] + [needle[i]];
      FoldedStep(mode, needle[..i], needle[i]);
      bytes := bytes + [Fold(mode, needle[i])];
    }
    assert needle[..|needle|] == needle;
    var failure: seq<nat> := [0];
    while |failure| < |bytes|
      invariant 0 < |failure| <= |bytes| && Table(bytes, failure)
    {
      var next := NextFailure(bytes, failure);
      failure := failure + [next];
    }
    r := Ok(CompiledLiteral(bytes, failure, mode));
  }

  // ------------------------------------------------------------------ matcher

  /** The matcher has read `text`, already folded. */
  ghost predicate Matching(lit: CompiledLiteral, text: seq<byte>, state: nat) {
    Compiled(lit) && Longest(lit.bytes, text, |lit.bytes|, state)
  }

  lemma StartMatching(lit: CompiledLiteral)
    requires Compiled(lit)
    ensures Matching(lit, [], 0)
  {}

  /** A match is reported exactly when the needle ends what has been read. */
  method AdvanceMatcher(lit: CompiledLiteral, from: nat, byte: byte, ghost text: seq<byte>)
    returns (state: nat, matched: bool)
    requires Matching(lit, text, from)
    ensures Matching(lit, text + [Fold(lit.mode, byte)], state)
    ensures matched <==> Ends(lit.bytes, |lit.bytes|, text + [Fold(lit.mode, byte)])
  {
    hide Table, Candidate, Longest, Ends;
    var n, candidate := lit.bytes, Fold(lit.mode, byte);
    state := from;
    LongestIsCandidate(n, text, |n|, candidate, state);
    while state > 0 && n[state] != candidate
      invariant state < |n| && Candidate(n, text, |n|, candidate, state)
      decreases state
    {
      TableAt(n, lit.failure, state);
      FallBack(n, text, |n|, candidate, state, lit.failure[state - 1]);
      LongestIsBelow(n, n[..state], state, lit.failure[state - 1]);
      state := lit.failure[state - 1];
    }
    Extend(n, text, |n|, candidate, state);
    if n[state] == candidate {
      state := state + 1;
    }
    ghost var read := text + [candidate];
    if state == |n| {
      TableAt(n, lit.failure, |n|);
      assert n[..|n|] == n;
      WholeNeedle(n, read, lit.failure[state - 1]);
      return lit.failure[state - 1], true;
    }
    PartNeedle(n, read, state);
    matched := false;
  }

  lemma WholeNeedle(n: seq<byte>, s: seq<byte>, k: nat)
    requires Longest(n, s, |n| + 1, |n|) && Longest(n, n[..|n|], |n|, k)
    ensures Longest(n, s, |n|, k) && Ends(n, |n|, s)
  {
    forall j: nat | j < |n|
      ensures Ends(n, j, s) <==> Ends(n, j, n[..|n|])
    {
      EndsNest(n, s, j, |n|);
    }
  }

  lemma PartNeedle(n: seq<byte>, s: seq<byte>, k: nat)
    requires Longest(n, s, |n| + 1, k) && k < |n|
    ensures Longest(n, s, |n|, k) && !Ends(n, |n|, s)
  {}
}
