/** The ASCII prefilter `asciiFuzzyIndex` and its search step `trySkip` (src/utils/scripts/fzf.js). */
module FzfPrefilter {
  import opened FzfRunes
  import opened Alignments

  /** `Array.indexOf`: the first index holding `c`, or -1. */
  function IndexOf(s: seq<int>, c: int): (i: int)
    ensures -1 <= i < |s|
    ensures i >= 0 ==> s[i] == c && Absent(c, s, 0, i)
    ensures i < 0 ==> Absent(c, s, 0, |s|)
  {
    if s == [] then -1
    else if s[0] == c then 0
    else
      var i := IndexOf(s[1..], c);
      assert forall k :: 1 <= k < |s| ==> s[k] == s[1..][k - 1];
      if i < 0 then -1 else i + 1
  }

  /** Whether an ASCII rune folds to `c`, for a pattern rune `c` that is itself folded. */
  predicate Hits(cs: bool, r: int, c: int) {
    r == c || (!cs && IsLowerAscii(c) && r == c - 32)
  }

  function TrySkip(input: seq<Rune>, cs: bool, c: Rune, from: nat): (i: int)
    requires from <= |input|
    ensures i == -1 || from <= i < |input|
    ensures i >= 0 ==> Hits(cs, input[i], c) && forall k :: from <= k < i ==> !Hits(cs, input[k], c)
    ensures i < 0 ==> forall k :: from <= k < |input| ==> !Hits(cs, input[k], c)
  {
    var rest := input[from..];
    assert forall k :: from <= k < |input| ==> input[k] == rest[k - from];
    var idx := IndexOf(rest, c);
    if idx == 0 then from
    else
      var rest' := if !cs && IsLowerAscii(c) && idx > 0 then rest[..idx] else rest;
      var uidx := if !cs && IsLowerAscii(c) then IndexOf(rest', c - 32) else -1;
      assert uidx >= 0 ==> Absent(c - 32, rest', 0, uidx);
      assert uidx < 0 && !cs && IsLowerAscii(c) ==> Absent(c - 32, rest', 0, |rest'|);
      var best := if uidx >= 0 then uidx else idx;
      if best < 0 then -1 else from + best
  }

  /** What the prefilter promises about a text and its folded form: it rejects nothing that matches, and the
      place it proposes to start from lies before the first rune a match could begin with. */
  ghost predicate Admits(idx: int, folded: seq<int>, pattern: seq<int>)
    requires pattern != []
  {
    && (Subsequence(pattern, folded) ==> 0 <= idx)
    && (0 <= idx ==> Absent(pattern[0], folded, 0, idx))
    && (0 < idx ==> idx < |folded| && folded[idx] != pattern[0])
  }

  /** On ASCII texts both foldings agree, and `Hits` decides them for patterns that occur in the folded text. */
  ghost predicate FoldsAscii(cs: bool, input: seq<Rune>, folded: seq<Rune>) {
    && |folded| == |input|
    && forall i :: 0 <= i < |input| ==> folded[i] == if !cs && IsUpperAscii(input[i]) then input[i] + 32 else input[i]
  }

  /** What the prefilter's answer means for any folding that agrees with ASCII folding on ASCII texts. */
  ghost predicate IsSound(cs: bool, input: seq<Rune>, pattern: seq<Rune>, idx: int)
    requires pattern != []
  {
    && -1 <= idx && (idx > 0 ==> idx < |input|)
    && (!IsAscii(input) ==> idx == 0)
    && (IsAscii(input) ==> forall folded: seq<Rune> :: FoldsAscii(cs, input, folded) ==> Admits(idx, folded, pattern))
  }

  lemma SoundAdmits(cs: bool, input: seq<Rune>, pattern: seq<Rune>, idx: int, folded: seq<Rune>)
    requires pattern != [] && IsSound(cs, input, pattern, idx)
    requires IsAscii(input) ==> FoldsAscii(cs, input, folded)
    ensures Admits(idx, folded, pattern)
  {
  }

  lemma FoldedMatchIsHit(cs: bool, r: Rune, folded: Rune)
    requires folded == if !cs && IsUpperAscii(r) then r + 32 else r
    ensures Hits(cs, r, folded)
  {
  }

  /** A pattern that is not ASCII is in no ASCII text. */
  lemma NotAsciiNotFound(cs: bool, input: seq<Rune>, pattern: seq<Rune>)
    requires pattern != [] && IsAscii(input) && !IsAscii(pattern)
    ensures IsSound(cs, input, pattern, -1)
  {
    var i :| 0 <= i < |pattern| && pattern[i] >= 128;
    forall folded: seq<Rune>, a | FoldsAscii(cs, input, folded)
      ensures !IsAlignment(a, folded, pattern)
    {
      assert forall k :: 0 <= k < |folded| ==> folded[k] < 128;
    }
  }

  /** In every folding, every match finds its first `pidx` runes no earlier than the search, which is at `idx`. */
  ghost predicate HasReached(cs: bool, input: seq<Rune>, pattern: seq<Rune>, pidx: nat, idx: nat) {
    pidx <= |pattern| && forall folded: seq<Rune>, a ::
      FoldsAscii(cs, input, folded) && IsAlignment(a, folded, pattern) ==>
      pidx > 0 ==> idx <= a[pidx - 1] + 1
  }

  /** One rune of the pattern further. */
  lemma SkipReaches(cs: bool, input: seq<Rune>, pattern: seq<Rune>, pidx: nat, idx: nat)
    requires pidx < |pattern| && idx <= |input| && (pidx == 0 ==> idx == 0)
    requires IsAscii(input) && HasReached(cs, input, pattern, pidx, idx)
    ensures var next := TrySkip(input, cs, pattern[pidx], idx);
      if next < 0 then IsSound(cs, input, pattern, -1) else HasReached(cs, input, pattern, pidx + 1, next + 1)
  {
    hide TrySkip, Hits;
    var next := TrySkip(input, cs, pattern[pidx], idx);
    forall folded: seq<Rune>, a | FoldsAscii(cs, input, folded) && IsAlignment(a, folded, pattern)
      ensures 0 <= next <= a[pidx]
    {
      FoldedMatchIsHit(cs, input[a[pidx]], pattern[pidx]);
      assert idx <= a[pidx];
    }
  }

  /** What the search found of the first rune is the same in every folding. */
  lemma FirstAdmits(cs: bool, input: seq<Rune>, pattern: seq<Rune>, firstIdx: nat)
    requires pattern != [] && IsAscii(input) && (firstIdx > 0 ==> firstIdx < |input|)
    requires firstIdx > 0 ==> forall k :: 0 <= k <= firstIdx ==> !Hits(cs, input[k], pattern[0])
    ensures IsSound(cs, input, pattern, firstIdx)
  {
    hide Hits, Subsequence;
    forall folded: seq<Rune> | FoldsAscii(cs, input, folded)
      ensures Admits(firstIdx, folded, pattern)
    {
      forall k | 0 <= k <= firstIdx && 0 < firstIdx
        ensures folded[k] != pattern[0]
      {
        FoldedMatchIsHit(cs, input[k], folded[k]);
      }
    }
  }

  method AsciiFuzzyIndex(input: seq<Rune>, pattern: seq<Rune>, cs: bool) returns (firstIdx: int)
    requires pattern != []
    ensures IsSound(cs, input, pattern, firstIdx)
  {
    hide HasReached, TrySkip, Hits;
    if !IsAscii(input) {
      return 0;
    }
    hide IsSound, IsAscii;
    if !IsAscii(pattern) {
      NotAsciiNotFound(cs, input, pattern);
      return -1;
    }
    firstIdx := 0;
    var idx := 0;
    NothingReached(cs, input, pattern);
    for pidx := 0 to |pattern|
      invariant 0 <= idx <= |input| && HasReached(cs, input, pattern, pidx, idx)
      invariant 0 <= firstIdx && (firstIdx > 0 ==> firstIdx < |input|) && (pidx == 0 ==> idx == 0 && firstIdx == 0)
      invariant firstIdx > 0 ==> forall k :: 0 <= k <= firstIdx ==> !Hits(cs, input[k], pattern[0])
    {
      var next := TrySkip(input, cs, pattern[pidx], idx);
      SkipReaches(cs, input, pattern, pidx, idx);
      if next < 0 {
        return -1;
      }
      if pidx == 0 && next > 0 {
        firstIdx := next - 1;
      }
      idx := next + 1;
    }
    FirstAdmits(cs, input, pattern, firstIdx);
  }

  lemma NothingReached(cs: bool, input: seq<Rune>, pattern: seq<Rune>)
    ensures HasReached(cs, input, pattern, 0, 0)
  {
  }
}
