/** `fuzzyMatchV1`: a forward pass to the earliest end, a backward pass that shrinks the window, and the score
    of the window (src/utils/scripts/fzf.js:656-729). */
module FzfMatchV1 {
  import opened Wrappers
  import opened FzfRunes
  import opened Alignments
  import FzfBacktrace
  import FzfPrefilter
  import FzfScore

  datatype MatchResult = MatchResult(start: int, end: int, score: int)

  function IndexAt(index: int, max: int, forward: bool): int {
    if forward then index else max - index - 1
  }

  function Reversed(s: seq<int>): (r: seq<int>)
    ensures |r| == |s| && forall k :: 0 <= k < |s| ==> r[k] == s[|s| - 1 - k]
  {
    if s == [] then [] else Reversed(s[1..]) + [s[0]]
  }

  /** A sequence in the order the scan visits it. */
  function Facing(s: seq<int>, forward: bool): (r: seq<int>)
    ensures |r| == |s| && forall k :: 0 <= k < |s| ==> r[k] == s[IndexAt(k, |s|, forward)]
  {
    if forward then s else Reversed(s)
  }

  /** The same positions counted from the end of a text of length `n`, in increasing order again. */
  function Mirror(a: seq<nat>, n: nat): (r: seq<nat>)
    requires forall i :: 0 <= i < |a| ==> a[i] < n
    ensures |r| == |a| && forall i :: 0 <= i < |a| ==> r[i] == n - 1 - a[|a| - 1 - i]
  {
    if a == [] then [] else Mirror(a[1..], n) + [n - 1 - a[0]]
  }

  /** Alignments of the reversed pattern in the reversed text are the mirrored alignments. */
  lemma MirrorAligns(a: seq<nat>, t: seq<int>, p: seq<int>)
    requires IsAlignment(a, t, p)
    ensures IsAlignment(Mirror(a, |t|), Reversed(t), Reversed(p))
  {
    var b := Mirror(a, |t|);
    forall i, j | 0 <= i < j < |b|
      ensures b[i] < b[j]
    {
      assert a[|a| - 1 - j] < a[|a| - 1 - i];
    }
  }

  lemma {:induction false} ReversedTwice(s: seq<int>)
    ensures Reversed(Reversed(s)) == s
  {
  }

  /** The alignment runs from the first position of the window to the last. */
  ghost predicate Spans(a: seq<nat>, t: seq<int>, p: seq<int>, start: nat, end: nat)
    requires p != []
  {
    IsAlignment(a, t, p) && a[0] == start && a[|p| - 1] == end - 1
  }

  /** The window `[start, end)` is what the scan promises: it runs from the first to the last position of an
      alignment, and no alignment ends earlier (begins later, when the scan runs backward). */
  ghost predicate IsWindow(t: seq<int>, p: seq<int>, forward: bool, start: nat, end: nat)
    requires p != []
  {
    && (exists a :: Spans(a, t, p, start, end))
    && (forall b :: IsAlignment(b, t, p) ==> if forward then b[|p| - 1] >= end - 1 else b[0] <= start)
  }

  /** Among the windows with that end (that start), it is the shortest. */
  ghost predicate IsTightWindow(t: seq<int>, p: seq<int>, forward: bool, start: nat, end: nat)
    requires p != []
  {
    forall b :: IsAlignment(b, t, p) ==>
      if forward then b[|p| - 1] == end - 1 ==> b[0] <= start else b[0] == start ==> b[|p| - 1] >= end - 1
  }

  /** Normalisation changes no rune of the lower-cased text. */
  ghost predicate NormalizationIdle(u: Unicode, cs: bool, nz: bool, text: seq<Rune>) {
    nz ==> forall i :: 0 <= i < |text| ==> NormalizeRune(u, Lower(u, cs, text[i])) == Lower(u, cs, text[i])
  }

  function LowerText(u: Unicode, cs: bool, t: seq<Rune>): (f: seq<Rune>)
    ensures |f| == |t|
    ensures forall i :: 0 <= i < |t| ==> f[i] == Lower(u, cs, t[i])
  {
    FoldTextV1(u, cs, false, t)
  }

  /** `st` is the folded text in scan order, position by position. */
  ghost predicate ShowsAt(st: seq<int>, u: Unicode, cs: bool, nz: bool, text: seq<Rune>, forward: bool, k: nat)
    requires k < |st| == |text|
  {
    st[k] == FoldV1(u, cs, nz, text[IndexAt(k, |text|, forward)])
  }

  ghost predicate Shows(st: seq<int>, u: Unicode, cs: bool, nz: bool, text: seq<Rune>, forward: bool) {
    && |st| == |text|
    && forall k {:trigger ShowsAt(st, u, cs, nz, text, forward, k)} ::
         0 <= k < |text| ==> ShowsAt(st, u, cs, nz, text, forward, k)
  }

  ghost predicate PatternAt(sp: seq<int>, pattern: seq<Rune>, forward: bool, k: nat)
    requires k < |sp| == |pattern|
  {
    sp[k] == pattern[IndexAt(k, |pattern|, forward)]
  }

  ghost predicate PatternShown(sp: seq<int>, pattern: seq<Rune>, forward: bool) {
    && |sp| == |pattern|
    && forall k {:trigger PatternAt(sp, pattern, forward, k)} ::
         0 <= k < |pattern| ==> PatternAt(sp, pattern, forward, k)
  }

  method EarliestEnd(u: Unicode, cs: bool, nz: bool, forward: bool, text: seq<Rune>, pattern: seq<Rune>,
                     ghost st: seq<int>, ghost sp: seq<int>)
    returns (sidx: int, eidx: int, ghost f: seq<nat>)
    requires pattern != [] && Shows(st, u, cs, nz, text, forward) && PatternShown(sp, pattern, forward)
    ensures if eidx < 0 then !Subsequence(sp, st)
      else
        && |f| == |pattern| && IsGreedy(f, st, sp) && sidx == f[0] && eidx == f[|pattern| - 1] + 1
        && 0 <= sidx < eidx <= |text|
  {
    hide FoldV1, Tight;
    var pidx := 0;
    sidx, eidx, f := -1, -1, [];
    GreedyNothing(st, sp);
    var lenRunes, lenPattern := |text|, |pattern|;
    for index := 0 to lenRunes
      invariant 0 <= pidx == |f| < lenPattern && IsGreedy(f, st, sp) && NextStart(f) <= index
      invariant Absent(sp[pidx], st, NextStart(f), index)
      invariant eidx == -1 && sidx == (if f == [] then -1 else f[0])
    {
      assert ShowsAt(st, u, cs, nz, text, forward, index) && PatternAt(sp, pattern, forward, pidx);
      var rune := FoldV1(u, cs, nz, text[IndexAt(index, lenRunes, forward)]);
      var pchar := pattern[IndexAt(pidx, lenPattern, forward)];
      if rune == pchar {
        GreedyExtend(f, st, sp, index);
        if sidx < 0 {
          sidx := index;
        }
        f := f + [index];
        pidx := pidx + 1;
        if pidx == lenPattern {
          eidx := index + 1;
          assert f[0] <= f[|pattern| - 1];
          return;
        }
      }
    }
    GreedyStuck(f, st, sp);
  }

  /** How far the backward pass has come: `b` aligns the pattern behind `pidx`, and no alignment that ends in
      time has its rune `pidx` behind `index`. */
  ghost predicate Tightened(lt: seq<int>, sp: seq<int>, eidx: nat, pidx: nat, index: int, b: seq<nat>) {
    && pidx < |sp| && |b| == |sp| - 1 - pidx && Increasing(b)
    && (forall i :: 0 <= i < |b| ==> index < b[i] < eidx && b[i] < |lt| && lt[b[i]] == sp[pidx + 1 + i])
    && (forall a :: IsAlignment(a, lt, sp) && a[|sp| - 1] < eidx ==> a[pidx] <= index)
  }

  lemma TightenedStep(lt: seq<int>, sp: seq<int>, eidx: nat, pidx: nat, index: nat, b: seq<nat>)
    requires Tightened(lt, sp, eidx, pidx, index, b) && index < |lt| && index < eidx
    ensures lt[index] != sp[pidx] ==> Tightened(lt, sp, eidx, pidx, index - 1, b)
    ensures lt[index] == sp[pidx] ==>
      if pidx > 0 then Tightened(lt, sp, eidx, pidx - 1, index - 1, [index] + b)
      else
        && IsAlignment([index] + b, lt, sp) && ([index] + b)[|sp| - 1] < eidx
        && forall a :: IsAlignment(a, lt, sp) && a[|sp| - 1] < eidx ==> a[0] <= index
  {
  }

  /** What the backward pass found: the whole pattern, aligned, or only a part of it. */
  datatype Shrink = Whole(a: seq<nat>) | Partial

  /** The outcome of the backward pass over `[sidx, eidx)`. */
  ghost predicate ShrunkTo(lt: seq<int>, sp: seq<int>, sidx: int, eidx: int, start: nat, shrink: Shrink)
    requires sp != []
  {
    match shrink
    case Whole(b) =>
      && IsAlignment(b, lt, sp) && sidx <= b[0] == start && b[|sp| - 1] < eidx
      && (forall a :: IsAlignment(a, lt, sp) && a[|sp| - 1] < eidx ==> a[0] <= start)
    case Partial =>
      && start == sidx
      && (forall a :: IsAlignment(a, lt, sp) && a[|sp| - 1] < eidx ==> a[0] < sidx)
  }

  /** The backward pass: it compares lower-cased but not normalised runes. */
  method TightenStart(u: Unicode, cs: bool, forward: bool, text: seq<Rune>, pattern: seq<Rune>, sidx: nat, eidx: nat,
                      ghost lt: seq<int>, ghost sp: seq<int>)
    returns (start: nat, ghost shrink: Shrink)
    requires pattern != [] && Shows(lt, u, cs, false, text, forward) && PatternShown(sp, pattern, forward)
    requires sidx < eidx <= |text|
    ensures ShrunkTo(lt, sp, sidx, eidx, start, shrink)
  {
    hide Lower, IsAlignment, Increasing, Subsequence;
    var lenRunes, lenPattern := |text|, |pattern|;
    var pidx := lenPattern - 1;
    ghost var b: seq<nat> := [];
    var index := eidx - 1;
    TightenedAtEnd(lt, sp, eidx);
    while index >= sidx
      invariant sidx - 1 <= index < eidx && 0 <= pidx < lenPattern
      invariant Tightened(lt, sp, eidx, pidx, index, b)
    {
      assert ShowsAt(lt, u, cs, false, text, forward, index) && PatternAt(sp, pattern, forward, pidx);
      TightenedStep(lt, sp, eidx, pidx, index, b);
      var rune := Lower(u, cs, text[IndexAt(index, lenRunes, forward)]);
      var pchar := pattern[IndexAt(pidx, lenPattern, forward)];
      if rune == pchar {
        b := [index] + b;
        if pidx == 0 {
          return index, Whole(b);
        }
        pidx := pidx - 1;
      }
      index := index - 1;
    }
    NothingBehind(lt, sp, eidx, pidx, sidx, b);
    return sidx, Partial;
  }

  lemma TightenedAtEnd(lt: seq<int>, sp: seq<int>, eidx: nat)
    requires sp != []
    ensures Tightened(lt, sp, eidx, |sp| - 1, eidx - 1, [])
  {
  }

  lemma NothingBehind(lt: seq<int>, sp: seq<int>, eidx: nat, pidx: nat, sidx: nat, b: seq<nat>)
    requires Tightened(lt, sp, eidx, pidx, sidx - 1, b)
    ensures forall a :: IsAlignment(a, lt, sp) && a[|sp| - 1] < eidx ==> a[0] < sidx
  {
  }

  /** Every rune of `st` is the normalised rune of `lt`. */
  ghost predicate NormalizedFrom(u: Unicode, nz: bool, st: seq<int>, lt: seq<int>) {
    && |st| == |lt|
    && forall k :: 0 <= k < |st| ==> st[k] == if nz then NormalizeRune(u, lt[k]) else lt[k]
  }

  /** An alignment of the lower-cased text is one of the normalised text: what the pattern holds where the text
      matches it is normalised already. */
  lemma WholeAligns(u: Unicode, nz: bool, st: seq<int>, lt: seq<int>, sp: seq<int>, f: seq<nat>, a: seq<nat>)
    requires NormalizedFrom(u, nz, st, lt) && IsAlignment(f, st, sp) && IsAlignment(a, lt, sp)
    ensures IsAlignment(a, st, sp)
  {
  }

  lemma GreedyEndsFirst(f: seq<nat>, t: seq<int>, p: seq<int>)
    requires p != [] && |f| == |p| && IsGreedy(f, t, p)
    ensures IsAlignment(f, t, p)
    ensures forall b :: IsAlignment(b, t, p) ==> b[|p| - 1] >= f[|p| - 1]
  {
    forall b | IsAlignment(b, t, p)
      ensures b[|p| - 1] >= f[|p| - 1]
    {
      GreedyIsLeast(f, t, p, b, |p| - 1);
    }
  }

  /** The two passes together, in scan order. */
  lemma FacingWindow(u: Unicode, nz: bool, st: seq<int>, lt: seq<int>, sp: seq<int>, f: seq<nat>, eidx: nat,
                     start: nat, shrink: Shrink)
    requires sp != [] && |f| == |sp| && IsGreedy(f, st, sp) && eidx == f[|sp| - 1] + 1 && NormalizedFrom(u, nz, st, lt)
    requires ShrunkTo(lt, sp, f[0], eidx, start, shrink)
    ensures IsWindow(st, sp, true, start, eidx)
    ensures st == lt ==> IsTightWindow(st, sp, true, start, eidx)
  {
    hide IsGreedy, NormalizedFrom, Increasing;
    GreedyEndsFirst(f, st, sp);
    if shrink.Whole? {
      WholeAligns(u, nz, st, lt, sp, f, shrink.a);
      assert Spans(shrink.a, st, sp, start, eidx);
    } else {
      assert Spans(f, st, sp, start, eidx);
    }
  }

  /** The ends of a mirrored alignment. */
  lemma MirrorEnds(a: seq<nat>, t: seq<int>, p: seq<int>) returns (b: seq<nat>)
    requires IsAlignment(a, t, p) && p != []
    ensures |a| == |b| == |p| && IsAlignment(b, Reversed(t), Reversed(p)) && |Reversed(t)| == |t|
      && |Reversed(p)| == |p|
    ensures a[0] <= a[|p| - 1] < |t| && b[0] == |t| - 1 - a[|p| - 1] && b[|p| - 1] == |t| - 1 - a[0]
  {
    MirrorAligns(a, t, p);
    b := Mirror(a, |t|);
  }

  lemma MirrorStartsBy(t: seq<int>, p: seq<int>, start: nat, end: nat, b: seq<nat>)
    requires p != [] && |Reversed(p)| == |p| && IsWindow(Reversed(t), Reversed(p), true, start, end)
      && IsAlignment(b, t, p)
    ensures |b| == |p| && b[0] <= |t| - end
  {
    hide Reversed, Mirror, IsAlignment;
    var d := MirrorEnds(b, t, p);
  }

  lemma MirrorEndsBy(t: seq<int>, p: seq<int>, start: nat, end: nat, b: seq<nat>)
    requires p != [] && |Reversed(p)| == |p| && IsTightWindow(Reversed(t), Reversed(p), true, start, end)
      && IsAlignment(b, t, p)
    ensures |b| == |p| && (b[0] == |t| - end ==> b[|p| - 1] >= |t| - start - 1)
  {
    hide Reversed, Mirror, IsAlignment;
    var d := MirrorEnds(b, t, p);
  }

  /** A window of the reversed text is, mirrored, a window of the text for the opposite direction. */
  lemma MirrorWindow(t: seq<int>, p: seq<int>, start: nat, end: nat)
    requires p != [] && end <= |t| && IsWindow(Reversed(t), Reversed(p), true, start, end)
    ensures start < end && IsWindow(t, p, false, |t| - end, |t| - start)
  {
    hide Reversed, IsAlignment, IsWindow, StartsBy;
    var c := MirrorHolds(t, p, start, end);
    AllStartBy(t, p, start, end);
    BackwardWindow(t, p, |t| - end, |t| - start, c);
  }

  /** Every alignment begins at `start` or before. */
  ghost predicate StartsBy(t: seq<int>, p: seq<int>, start: int)
    requires p != []
  {
    forall b :: IsAlignment(b, t, p) ==> b[0] <= start
  }

  lemma AllStartBy(t: seq<int>, p: seq<int>, start: nat, end: nat)
    requires p != [] && |Reversed(p)| == |p| && IsWindow(Reversed(t), Reversed(p), true, start, end)
    ensures StartsBy(t, p, |t| - end)
  {
    hide Reversed, IsWindow, IsAlignment;
    forall b | IsAlignment(b, t, p) ensures |b| == |p| && b[0] <= |t| - end {
      MirrorStartsBy(t, p, start, end, b);
    }
  }

  lemma WindowSpan(t: seq<int>, p: seq<int>, forward: bool, start: nat, end: nat) returns (a: seq<nat>)
    requires p != [] && IsWindow(t, p, forward, start, end)
    ensures Spans(a, t, p, start, end)
  {
    a :| Spans(a, t, p, start, end);
  }

  lemma MirrorHolds(t: seq<int>, p: seq<int>, start: nat, end: nat) returns (c: seq<nat>)
    requires p != [] && |Reversed(p)| == |p| && end <= |t| && IsWindow(Reversed(t), Reversed(p), true, start, end)
    ensures start < end && IsAlignment(c, t, p) && |c| == |p| && c[0] == |t| - end && c[|p| - 1] == |t| - start - 1
  {
    hide Reversed, Mirror, IsAlignment, Spans, IsWindow;
    ReversedTwice(t);
    ReversedTwice(p);
    c := SpanMirrored(Reversed(t), Reversed(p), start, end, t, p);
  }

  lemma SpanMirrored(rt: seq<int>, rp: seq<int>, start: nat, end: nat, t: seq<int>, p: seq<int>) returns (c: seq<nat>)
    requires rp != [] && IsWindow(rt, rp, true, start, end) && t == Reversed(rt) && p == Reversed(rp) && end <= |t|
    ensures start < end && IsAlignment(c, t, p) && |c| == |p| == |rp| && c[0] == |t| - end
      && c[|p| - 1] == |t| - start - 1
  {
    hide Reversed, Mirror, IsAlignment, Spans, IsWindow;
    var a := WindowSpan(rt, rp, true, start, end);
    SpanEnds(a, rt, rp, start, end);
    c := MirrorEnds(a, rt, rp);
  }

  lemma SpanEnds(a: seq<nat>, t: seq<int>, p: seq<int>, start: nat, end: nat)
    requires p != [] && Spans(a, t, p, start, end)
    ensures IsAlignment(a, t, p) && |a| == |p| && a[0] == start && a[|p| - 1] == end - 1
  {
  }

  lemma BackwardWindow(t: seq<int>, p: seq<int>, start: nat, end: nat, c: seq<nat>)
    requires p != [] && IsAlignment(c, t, p) && c[0] == start && c[|p| - 1] == end - 1
    requires StartsBy(t, p, start)
    ensures IsWindow(t, p, false, start, end)
  {
    assert Spans(c, t, p, start, end);
  }

  lemma MirrorTightWindow(t: seq<int>, p: seq<int>, start: nat, end: nat)
    requires p != [] && start < end <= |t| && IsTightWindow(Reversed(t), Reversed(p), true, start, end)
    ensures IsTightWindow(t, p, false, |t| - end, |t| - start)
  {
    hide Reversed, Mirror, IsAlignment;
    ReversedTwice(p);
    forall b | IsAlignment(b, t, p) ensures |b| == |p| && (b[0] == |t| - end ==> b[|p| - 1] >= |t| - start - 1) {
      MirrorEndsBy(t, p, start, end, b);
    }
  }

  lemma MirrorSubsequence(t: seq<int>, p: seq<int>)
    requires Subsequence(p, t)
    ensures Subsequence(Reversed(p), Reversed(t))
  {
    var a :| IsAlignment(a, t, p);
    MirrorAligns(a, t, p);
  }

  /** Where the window starts, in scan order: with the latest alignment of the lower-cased text that ends in time, or
      else where the pattern's first rune is first met. */
  ghost predicate StartExplained(st: seq<int>, lt: seq<int>, sp: seq<int>, start: nat, end: nat)
    requires sp != []
  {
    && (forall a :: IsAlignment(a, lt, sp) && a[|sp| - 1] < end ==> a[0] <= start)
    && ((exists a :: IsAlignment(a, lt, sp) && a[0] == start && a[|sp| - 1] < end)
        || (start < |st| && st[start] == sp[0] && Absent(sp[0], st, 0, start)))
  }

  lemma ShrunkExplains(st: seq<int>, lt: seq<int>, sp: seq<int>, f: seq<nat>, eidx: nat, start: nat, shrink: Shrink)
    requires sp != [] && |f| == |sp| && IsGreedy(f, st, sp) && ShrunkTo(lt, sp, f[0], eidx, start, shrink)
    ensures StartExplained(st, lt, sp, start, eidx)
  {
    TightAt(f, st, sp, 0);
    assert f[..0] == [];
  }

  /** No alignment ends before `b`. */
  ghost predicate EndsFirst(b: seq<nat>, st: seq<int>, sp: seq<int>)
    requires sp != [] && |b| == |sp|
  {
    forall c :: IsAlignment(c, st, sp) ==> b[|sp| - 1] <= c[|sp| - 1]
  }

  /** Every alignment that ends first either begins where the pattern's first rune is first met, or the text without
      normalisation holds one within its bounds. */
  ghost predicate ReadsTight(st: seq<int>, lt: seq<int>, sp: seq<int>)
    requires sp != []
  {
    forall b :: IsAlignment(b, st, sp) && EndsFirst(b, st, sp) ==>
      Absent(sp[0], st, 0, b[0]) || HoldsWithin(lt, sp, b[0], b[|sp| - 1])
  }

  ghost predicate HoldsWithin(lt: seq<int>, sp: seq<int>, first: nat, last: nat)
    requires sp != []
  {
    exists a :: IsAlignment(a, lt, sp) && first <= a[0] && a[|sp| - 1] <= last
  }

  /** Exactly then is the window of the two passes the tightest. */
  lemma TightIff(st: seq<int>, lt: seq<int>, sp: seq<int>, start: nat, end: nat)
    requires sp != [] && IsWindow(st, sp, true, start, end) && StartExplained(st, lt, sp, start, end)
    ensures IsTightWindow(st, sp, true, start, end) <==> ReadsTight(st, lt, sp)
  {
  }

  /** The windows of a text backward are those of the reversed text. */
  lemma MirrorBack(t: seq<int>, p: seq<int>, start: nat, end: nat)
    requires p != [] && start < end <= |t| && IsWindow(t, p, false, |t| - end, |t| - start)
    ensures IsWindow(Reversed(t), Reversed(p), true, start, end)
    ensures IsTightWindow(t, p, false, |t| - end, |t| - start) ==>
      IsTightWindow(Reversed(t), Reversed(p), true, start, end)
  {
    hide Reversed, Mirror, IsAlignment;
    var v := MirrorSpan(t, p, start, end);
    forall b | IsAlignment(b, Reversed(t), Reversed(p))
      ensures |b| == |p| && b[|p| - 1] >= end - 1
      ensures IsTightWindow(t, p, false, |t| - end, |t| - start) && b[|p| - 1] == end - 1 ==> b[0] <= start
    {
      MirrorBounds(t, p, start, end, b);
    }
  }

  lemma MirrorSpan(t: seq<int>, p: seq<int>, start: nat, end: nat) returns (v: seq<nat>)
    requires p != [] && start < end <= |t| && IsWindow(t, p, false, |t| - end, |t| - start)
    ensures |Reversed(p)| == |p| && Spans(v, Reversed(t), Reversed(p), start, end)
  {
    hide Reversed, Mirror, IsAlignment, IsWindow;
    var w := WindowSpan(t, p, false, |t| - end, |t| - start);
    v := MirrorEnds(w, t, p);
  }

  lemma MirrorBounds(t: seq<int>, p: seq<int>, start: nat, end: nat, b: seq<nat>)
    requires p != [] && start < end <= |t| && IsWindow(t, p, false, |t| - end, |t| - start)
    requires |Reversed(p)| == |p| && IsAlignment(b, Reversed(t), Reversed(p))
    ensures |b| == |p| && b[|p| - 1] >= end - 1
    ensures IsTightWindow(t, p, false, |t| - end, |t| - start) && b[|p| - 1] == end - 1 ==> b[0] <= start
  {
    hide Reversed, Mirror, IsAlignment, Spans;
    ReversedTwice(t);
    ReversedTwice(p);
    var d := MirrorEnds(b, Reversed(t), Reversed(p));
  }

  /** When the window is the tightest: exactly if the tightest alignments can be read without normalising. */
  lemma TightExactlyIf(u: Unicode, cs: bool, nz: bool, forward: bool, text: seq<Rune>, pattern: seq<Rune>,
                       withPos: bool, r: MatchResult, pos: Option<set<nat>>)
    requires pattern != [] && V1Match(u, cs, nz, forward, text, pattern, withPos, r, pos)
    ensures var t, lt := FoldTextV1(u, cs, nz, text), LowerText(u, cs, text);
      IsTightWindow(t, pattern, forward, r.start, r.end)
      <==> ReadsTight(Facing(t, forward), Facing(lt, forward), Facing(pattern, forward))
  {
    hide FoldTextV1, LowerText, Facing, FzfScore.TallyTo, ReadsTight, StartExplained, IsWindow, IsTightWindow,
      IsAlignment;
    var n := |text|;
    TightFacing(FoldTextV1(u, cs, nz, text), LowerText(u, cs, text), pattern, forward,
                if forward then r.start else n - r.end, if forward then r.end else n - r.start);
  }

  /** The same in the text's own direction. */
  lemma TightFacing(t: seq<int>, lt: seq<int>, p: seq<int>, forward: bool, start: nat, end: nat)
    requires p != [] && start < end <= |t| && Facing(p, forward) != []
    requires IsWindow(t, p, forward, if forward then start else |t| - end, if forward then end else |t| - start)
    requires StartExplained(Facing(t, forward), Facing(lt, forward), Facing(p, forward), start, end)
    ensures IsTightWindow(t, p, forward, if forward then start else |t| - end, if forward then end else |t| - start)
       <==> ReadsTight(Facing(t, forward), Facing(lt, forward), Facing(p, forward))
  {
    hide ReadsTight, StartExplained, IsWindow, IsTightWindow, Reversed;
    if !forward {
      MirrorBack(t, p, start, end);
      if IsTightWindow(Reversed(t), Reversed(p), true, start, end) {
        MirrorTightWindow(t, p, start, end);
      }
    }
    TightIff(Facing(t, forward), Facing(lt, forward), Facing(p, forward), start, end);
  }

  /** Where normalisation changes the text, the window need not be tight: in `a`, `a` with an accent, `b` the pattern
      `ab` is matched from the first letter on although it is there from the second. */
  lemma AccentsWidenTheWindow(r: MatchResult, pos: Option<set<nat>>)
    requires V1Spec(ACCENTED, false, true, true, [97, 225, 98], [97, 98], false, r, pos)
    ensures r.start == 0 && r.end == 3
    ensures !IsTightWindow(FoldTextV1(ACCENTED, false, true, [97, 225, 98]), [97, 98], true, r.start, r.end)
  {
    hide FzfScore.TallyTo, FoldTextV1, LowerText, IsTightWindow, IsWindow, StartExplained, IsAlignment,
      NormalizationIdle;
    AccentedText();
    AccentedMatches();
    WideWindow(r.start, r.end);
  }

  lemma AccentedText()
    ensures FoldTextV1(ACCENTED, false, true, [97, 225, 98]) == [97, 97, 98]
    ensures LowerText(ACCENTED, false, [97, 225, 98]) == [97, 225, 98]
  {
  }

  lemma AccentedMatches()
    ensures Subsequence([97, 98], [97, 97, 98])
  {
    assert IsAlignment([0, 2], [97, 97, 98], [97, 98]);
  }

  lemma WideWindow(start: nat, end: nat)
    requires IsWindow([97, 97, 98], [97, 98], true, start, end)
    requires StartExplained([97, 97, 98], [97, 225, 98], [97, 98], start, end)
    ensures start == 0 && end == 3
    ensures !IsTightWindow([97, 97, 98], [97, 98], true, start, end)
  {
    assert IsAlignment([0, 2], [97, 97, 98], [97, 98]) && IsAlignment([1, 2], [97, 97, 98], [97, 98]);
  }

  /** Lower case is as is, and one accented letter has a plain one. */
  const ACCENTED := Unicode(_ => 1, r => r, r => if r == 225 then Some(97) else None)

  /** What a V1 match of a nonempty pattern is: the window of the scan, tight where normalisation is idle, and
      the greedy positions in it, with the score of those positions. */
  ghost predicate V1Match(u: Unicode, cs: bool, nz: bool, forward: bool, text: seq<Rune>, pattern: seq<Rune>,
                          withPos: bool, r: MatchResult, pos: Option<set<nat>>)
    requires pattern != []
  {
    var t, m := FoldTextV1(u, cs, nz, text), |pattern|;
    && 0 <= r.start < r.end <= |text|
    && IsWindow(t, pattern, forward, r.start, r.end)
    && (NormalizationIdle(u, cs, nz, text) ==> IsTightWindow(t, pattern, forward, r.start, r.end))
    && StartExplained(Facing(t, forward), Facing(LowerText(u, cs, text), forward), Facing(pattern, forward),
                      if forward then r.start else |text| - r.end, if forward then r.end else |text| - r.start)
    && var y := FzfScore.TallyTo(u, text, t, pattern, r.start, r.end);
       && r.score == y.score <= ScoreCap(m)
       && IsAlignment(y.found, t, pattern) && y.found[0] == r.start
       && (y.found[m - 1] == r.end - 1 <==> forward || IsTightWindow(t, pattern, forward, r.start, r.end))
       && pos == if withPos then Some(FzfBacktrace.Elements(y.found)) else None
  }

  ghost predicate V1Spec(u: Unicode, cs: bool, nz: bool, forward: bool, text: seq<Rune>, pattern: seq<Rune>,
                         withPos: bool, r: MatchResult, pos: Option<set<nat>>)
  {
    if pattern == [] then r == MatchResult(0, 0, 0) && pos == None
    else if !Subsequence(pattern, FoldTextV1(u, cs, nz, text)) then r == MatchResult(-1, -1, 0) && pos == None
    else V1Match(u, cs, nz, forward, text, pattern, withPos, r, pos)
  }

  /** The score and the positions of a window. */
  lemma WindowIsScored(u: Unicode, cs: bool, nz: bool, forward: bool, text: seq<Rune>, pattern: seq<Rune>, start: nat,
                       end: nat)
    requires pattern != [] && start < end <= |text|
    requires IsWindow(FoldTextV1(u, cs, nz, text), pattern, forward, start, end)
    ensures
      var t := FoldTextV1(u, cs, nz, text);
      var y := FzfScore.TallyTo(u, text, t, pattern, start, end);
      && y.score <= ScoreCap(|pattern|)
      && IsAlignment(y.found, t, pattern) && y.found[0] == start
      && (y.found[|pattern| - 1] == end - 1 <==> forward || IsTightWindow(t, pattern, forward, start, end))
  {
    hide FzfScore.TallyTo, FoldTextV1;
    var t, m := FoldTextV1(u, cs, nz, text), |pattern|;
    var a :| IsAlignment(a, t, pattern) && a[0] == start && a[m - 1] == end - 1;
    FzfScore.TallyFindsAll(u, text, t, pattern, start, end, a);
    FzfScore.TallyCapped(u, text, t, pattern, start, end);
    forall b | !forward && IsAlignment(b, t, pattern) && b[0] == start && b[m - 1] < end - 1
      ensures FzfScore.TallyTo(u, text, t, pattern, start, end).found[m - 1] <= b[m - 1]
    {
      FzfScore.TallyFindsAll(u, text, t, pattern, start, end, b);
    }
  }

  lemma PrefilterAdmits(u: Unicode, cs: bool, nz: bool, text: seq<Rune>, pattern: seq<Rune>, idx: int)
    requires pattern != [] && FzfPrefilter.IsSound(cs, text, pattern, idx)
    ensures FzfPrefilter.Admits(idx, FoldTextV1(u, cs, nz, text), pattern)
  {
  }

  lemma FacingShows(u: Unicode, cs: bool, nz: bool, text: seq<Rune>, pattern: seq<Rune>, forward: bool)
    ensures Shows(Facing(FoldTextV1(u, cs, nz, text), forward), u, cs, nz, text, forward)
    ensures Shows(Facing(LowerText(u, cs, text), forward), u, cs, false, text, forward)
    ensures PatternShown(Facing(pattern, forward), pattern, forward)
  {
  }

  lemma FacingSubsequence(t: seq<int>, p: seq<int>, forward: bool)
    ensures Subsequence(p, t) <==> Subsequence(Facing(p, forward), Facing(t, forward))
  {
    if !forward {
      if Subsequence(p, t) {
        MirrorSubsequence(t, p);
      }
      if Subsequence(Reversed(p), Reversed(t)) {
        MirrorSubsequence(Reversed(t), Reversed(p));
        ReversedTwice(t);
        ReversedTwice(p);
      }
    }
  }

  /** The two foldings in scan order: one is the other, normalised. */
  lemma FacingFolds(u: Unicode, cs: bool, nz: bool, text: seq<Rune>, forward: bool)
    ensures var st, lt := Facing(FoldTextV1(u, cs, nz, text), forward), Facing(LowerText(u, cs, text), forward);
      && NormalizedFrom(u, nz, st, lt)
      && (NormalizationIdle(u, cs, nz, text) ==> st == lt)
  {
  }

  /** From the two passes to the window in the text's own direction. */
  lemma WindowFromPasses(u: Unicode, cs: bool, nz: bool, forward: bool, text: seq<Rune>, pattern: seq<Rune>,
                         f: seq<nat>, eidx: nat, start: nat, shrink: Shrink)
    requires pattern != [] && |f| == |pattern| && eidx == f[|f| - 1] + 1
    requires IsGreedy(f, Facing(FoldTextV1(u, cs, nz, text), forward), Facing(pattern, forward))
    requires ShrunkTo(Facing(LowerText(u, cs, text), forward), Facing(pattern, forward), f[0], eidx, start, shrink)
    ensures start < eidx <= |text|
    ensures
      var t := FoldTextV1(u, cs, nz, text);
      var (s, e) := if forward then (start, eidx) else (|text| - eidx, |text| - start);
      && IsWindow(t, pattern, forward, s, e)
      && (NormalizationIdle(u, cs, nz, text) ==> IsTightWindow(t, pattern, forward, s, e))
    ensures Subsequence(pattern, FoldTextV1(u, cs, nz, text))
  {
    hide FoldTextV1, LowerText, Facing, IsGreedy, ShrunkTo, NormalizedFrom, NormalizationIdle, IsWindow, IsTightWindow,
      Subsequence, Reversed;
    var t := FoldTextV1(u, cs, nz, text);
    var st, lt, sp := Facing(t, forward), Facing(LowerText(u, cs, text), forward), Facing(pattern, forward);
    FacingFolds(u, cs, nz, text, forward);
    FacingWindow(u, nz, st, lt, sp, f, eidx, start, shrink);
    WindowInside(st, sp, start, eidx);
    FacingIs(t, forward);
    FacingIs(pattern, forward);
    if !forward {
      MirrorWindow(t, pattern, start, eidx);
      if NormalizationIdle(u, cs, nz, text) {
        MirrorTightWindow(t, pattern, start, eidx);
      }
    }
    FacingSubsequence(t, pattern, forward);
  }

  lemma FacingIs(s: seq<int>, forward: bool)
    ensures Facing(s, forward) == if forward then s else Reversed(s)
  {
  }

  lemma WindowInside(t: seq<int>, p: seq<int>, start: nat, end: nat)
    requires p != [] && IsWindow(t, p, true, start, end)
    ensures start < end <= |t| && Subsequence(p, t)
  {
  }

  method FuzzyMatchV1(u: Unicode, cs: bool, nz: bool, forward: bool, text: seq<Rune>, pattern: seq<Rune>, withPos: bool)
    returns (r: MatchResult, pos: Option<set<nat>>)
    ensures V1Spec(u, cs, nz, forward, text, pattern, withPos, r, pos)
  {
    hide FoldTextV1, LowerText, Facing, IsWindow, IsTightWindow, StartExplained, FzfScore.TallyTo, Shows, PatternShown,
      IsGreedy, Subsequence, IsAlignment;
    if pattern == [] {
      return MatchResult(0, 0, 0), None;
    }
    ghost var t := FoldTextV1(u, cs, nz, text);
    var idx := FzfPrefilter.AsciiFuzzyIndex(text, pattern, cs);
    PrefilterAdmits(u, cs, nz, text, pattern, idx);
    if idx < 0 {
      return MatchResult(-1, -1, 0), None;
    }
    ghost var st, lt, sp := Facing(t, forward), Facing(LowerText(u, cs, text), forward), Facing(pattern, forward);
    FacingShows(u, cs, nz, text, pattern, forward);
    var sidx, eidx, f := EarliestEnd(u, cs, nz, forward, text, pattern, st, sp);
    if eidx < 0 {
      FacingSubsequence(t, pattern, forward);
      return MatchResult(-1, -1, 0), None;
    }
    assert sidx >= 0;
    var start, shrink := TightenStart(u, cs, forward, text, pattern, sidx, eidx, lt, sp);
    WindowFromPasses(u, cs, nz, forward, text, pattern, f, eidx, start, shrink);
    ShrunkExplains(st, lt, sp, f, eidx, start, shrink);
    var end := eidx;
    if !forward {
      start, end := |text| - eidx, |text| - start;
    }
    WindowIsScored(u, cs, nz, forward, text, pattern, start, end);
    var score;
    score, pos := FzfScore.CalculateScore(u, cs, nz, text, pattern, start, end, withPos);
    r := MatchResult(start, end, score);
  }
}
