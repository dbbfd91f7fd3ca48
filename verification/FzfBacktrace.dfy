/** The backtrace of `fuzzyMatchV2`: from the best cell of the last row to a full alignment
    (src/utils/scripts/fzf.js:572-598). */
module FzfBacktrace {
  import opened FzfRunes
  import opened Alignments
  import opened FzfSlab
  import opened FzfTables
  import opened FzfRows

  function Elements(a: seq<nat>): set<nat> {
    set x | x in a
  }

  /** `pos` are the positions of an alignment that begins at `start` and ends just before `end`. */
  ghost predicate AlignedBy(t: seq<Rune>, p: seq<Rune>, pos: set<nat>, start: int, end: int)
    requires p != []
  {
    exists a: seq<nat> :: IsAlignment(a, t, p) && pos == Elements(a) && a[0] == start && a[|a| - 1] == end - 1
  }

  /** Row `i` of tables with rows of `width` cells is complete. */
  ghost predicate RowAt(hs: seq<int>, rs: seq<int>, q: Table, width: nat, i: nat, to: nat)
    requires q.Valid() && i < |q.p| && to <= |q.t|
  {
    RowDone(hs, rs, q, i * width - q.f[0], i, to)
  }

  /** The rows below `i` are complete. */
  ghost predicate AllRows(hs: seq<int>, rs: seq<int>, q: Table, width: nat, i: nat, to: nat)
    requires q.Valid() && i <= |q.p| && to <= |q.t|
  {
    forall k {:trigger RowAt(hs, rs, q, width, k, to)} :: 0 <= k < i ==> RowAt(hs, rs, q, width, k, to)
  }

  /** `a` aligns the pattern runes behind index `i`, all of them behind position `j`. */
  ghost predicate AlignsRest(a: seq<nat>, q: Table, i: nat, j: nat) {
    match q
    case Table(t, b, p, f) =>
      && i < |p| && |a| == |p| - 1 - i && Increasing(a)
      && (forall k :: 0 <= k < |a| ==> j < a[k] < |t| && t[a[k]] == p[i + 1 + k])
  }

  lemma AlignsOneMore(a: seq<nat>, q: Table, i: nat, j: nat)
    requires AlignsRest(a, q, i, j) && j < |q.t| && q.t[j] == q.p[i]
    ensures i == 0 ==> IsAlignment([j] + a, q.t, q.p)
    ensures i > 0 && j > 0 ==> AlignsRest([j] + a, q, i - 1, j - 1)
    ensures Elements([j] + a) == Elements(a) + {j}
  {
  }

  lemma {:induction false} RowOffset(i: nat, m: nat, width: nat)
    requires i < m
    ensures 0 <= i * width && i * width + width <= m * width
    ensures i > 0 ==> (i - 1) * width + width == i * width
    decreases m - i
  {
    assert (i + 1) * width == i * width + width;
    if i + 1 < m {
      RowOffset(i + 1, m, width);
    }
  }

  /** The stored scores around cell `(i, j)` are the table's. */
  lemma StoredScores(hs: seq<int>, rs: seq<int>, q: Table, width: nat, i: nat, j: nat, lastIdx: nat)
    requires q.Valid() && i < |q.p| && q.f[i] <= j <= lastIdx < |q.t| && width == lastIdx - q.f[0] + 1
    requires RowAt(hs, rs, q, width, i, lastIdx + 1) && (i > 0 ==> RowAt(hs, rs, q, width, i - 1, lastIdx + 1))
    requires |hs| == |rs| == |q.p| * width
    ensures var at := i * width + j - q.f[0];
      && 0 <= at < |hs| && hs[at] == Score(q, i, j)
      && (i > 0 ==> 0 < at - width && hs[at - width - 1] == DiagonalScore(q, i, j))
      && (j > q.f[i] ==> 0 < at && hs[at - 1] == LeftScore(q, i, j))
  {
    hide Cell, Tight;
    RowOffset(i, |q.p|, width);
    IncreasingAbove(q.f, i);
    var base := i * width - q.f[0];
    assert EntryAt(hs, base, j) == hs[base + j];
    if j > q.f[i] {
      assert EntryAt(hs, base, j - 1) == Cell(q, i, j - 1).score;
    }
    if i > 0 {
      IncreasingAbove(q.f, i - 1);
      assert EntryAt(hs, base - width, j - 1) == Cell(q, i - 1, j - 1).score;
    }
  }

  /** Whether the backtrace takes position `j` for pattern index `i`: the comparison of the three stored scores. */
  method Decide(ghost q: Table, i: nat, j: nat, width: nat, f0: nat, ghost lastIdx: nat, s: Rows, preferMatch: bool)
    returns (take: bool)
    requires q.Valid() && i < |q.p| && q.f[i] <= j <= lastIdx < |q.t| && width == lastIdx - q.f[0] + 1 && f0 == q.f[0]
    requires s.Valid(|q.t|, |q.p|, |q.p| * width) && s.F.Cells() == q.f
    requires RowAt(s.H.Cells(), s.C.Cells(), q, width, i, lastIdx + 1)
    requires i > 0 ==> RowAt(s.H.Cells(), s.C.Cells(), q, width, i - 1, lastIdx + 1)
    ensures take == Takes(q, i, j, preferMatch)
  {
    hide Cell, Tight, View.Cells, RowAt;
    RowOffset(i, |q.p|, width);
    StoredScores(s.H.Cells(), s.C.Cells(), q, width, i, j, lastIdx);
    var row, j0 := i * width, j - f0;
    var here := s.H.At(row + j0);
    var s1, s2 := 0, 0;
    var fi := s.F.At(i);
    if i > 0 && j >= fi {
      s1 := s.H.At(row - width + j0 - 1);
    }
    if j > fi {
      s2 := s.H.At(row + j0 - 1);
    }
    take := here > s1 && (here > s2 || (here == s2 && preferMatch));
  }

  /** The preference for the next step; it may read cells no row of this call has written. */
  method NextPreference(i: nat, j0: nat, m: nat, width: nat, C: View) returns (preferMatch: bool)
    requires C.Valid() && C.len == m * width && i < m && j0 < width
  {
    RowOffset(i, m, width);
    var at := i * width + j0;
    var run := C.At(at);
    preferMatch := run > 1;
    if !preferMatch && at + width + 1 < C.len {
      var below := C.At(at + width + 1);
      preferMatch := below > 0;
    }
  }

  /** What holds each time the backtrace looks at position `j` for pattern index `i`. */
  ghost predicate TraceInv(q: Table, lastIdx: nat, bestPos: nat, i: nat, j: nat, a: seq<nat>, pos: set<nat>,
                           preferMatch: bool)
    requires q.Valid()
  {
    match q
    case Table(t, b, p, f) =>
      && i < |p| && f[0] <= f[i] <= j <= lastIdx
      && AlignsRest(a, q, i, j) && pos == Elements(a)
      && if a == [] then i == |p| - 1 && j == bestPos && preferMatch else a[|a| - 1] == bestPos
  }

  lemma TraceTaken(q: Table, lastIdx: nat, bestPos: nat, i: nat, j: nat, a: seq<nat>, pos: set<nat>, prefer: bool,
                   prefer': bool)
    requires q.Valid() && lastIdx < |q.t| && TraceInv(q, lastIdx, bestPos, i, j, a, pos, prefer)
      && Takes(q, i, j, prefer)
    ensures i == 0 ==> AlignedBy(q.t, q.p, pos + {j}, j, bestPos + 1)
    ensures i > 0 ==> j > 0 && TraceInv(q, lastIdx, bestPos, i - 1, j - 1, [j] + a, pos + {j}, prefer')
  {
    hide Cell, Tight, Takes;
    TakenMatches(q, i, j, prefer);
    AlignsOneMore(a, q, i, j);
    assert i > 0 ==> q.f[0] <= q.f[i - 1] < q.f[i];
    assert ([j] + a)[|a|] == bestPos;
  }

  lemma TracePassed(q: Table, forward: bool, lastIdx: nat, score: int, bestPos: nat, i: nat, j: nat, a: seq<nat>,
                    pos: set<nat>, prefer: bool, prefer': bool)
    requires q.Valid() && lastIdx < |q.t| && TraceInv(q, lastIdx, bestPos, i, j, a, pos, prefer)
      && !Takes(q, i, j, prefer)
    requires IsBest(q, forward, lastIdx + 1, score, bestPos)
    ensures j > 0 && TraceInv(q, lastIdx, bestPos, i, j - 1, a, pos, prefer')
  {
    hide Cell, Tight, Takes;
    BestIsTaken(q, forward, lastIdx + 1, score, bestPos);
    FirstIsTaken(q, i, prefer);
  }

  lemma TraceStart(q: Table, forward: bool, lastIdx: nat, score: int, bestPos: nat)
    requires q.Valid() && lastIdx < |q.t| && IsBest(q, forward, lastIdx + 1, score, bestPos)
    ensures TraceInv(q, lastIdx, bestPos, |q.p| - 1, bestPos, [], {}, true)
  {
  }

  method Backtrace(ghost q: Table, m: nat, ghost forward: bool, width: nat, f0: nat, ghost lastIdx: nat, s: Rows,
                   ghost score: int, bestPos: nat)
    returns (start: nat, pos: set<nat>)
    requires q.Valid() && m == |q.p| && f0 == q.f[0] && lastIdx < |q.t| && width == lastIdx - f0 + 1
    requires s.Valid(|q.t|, m, m * width) && s.F.Cells() == q.f
    requires AllRows(s.H.Cells(), s.C.Cells(), q, width, m, lastIdx + 1)
    requires IsBest(q, forward, lastIdx + 1, score, bestPos)
    ensures AlignedBy(q.t, q.p, pos, start, bestPos + 1)
  {
    hide Cell, Tight, View.Cells, RowAt, Takes, View.Disjoint, AlignsRest, Elements, AlignedBy;
    pos := {};
    var i: nat := m - 1;
    var j: nat := bestPos;
    var preferMatch := true;
    ghost var a: seq<nat> := [];
    TraceStart(q, forward, lastIdx, score, bestPos);
    while true
      invariant TraceInv(q, lastIdx, bestPos, i, j, a, pos, preferMatch)
      decreases j
    {
      var take := Decide(q, i, j, width, f0, lastIdx, s, preferMatch);
      var prefer := NextPreference(i, j - f0, m, width, s.C);
      if take {
        TraceTaken(q, lastIdx, bestPos, i, j, a, pos, preferMatch, prefer);
        pos := pos + {j};
        a := [j] + a;
        if i == 0 {
          return j, pos;
        }
        i := i - 1;
      } else {
        TracePassed(q, forward, lastIdx, score, bestPos, i, j, a, pos, preferMatch, prefer);
      }
      preferMatch := prefer;
      j := j - 1;
    }
  }
}
