/** `fuzzyMatchV2` as a whole: gate, prefilter, allocation from the slab, scan, rows and backtrace
    (src/utils/scripts/fzf.js:420-599). */
module FzfMatchV2 {
  import opened Wrappers
  import opened FzfRunes
  import opened Alignments
  import opened FzfSlab
  import opened FzfTables
  import opened FzfRows
  import opened FzfBacktrace
  import FzfPrefilter
  import FzfMatchV1
  import FzfScan

  type MatchResult = FzfMatchV1.MatchResult

  const NO_MATCH := FzfMatchV1.MatchResult(-1, -1, 0)

  /** A V2 match of a nonempty pattern: the best score of the last table row, ending where that score is first
      met in scan direction, and with positions an alignment that begins and ends with the match. */
  ghost predicate V2Match(q: Table, forward: bool, withPos: bool, r: MatchResult, pos: Option<set<nat>>)
    requires q.Valid()
  {
    && 0 <= r.start < r.end <= |q.t|
    && IsBest(q, forward, |q.t|, r.score, r.end - 1)
    && match pos
       case Some(positions) => withPos && AlignedBy(q.t, q.p, positions, r.start, r.end)
       case None => !withPos && r.start == if |q.p| == 1 then r.end - 1 else q.f[0]
  }

  ghost predicate V2Spec(u: Unicode, cs: bool, nz: bool, forward: bool, input: seq<Rune>, pattern: seq<Rune>,
                         withPos: bool, r: MatchResult, pos: Option<set<nat>>, q: Table)
    requires pattern != []
  {
    if Subsequence(pattern, FoldTextV2(u, cs, nz, input)) then
      && FzfScan.About(q, u, cs, nz, input) && q.t == FoldTextV2(u, cs, nz, input) && q.p == pattern && q.Valid()
      && V2Match(q, forward, withPos, r, pos)
    else r == NO_MATCH && pos == None
  }

  /** Every score is positive and within what an exact match is awarded. */
  lemma MatchScoreBounds(q: Table, forward: bool, withPos: bool, r: MatchResult, pos: Option<set<nat>>)
    requires q.Valid() && V2Match(q, forward, withPos, r, pos)
    ensures SCORE_MATCH <= r.score <= ScoreCap(|q.p|)
  {
    BestIsPositive(q, forward, |q.t|, r.score, r.end - 1);
  }

  /** Behind the gate the cap, and with it every table entry, fits an Int16 with room to spare. */
  lemma GateBoundsScores(n: nat, m: nat)
    requires m <= n && n * m <= SLAB_16_SIZE
    ensures ScoreCap(m) <= 7688 < 0x8000
  {
  }

  /** The five views of the scan never overlap, whether they come from the slab or are new. */
  method AllocateScratch(slab16: array<int>, slab32: array<int>, n: nat, m: nat)
    returns (s: FzfScan.Scratch, offset16: nat)
    requires slab16 != slab32
    ensures s.Valid(n, m)
    ensures s.T.buf == slab32 || fresh(s.T.buf)
    ensures s.F.buf == slab32 || fresh(s.F.buf)
    ensures s.B.buf == slab16 || fresh(s.B.buf)
    ensures s.H0.buf == slab16 || fresh(s.H0.buf)
    ensures s.C0.buf == slab16 || fresh(s.C0.buf)
    ensures BelowOffset(s, slab16, offset16)
  {
    var offset32 := 0;
    offset16 := 0;
    var H0, C0, B, F, T;
    offset16, H0 := Alloc(offset16, slab16, n);
    offset16, C0 := Alloc(offset16, slab16, n);
    offset16, B := Alloc(offset16, slab16, n);
    offset32, F := Alloc(offset32, slab32, m);
    offset32, T := Alloc(offset32, slab32, n);
    s := FzfScan.Scratch(T, B, H0, C0, F);
  }

  /** The first row as the scan left it, seen from the start of the window. */
  lemma FirstRowDone(g: FzfScan.Contents, q: Table, idx: nat, lastIdx: nat, hs: seq<int>, rs: seq<int>, width: nat)
    requires q.Valid() && |q.p| >= 2 && idx <= q.f[0] <= lastIdx < |q.t| && width == lastIdx - q.f[0] + 1
    requires |g.ts| == |g.bs| == |g.hs| == |g.rs| == |q.t| && FzfScan.Scanned(g, q, idx, |q.t|)
    requires |hs| == |rs| && width <= |hs|
    requires hs[..width] == g.hs[q.f[0]..q.f[0] + width] && rs[..width] == g.rs[q.f[0]..q.f[0] + width]
    ensures AllRows(hs, rs, q, width, 1, lastIdx + 1)
  {
    hide Tight, Row0;
    var base: int := 0 * width - q.f[0];
    forall j | q.f[0] <= j < lastIdx + 1
      ensures EntryAt(hs, base, j) == Cell(q, 0, j).score && EntryAt(rs, base, j) == Cell(q, 0, j).run
    {
      assert hs[..width][j - q.f[0]] == g.hs[j] && rs[..width][j - q.f[0]] == g.rs[j];
    }
  }

  /** The scanned values fit an Int16Array. */
  lemma ScannedFits(g: FzfScan.Contents, q: Table, idx: nat)
    requires q.Valid() && |g.ts| == |g.bs| == |g.hs| == |g.rs| == |q.t| && FzfScan.Scanned(g, q, idx, |q.t|)
    ensures forall i :: idx <= i < |q.t| ==> -0x8000 <= g.hs[i] < 0x8000 && -0x8000 <= g.rs[i] < 0x8000
  {
    hide Tight, Row0;
    forall i | idx <= i < |q.t|
      ensures -0x8000 <= g.hs[i] < 0x8000 && -0x8000 <= g.rs[i] < 0x8000
    {
      Row0Bounds(q, i);
    }
  }

  /** Earlier rows survive the computation of row `i`. */
  lemma RowsSurvive(hs: seq<int>, rs: seq<int>, hs': seq<int>, rs': seq<int>, q: Table, width: nat, i: nat, to: nat)
    requires q.Valid() && i < |q.p| && q.f[0] < to <= |q.t| && width == to - q.f[0]
    requires |hs| == |rs| == |hs'| == |rs'| == |q.p| * width && i * width <= |hs|
    requires hs[..i * width] == hs'[..i * width] && rs[..i * width] == rs'[..i * width]
    requires AllRows(hs, rs, q, width, i, to) && RowAt(hs', rs', q, width, i, to)
    ensures AllRows(hs', rs', q, width, i + 1, to)
  {
    hide RowDone, Tight;
    forall k | 0 <= k < i
      ensures RowAt(hs', rs', q, width, k, to)
    {
      assert RowAt(hs, rs, q, width, k, to);
      RowOffset(k, i, width);
      RowSurvives(hs, rs, hs', rs', q, k * width - q.f[0], k, to, i * width);
    }
  }

  /** Row `i`, at its place behind the rows before it. */
  method FillNext(ghost q: Table, m: nat, i: nat, pchar: Rune, forward: bool, width: nat, f0: nat, lastIdx: nat,
                  s: Rows, best: int, bestPos: nat)
    returns (best': int, bestPos': nat)
    requires q.Valid() && m == |q.p| && 1 <= i < m && pchar == q.p[i] && f0 == q.f[0] && q.f[i] <= lastIdx < |q.t|
    requires width == lastIdx - f0 + 1 && ScoreCap(m) < 0x8000
    requires s.Valid(|q.t|, m, m * width) && s.F.Cells() == q.f
    requires s.T.Cells()[f0..] == q.t[f0..] && s.B.Cells()[f0..] == q.b[f0..]
    requires AllRows(s.H.Cells(), s.C.Cells(), q, width, i, lastIdx + 1)
    requires i == m - 1 ==> best == 0
    modifies s.H.buf, s.C.buf
    ensures AllRows(s.H.Cells(), s.C.Cells(), q, width, i + 1, lastIdx + 1)
    ensures if i == m - 1 then IsBest(q, forward, lastIdx + 1, best', bestPos')
      else best' == best && bestPos' == bestPos
    ensures s.T.Cells() == old(s.T.Cells()) && s.B.Cells() == old(s.B.Cells()) && s.F.Cells() == old(s.F.Cells())
  {
    hide Tight, View.Cells, RowDone, View.Disjoint, Cell, IsBest, ScoreCap, Table.BonusesOk;
    ghost var hs, rs := s.H.Cells(), s.C.Cells();
    var f := s.F.At(i);
    IncreasingAbove(q.f, i);
    RowOffset(i, m, width);
    assert RowAt(hs, rs, q, width, i - 1, lastIdx + 1);
    var w := Window(i * width, width, f0, lastIdx);
    best', bestPos' := FillRow(q, forward, i == m - 1, i, f, w, pchar, s, best, bestPos);
    RowsSurvive(hs, rs, s.H.Cells(), s.C.Cells(), q, width, i, lastIdx + 1);
  }

  method FillRows(ghost q: Table, pattern: seq<Rune>, forward: bool, width: nat, f0: nat, lastIdx: nat, s: Rows)
    returns (best: int, bestPos: nat)
    requires q.Valid() && pattern == q.p && 2 <= |q.p| && f0 == q.f[0] && q.f[|q.p| - 1] <= lastIdx < |q.t|
    requires width == lastIdx - f0 + 1 && ScoreCap(|q.p|) < 0x8000
    requires s.Valid(|q.t|, |q.p|, |q.p| * width) && s.F.Cells() == q.f
    requires s.T.Cells()[f0..] == q.t[f0..] && s.B.Cells()[f0..] == q.b[f0..]
    requires AllRows(s.H.Cells(), s.C.Cells(), q, width, 1, lastIdx + 1)
    modifies s.H.buf, s.C.buf
    ensures AllRows(s.H.Cells(), s.C.Cells(), q, width, |q.p|, lastIdx + 1)
    ensures IsBest(q, forward, lastIdx + 1, best, bestPos)
    ensures s.T.Cells() == old(s.T.Cells()) && s.B.Cells() == old(s.B.Cells()) && s.F.Cells() == old(s.F.Cells())
  {
    hide Tight, View.Cells, AllRows, View.Disjoint, IsBest, ScoreCap, Table.BonusesOk;
    best, bestPos := 0, 0;
    var m := |pattern|;
    for i := 1 to m
      invariant AllRows(s.H.Cells(), s.C.Cells(), q, width, i, lastIdx + 1)
      invariant if i == m then IsBest(q, forward, lastIdx + 1, best, bestPos) else best == 0
      invariant s.T.Cells() == old(s.T.Cells()) && s.B.Cells() == old(s.B.Cells()) && s.F.Cells() == old(s.F.Cells())
    {
      best, bestPos := FillNext(q, m, i, pattern[i], forward, width, f0, lastIdx, s, best, bestPos);
    }
  }

  /** What the finished scan has established, if it found the whole pattern. */
  lemma ScanDone(u: Unicode, text: seq<Rune>, q: Table, forward: bool, idx: nat, g: FzfScan.Contents, c: FzfScan.Cursor)
    requires q.p != [] && q.BonusesOk() && idx <= |text| == |q.t| == |q.b|
    requires |q.t| == |g.ts| == |g.bs| == |g.hs| == |g.rs| && |g.fs| == |q.p|
    requires FzfScan.ScanInv(u, text, q, forward, idx, |text|, g, c)
    ensures c.pidx < |q.p| ==> !Subsequence(q.p, q.t)
    ensures c.pidx == |q.p| ==>
      && q.Valid() && |q.p| <= |q.t| && Subsequence(q.p, q.t) && FzfScan.Found(q, c.lastIdx, idx, |q.t|)
      && FzfScan.Scanned(g, q, idx, |q.t|)
      && g.fs == q.f && q.f[|q.p| - 1] <= c.lastIdx < |q.t| && Absent(q.p[|q.p| - 1], q.t, c.lastIdx + 1, |q.t|)
      && idx <= q.f[0] <= c.lastIdx
      && g.ts[q.f[0]..] == q.t[q.f[0]..] && g.bs[q.f[0]..] == q.b[q.f[0]..]
      && (|q.p| == 1 ==> FzfScan.BestSingle(q, forward, |q.t|, c.best, c.bestPos))
    ensures c.pidx <= |q.p|
  {
    hide Row0, Tight, ClassOf, FzfScan.Left0;
    if c.pidx < |q.p| {
      GreedyStuck(q.f, q.t, q.p);
    } else {
      IncreasingAbove(q.f, |q.p| - 1);
      assert IsAlignment(q.f, q.t, q.p);
    }
  }

  /** The scan may also have stopped early, with a one-rune pattern found on a boundary. */
  lemma ScanStopped(q: Table, forward: bool, g: FzfScan.Contents, c: FzfScan.Cursor)
    requires q.p != [] && q.BonusesOk() && |q.t| == |q.b| && FzfScan.SingleFound(q, forward, g, c)
    ensures c.pidx == |q.p| == 1 && q.Valid() && Subsequence(q.p, q.t)
    ensures FzfScan.BestSingle(q, forward, |q.t|, c.best, c.bestPos)
  {
    hide Tight;
    assert IsAlignment(q.f, q.t, q.p);
  }

  /** Whether the scan views leave the slab from `offset16` on alone. */
  ghost predicate BelowOffset(s: FzfScan.Scratch, slab16: array<int>, offset16: nat) {
    && s.T.buf != slab16 && s.F.buf != slab16
    && (s.B.buf != slab16 || s.B.off + s.B.len <= offset16)
    && (s.H0.buf != slab16 || s.H0.off + s.H0.len <= offset16)
    && (s.C0.buf != slab16 || s.C0.off + s.C0.len <= offset16)
  }

  /** Allocates the two tables behind the scan views and copies the first row into them. */
  method AllocateTables(ghost q: Table, ghost idx: nat, s: FzfScan.Scratch, slab16: array<int>, offset16: nat, m: nat,
                        width: nat, f0: nat, ghost lastIdx: nat)
    returns (rows: Rows)
    requires q.Valid() && 2 <= |q.p| == m && s.Valid(|q.t|, m) && BelowOffset(s, slab16, offset16)
    requires idx <= q.f[0] == f0 <= lastIdx < |q.t| && width == lastIdx - f0 + 1
    requires FzfScan.Scanned(s.Held(|q.t|, m), q, idx, |q.t|)
    modifies slab16
    ensures rows.T == s.T && rows.B == s.B && rows.F == s.F && rows.Valid(|q.t|, m, m * width)
    ensures (rows.H.buf == slab16 || fresh(rows.H.buf)) && (rows.C.buf == slab16 || fresh(rows.C.buf))
    ensures AllRows(rows.H.Cells(), rows.C.Cells(), q, width, 1, lastIdx + 1)
    ensures s.T.Cells() == old(s.T.Cells()) && s.B.Cells() == old(s.B.Cells()) && s.F.Cells() == old(s.F.Cells())
  {
    hide View.Cells, Tight, Row0, AllRows, FzfScan.Scanned;
    ghost var g := s.Held(|q.t|, m);
    ScannedFits(g, q, idx);
    RowOffset(0, m, width);
    var next16, H := Alloc(offset16, slab16, m * width);
    assert s.Held(|q.t|, m) == g;
    CopyRow(H, s.H0, f0, width, s.T, s.B, s.F, s.C0);
    var last16, C := Alloc(next16, slab16, m * width);
    CopyRow(C, s.C0, f0, width, s.T, s.B, s.F, H);
    FirstRowDone(g, q, idx, lastIdx, H.Cells(), C.Cells(), width);
    rows := Rows(s.T, s.B, s.F, H, C);
  }

  /** Patterns of two runes and more: tables, rows, and the backtrace if positions are wanted. */
  method MatchLong(ghost q: Table, pattern: seq<Rune>, forward: bool, withPos: bool, ghost idx: nat, s: FzfScan.Scratch,
                   slab16: array<int>, offset16: nat, lastIdx: nat)
    returns (r: MatchResult, pos: Option<set<nat>>)
    requires q.Valid() && 2 <= |pattern| && pattern == q.p && s.Valid(|q.t|, |pattern|)
      && BelowOffset(s, slab16, offset16)
    requires ScoreCap(|pattern|) < 0x8000
    requires idx <= q.f[0] <= lastIdx && q.f[|pattern| - 1] <= lastIdx < |q.t|
    requires Absent(q.p[|q.p| - 1], q.t, lastIdx + 1, |q.t|)
    requires FzfScan.Scanned(s.Held(|q.t|, |pattern|), q, idx, |q.t|)
    requires s.F.Cells() == q.f && s.T.Cells()[q.f[0]..] == q.t[q.f[0]..] && s.B.Cells()[q.f[0]..] == q.b[q.f[0]..]
    modifies slab16
    ensures V2Match(q, forward, withPos, r, pos)
  {
    hide View.Cells, Tight, AllRows, FzfScan.Scanned, IsBest, AlignedBy, View.Disjoint, ScoreCap, BelowOffset, Absent,
      Increasing;
    var m := |pattern|;
    var f0 := s.F.At(0);
    var width := lastIdx - f0 + 1;
    var rows := AllocateTables(q, idx, s, slab16, offset16, m, width, f0, lastIdx);
    var best, bestPos := FillRows(q, pattern, forward, width, f0, lastIdx, rows);
    BestEndsInside(q, forward, lastIdx, best, bestPos);
    if withPos {
      var start, positions := Backtrace(q, m, forward, width, f0, lastIdx, rows, best, bestPos);
      AlignedInside(q.t, q.p, positions, start, bestPos + 1);
      return FzfMatchV1.MatchResult(start, bestPos + 1, best), Some(positions);
    }
    return FzfMatchV1.MatchResult(f0, bestPos + 1, best), None;
  }

  lemma BestEndsInside(q: Table, forward: bool, lastIdx: nat, score: int, pos: nat)
    requires q.Valid() && lastIdx < |q.t| && IsBest(q, forward, lastIdx + 1, score, pos)
    requires Absent(q.p[|q.p| - 1], q.t, lastIdx + 1, |q.t|)
    ensures q.f[0] <= pos < |q.t| && IsBest(q, forward, |q.t|, score, pos)
  {
    IncreasingAbove(q.f, |q.p| - 1);
    BestSurvivesTail(q, forward, lastIdx + 1, score, pos, |q.t|);
  }

  lemma AlignedInside(t: seq<Rune>, p: seq<Rune>, pos: set<nat>, start: int, end: int)
    requires p != [] && AlignedBy(t, p, pos, start, end)
    ensures 0 <= start < end <= |t|
  {
  }

  /** A one-rune pattern. */
  lemma SingleMatch(q: Table, forward: bool, withPos: bool, best: int, bestPos: nat)
    requires q.Valid() && |q.p| == 1 && FzfScan.BestSingle(q, forward, |q.t|, best, bestPos)
    ensures V2Match(q, forward, withPos, FzfMatchV1.MatchResult(bestPos, bestPos + 1, best),
                    if withPos then Some({bestPos}) else None)
  {
    hide Tight, Cell;
    FzfScan.BestSingleIsBest(q, forward, best, bestPos);
    TightAt(q.f, q.t, q.p, 0);
    BestIsTaken(q, forward, |q.t|, best, bestPos);
    TakenMatches(q, 0, bestPos, true);
    assert IsAlignment([bestPos], q.t, q.p) && Elements([bestPos]) == {bestPos};
  }

  method CopyText(T: View, input: seq<Rune>, ghost s: FzfScan.Scratch, ghost m: nat)
    requires s.Valid(|input|, m) && T == s.T
    modifies T.buf
    ensures T.Cells() == input
  {
    hide View.Cells;
    for i := 0 to |input|
      invariant T.Cells()[..i] == input[..i]
    {
      T.Put(i, input[i], s.F, s.F, s.F, s.F, s.F);
    }
  }

  method FuzzyMatchV2(u: Unicode, cs: bool, nz: bool, forward: bool, input: seq<Rune>, pattern: seq<Rune>,
                      withPos: bool, slab16: array<int>, slab32: array<int>)
    returns (r: MatchResult, pos: Option<set<nat>>, ghost q: Table)
    requires slab16 != slab32 && slab16.Length == SLAB_16_SIZE && slab32.Length == SLAB_32_SIZE
    modifies slab16, slab32
    ensures pattern == [] ==> r == FzfMatchV1.MatchResult(0, 0, 0) && pos == if withPos then Some({}) else None
    ensures pattern != [] && |input| * |pattern| > SLAB_16_SIZE ==>
      FzfMatchV1.V1Spec(u, cs, nz, forward, input, pattern, withPos, r, pos)
    ensures pattern != [] && |input| * |pattern| <= SLAB_16_SIZE ==>
      V2Spec(u, cs, nz, forward, input, pattern, withPos, r, pos, q)
  {
    hide View.Cells, Tight, Views.Apart, V2Match, Subsequence, FzfScan.ScanInv, FzfScan.Scanned, FzfScan.SingleFound,
      FoldTextV2, FzfScan.AboutAt, IsGreedy, FzfMatchV1.V1Spec, FzfScan.Found, FzfScan.BestSingle, Absent, ScoreCap;
    q := Table([], [], [], []);
    var m, n := |pattern|, |input|;
    if m == 0 {
      return FzfMatchV1.MatchResult(0, 0, 0), if withPos then Some({}) else None, q;
    }
    if n * m > slab16.Length {
      r, pos := FzfMatchV1.FuzzyMatchV1(u, cs, nz, forward, input, pattern, withPos);
      return;
    }
    var idx := FzfPrefilter.AsciiFuzzyIndex(input, pattern, cs);
    q := EmptyTable(u, cs, nz, input, pattern, idx);
    ghost var q0 := q;
    if idx < 0 {
      return NO_MATCH, None, q;
    }
    var s, offset16 := AllocateScratch(slab16, slab32, n, m);
    CopyText(s.T, input, s, m);
    var c, stop;
    c, stop, q := FzfScan.ScanText(u, cs, nz, forward, input, pattern, idx, s, q);
    FzfScan.AboutIgnoresFirst(q0, q.f, u, cs, nz, input);
    if !stop {
      ScanDone(u, input, q, forward, idx, s.Held(n, m), c);
    } else {
      ScanStopped(q, forward, s.Held(n, m), c);
    }
    if c.pidx != m {
      return NO_MATCH, None, q;
    }
    if m == 1 {
      SingleMatch(q, forward, withPos, c.best, c.bestPos);
      return FzfMatchV1.MatchResult(c.bestPos, c.bestPos + 1, c.best), if withPos then Some({c.bestPos}) else None, q;
    }
    GateBoundsScores(n, m);
    r, pos := MatchLong(q, pattern, forward, withPos, idx, s, slab16, offset16, c.lastIdx);
  }

  /** The table of a call before any position is known. */
  lemma EmptyTable(u: Unicode, cs: bool, nz: bool, input: seq<Rune>, pattern: seq<Rune>, idx: int) returns (q: Table)
    requires pattern != [] && FzfPrefilter.IsSound(cs, input, pattern, idx)
    ensures q.t == FoldTextV2(u, cs, nz, input) && q.p == pattern && q.f == [] && FzfScan.About(q, u, cs, nz, input)
    ensures FzfPrefilter.Admits(idx, q.t, pattern)
  {
    var b := seq(|input|, j requires 0 <= j < |input| => BonusFor(ClassBefore(u, input, j), ClassOf(u, input[j])));
    q := Table(FoldTextV2(u, cs, nz, input), b, pattern, []);
    FzfPrefilter.SoundAdmits(cs, input, pattern, idx, q.t);
  }
}
