/** The scan of `fuzzyMatchV2`, which folds the text in place, records where pattern runes are first found, and fills
    the first row of the tables (src/utils/scripts/fzf.js:433-514). */
module FzfScan {
  import opened FzfRunes
  import opened Alignments
  import opened FzfSlab
  import opened FzfTables
  import FzfPrefilter

  /** Position `j` of the table holds the folded rune and the bonus of position `j` of the text. */
  ghost predicate AboutAt(q: Table, u: Unicode, cs: bool, nz: bool, text: seq<Rune>, j: nat)
    requires j < |q.t| == |q.b| == |text|
  {
    && q.t[j] == FoldV2(u, cs, nz, text[j])
    && q.b[j] == BonusFor(ClassBefore(u, text, j), ClassOf(u, text[j]))
  }

  /** The table `q` is about this text. */
  ghost predicate About(q: Table, u: Unicode, cs: bool, nz: bool, text: seq<Rune>) {
    && |q.t| == |q.b| == |text|
    && q.BonusesOk()
    && forall j {:trigger AboutAt(q, u, cs, nz, text, j)} :: 0 <= j < |text| ==> AboutAt(q, u, cs, nz, text, j)
  }

  lemma AboutIgnoresFirst(q: Table, f: seq<nat>, u: Unicode, cs: bool, nz: bool, text: seq<Rune>)
    requires About(q, u, cs, nz, text)
    ensures About(q.(f := f), u, cs, nz, text)
  {
    hide FoldV2, BonusFor;
    forall j | 0 <= j < |text|
      ensures AboutAt(q.(f := f), u, cs, nz, text, j)
    {
      assert AboutAt(q, u, cs, nz, text, j);
    }
  }

  /** What the scratch views hold: folded text, bonuses, first row, its runs, first positions. */
  datatype Contents = Contents(ts: seq<int>, bs: seq<int>, hs: seq<int>, rs: seq<int>, fs: seq<int>)

  /** The views the first scan works on. */
  datatype Scratch = Scratch(T: View, B: View, H0: View, C0: View, F: View) {
    ghost predicate Valid(n: nat, m: nat) {
      && Views(T, B, H0, C0, F).Apart()
      && T.len == B.len == H0.len == C0.len == n && F.len == m
    }

    ghost function Held(n: nat, m: nat): (g: Contents)
      requires Valid(n, m)
      reads T.buf, B.buf, H0.buf, C0.buf, F.buf
      ensures |g.ts| == |g.bs| == |g.hs| == |g.rs| == n && |g.fs| == m
    {
      Contents(T.Cells(), B.Cells(), H0.Cells(), C0.Cells(), F.Cells())
    }

    /** One column of the scan. */
    method PutColumn(ghost n: nat, ghost m: nat, k: nat, ch: int, bonus: int, h: int, c: int)
      requires Valid(n, m) && k < n
      requires -0x8000 <= bonus < 0x8000 && -0x8000 <= h < 0x8000 && -0x8000 <= c < 0x8000
      modifies T.buf, B.buf, H0.buf, C0.buf
      ensures var g := old(Held(n, m));
        Held(n, m) == Contents(g.ts[k := ch], g.bs[k := bonus], g.hs[k := h], g.rs[k := c], g.fs)
    {
      T.Put(k, ch, B, H0, C0, F, F);
      B.Put16(k, bonus, T, H0, C0, F, F);
      H0.Put16(k, h, T, B, C0, F, F);
      C0.Put16(k, c, T, B, H0, F, F);
    }

    method PutFirst(ghost n: nat, ghost m: nat, k: nat, x: int)
      requires Valid(n, m) && k < m
      modifies F.buf
      ensures var g := old(Held(n, m));
        Held(n, m) == g.(fs := g.fs[k := x])
    {
      F.Put(k, x, T, B, H0, C0, C0);
    }
  }

  /** What the scan has stored for the positions `[idx, to)`. */
  ghost predicate Scanned(g: Contents, q: Table, idx: nat, to: nat)
    requires |q.b| == |q.t| == |g.ts| == |g.bs| == |g.hs| == |g.rs| && q.p != [] && to <= |q.t|
  {
    match g
    case Contents(ts, bs, hs, rs, fs) =>
      forall j {:trigger ts[j]} {:trigger hs[j]} {:trigger rs[j]} {:trigger bs[j]} :: idx <= j < to ==>
        && ts[j] == q.t[j]
        && hs[j] == Row0(q.t, q.b, q.p[0], j).score
        && rs[j] == Row0(q.t, q.b, q.p[0], j).run
        && (idx < j || idx == 0 ==> bs[j] == q.b[j])
  }

  /** How far the search for first positions has come at position `j`. */
  ghost predicate Found(q: Table, lastIdx: nat, idx: nat, j: nat)
    requires q.p != []
  {
    match q
    case Table(t, b, p, f) =>
      && IsGreedy(f, t, p) && NextStart(f) <= j
      && (|f| < |p| ==> Absent(p[|f|], t, NextStart(f), j))
      && (|f| == |p| ==> f[|p| - 1] <= lastIdx < j && Absent(p[|p| - 1], t, lastIdx + 1, j))
      && (f != [] ==> idx <= f[0] && (idx < f[0] || idx == 0))
  }

  /** The first row's value to the left of position `j`, where the scan starts at `idx`. */
  function Left0(q: Table, idx: nat, j: nat): CellValue
    requires idx <= j <= |q.t| == |q.b| && q.p != []
  {
    if j == idx then CellValue(0, 0, false) else Row0(q.t, q.b, q.p[0], j - 1)
  }

  /** Starting at `idx` instead of 0 makes no difference to the first row. */
  lemma LeftIsEnough(q: Table, idx: nat, j: nat)
    requires idx <= j < |q.t| == |q.b| && q.p != []
    requires Absent(q.p[0], q.t, 0, idx) && q.t[j] != q.p[0]
    ensures var left := Left0(q, idx, j);
      Row0(q.t, q.b, q.p[0], j) == CellValue(Max(left.score + Penalty(left.gap), 0), 0, true)
  {
    if 0 < j == idx {
      Row0BeforeFirst(q.t, q.b, q.p[0], j - 1);
    }
  }

  /** A new first position, or a later occurrence of the last pattern rune. */
  lemma FoundStep(q: Table, lastIdx: nat, idx: nat, j: nat)
    requires q.p != [] && idx <= j < |q.t| && Found(q, lastIdx, idx, j)
    requires idx > 0 ==> q.t[idx] != q.p[0]
    ensures var (f, m) := (q.f, |q.p|);
      if q.t[j] != q.p[if |f| < m then |f| else m - 1] then Found(q, lastIdx, idx, j + 1)
      else if |f| < m then Found(q.(f := f + [j]), j, idx, j + 1)
      else Found(q, j, idx, j + 1)
  {
    hide IsGreedy;
    var f := q.f;
    if |f| < |q.p| && q.t[j] == q.p[|f|] {
      GreedyExtend(f, q.t, q.p, j);
      assert (f + [j])[0] == if f == [] then j else f[0];
    }
  }

  /** Storing column `j` extends what is stored by that column. */
  lemma ScannedStep(g: Contents, q: Table, idx: nat, j: nat, bonus: int)
    requires |q.b| == |q.t| == |g.ts| == |g.bs| == |g.hs| == |g.rs| && q.p != [] && idx <= j < |q.t|
    requires Scanned(g, q, idx, j)
    requires idx < j || idx == 0 ==> bonus == q.b[j]
    ensures var r := Row0(q.t, q.b, q.p[0], j);
      Scanned(Contents(g.ts[j := q.t[j]], g.bs[j := bonus], g.hs[j := r.score], g.rs[j := r.run], g.fs), q, idx, j + 1)
  {
  }

  /** The best single match below `to`: nothing yet, or the first of the highest scores in scan direction. */
  ghost predicate BestSingle(q: Table, forward: bool, to: nat, score: int, pos: nat)
    requires to <= |q.t| == |q.b| && q.p != []
  {
    match q
    case Table(t, b, p, f) =>
      if score == 0 then Absent(p[0], t, 0, to)
      else
        && pos < to && t[pos] == p[0] && score == FirstMatchScore(b[pos])
        && forall j :: 0 <= j < to && t[j] == p[0] ==>
             && FirstMatchScore(b[j]) <= score
             && (forward && j < pos ==> FirstMatchScore(b[j]) < score)
             && (!forward && j > pos ==> FirstMatchScore(b[j]) < score)
  }

  lemma BestSingleIgnoresFirst(q: Table, f: seq<nat>, forward: bool, to: nat, score: int, pos: nat)
    requires to <= |q.t| == |q.b| && q.p != [] && BestSingle(q, forward, to, score, pos)
    ensures BestSingle(q.(f := f), forward, to, score, pos)
  {
  }

  lemma {:induction false} SingleScoresRule(q: Table, forward: bool, to: nat, score: int, pos: nat)
    requires q.Valid() && |q.p| == 1 && q.f[0] < to <= |q.t| && 0 < score
    requires BestSingle(q, forward, |q.t|, score, pos)
    ensures forall j :: q.f[0] <= j < to ==>
      && Score(q, 0, j) <= score
      && (forward && j < pos ==> Score(q, 0, j) < score)
      && (!forward && j > pos ==> Score(q, 0, j) < score)
  {
    if q.f[0] + 1 < to {
      SingleScoresRule(q, forward, to - 1, score, pos);
    }
    var j := to - 1;
    if q.t[j] == q.p[0] {
      assert Cell(q, 0, j).score == FirstMatchScore(q.b[j]);
    } else {
      MissLoses(q, 0, j);
    }
  }

  lemma BestSingleIsBest(q: Table, forward: bool, score: int, pos: nat)
    requires q.Valid() && |q.p| == 1 && BestSingle(q, forward, |q.t|, score, pos)
    ensures IsBest(q, forward, |q.t|, score, pos)
  {
    TightAt(q.f, q.t, q.p, 0);
    SingleScoresRule(q, forward, |q.t|, score, pos);
    assert Cell(q, 0, pos).score == FirstMatchScore(q.b[pos]);
  }

  /** The scan's local variables. */
  datatype Cursor = Cursor(pidx: nat, lastIdx: nat, best: int, bestPos: nat, prevH0: int, prevCharClass: CharClass,
                           inGap: bool)

  /** What holds before the scan looks at position `j`. */
  ghost predicate ScanInv(u: Unicode, text: seq<Rune>, q: Table, forward: bool, idx: nat, j: nat, g: Contents,
                          c: Cursor)
    requires q.p != [] && idx <= j <= |text| == |q.t| == |q.b|
    requires |q.t| == |g.ts| == |g.bs| == |g.hs| == |g.rs| && |g.fs| == |q.p|
  {
    match c
    case Cursor(pidx, lastIdx, best, bestPos, prevH0, prevCharClass, inGap) =>
      && |q.f| == pidx <= |q.p| && Found(q, lastIdx, idx, j)
      && g.fs[..pidx] == q.f
      && prevCharClass == (if j == idx then 0 else ClassOf(u, text[j - 1]))
      && prevH0 == Left0(q, idx, j).score && inGap == Left0(q, idx, j).gap
      && g.ts[j..] == text[j..]
      && Scanned(g, q, idx, j)
      && (|q.p| == 1 ==> BestSingle(q, forward, j, best, bestPos))
  }

  /** Records position `j` in the row of first positions while there are pattern runes left. */
  method RecordFirst(ghost q: Table, ghost idx: nat, j: nat, ch: Rune, pattern: seq<Rune>, pidx: nat, lastIdx: nat,
                     s: Scratch)
    returns (pidx': nat, lastIdx': nat, ghost f: seq<nat>)
    requires pattern == q.p && q.p != [] && s.Valid(|q.t|, |q.p|) && idx <= j < |q.t| && ch == q.t[j]
    requires |q.f| == pidx <= |q.p| && Found(q, lastIdx, idx, j) && (idx > 0 ==> q.t[idx] != q.p[0])
    requires s.Held(|q.t|, |q.p|).fs[..pidx] == q.f
    modifies s.F.buf
    ensures |f| == pidx' <= |q.p| && Found(q.(f := f), lastIdx', idx, j + 1) && IsGreedy(f, q.t, q.p)
    ensures s.Held(|q.t|, |q.p|).fs[..pidx'] == f
    ensures s.Held(|q.t|, |q.p|) == old(s.Held(|q.t|, |q.p|)).(fs := s.Held(|q.t|, |q.p|).fs)
    ensures ch == q.p[0] && |q.p| == 1 ==> pidx' == 1
  {
    hide IsGreedy, Absent, View.Cells, Views.Apart;
    FoundStep(q, lastIdx, idx, j);
    pidx', lastIdx', f := pidx, lastIdx, q.f;
    assert q == q.(f := f);
    var m := |pattern|;
    if ch == pattern[if pidx < m then pidx else m - 1] {
      if pidx < m {
        s.PutFirst(|q.t|, m, pidx, j);
        f := q.f + [j];
        pidx' := pidx + 1;
      }
      lastIdx' := j;
    }
  }

  /** Score and run of column `j`, and the best single match for one-rune patterns; `stop` leaves the scan. */
  method ScoreColumn(ghost q: Table, pattern: seq<Rune>, forward: bool, ghost idx: nat, j: nat, ch: Rune, bonus: int,
                     c: Cursor)
    returns (h: int, run: int, inGap: bool, best: int, bestPos: nat, stop: bool)
    requires pattern == q.p && idx <= j < |q.t| == |q.b| && q.p != [] && q.BonusesOk()
    requires Absent(q.p[0], q.t, 0, idx) && ch == q.t[j] && 0 <= bonus <= BONUS_BOUNDARY
    requires ch == q.p[0] ==> bonus == q.b[j]
    requires c.prevH0 == Left0(q, idx, j).score && c.inGap == Left0(q, idx, j).gap
    requires |q.p| == 1 ==> BestSingle(q, forward, j, c.best, c.bestPos)
    ensures !stop ==> CellValue(h, run, inGap) == Row0(q.t, q.b, q.p[0], j)
    ensures |q.p| == 1 ==> BestSingle(q, forward, if stop then |q.t| else j + 1, best, bestPos)
    ensures stop ==> |q.p| == 1 && ch == q.p[0]
  {
    best, bestPos, stop := c.best, c.bestPos, false;
    if ch == pattern[0] {
      h, run, inGap := FirstMatchScore(bonus), 1, false;
      if |pattern| == 1 && ((forward && h > best) || (!forward && h >= best)) {
        best, bestPos := h, j;
        stop := forward && bonus == BONUS_BOUNDARY;
      }
    } else {
      LeftIsEnough(q, idx, j);
      h, run, inGap := Max(c.prevH0 + Penalty(c.inGap), 0), 0, true;
    }
  }

  /** The folded rune is the table's, and so is the bonus wherever it can matter. */
  lemma ColumnFacts(u: Unicode, cs: bool, nz: bool, text: seq<Rune>, q: Table, forward: bool, idx: nat, j: nat,
                    g: Contents, c: Cursor)
    requires q.p != [] && idx <= j < |text| == |q.t| == |q.b| && q.BonusesOk() && AboutAt(q, u, cs, nz, text, j)
    requires |q.t| == |g.ts| == |g.bs| == |g.hs| == |g.rs| && |g.fs| == |q.p|
    requires FzfPrefilter.Admits(idx, q.t, q.p) && ScanInv(u, text, q, forward, idx, j, g, c)
    ensures g.ts[j] == text[j] && FoldV2(u, cs, nz, text[j]) == q.t[j]
    ensures |q.f| == c.pidx <= |q.p| && Found(q, c.lastIdx, idx, j) && g.fs[..c.pidx] == q.f
    ensures c.prevH0 == Left0(q, idx, j).score && c.inGap == Left0(q, idx, j).gap
    ensures |q.p| == 1 ==> BestSingle(q, forward, j, c.best, c.bestPos)
    ensures Absent(q.p[0], q.t, 0, idx) && (idx > 0 ==> q.t[idx] != q.p[0])
    ensures var bonus := BonusFor(c.prevCharClass, ClassOf(u, text[j]));
      q.t[j] == q.p[0] || idx < j || idx == 0 ==> bonus == q.b[j]
  {
  }

  /** One column later the invariant holds again. */
  lemma ScanInvStep(u: Unicode, text: seq<Rune>, q: Table, q': Table, forward: bool, idx: nat, j: nat, g: Contents,
                    g': Contents, c: Cursor, c': Cursor, run: int, bonus: int)
    requires q.p != [] && idx <= j < |text| == |q.t| == |q.b| && q' == q.(f := q'.f)
    requires |q.t| == |g.ts| == |g.bs| == |g.hs| == |g.rs| && |g.fs| == |q.p|
    requires ScanInv(u, text, q, forward, idx, j, g, c)
    requires g' == Contents(g.ts[j := q.t[j]], g.bs[j := bonus], g.hs[j := c'.prevH0], g.rs[j := run], g'.fs)
      && |g'.fs| == |q.p|
    requires |q'.f| == c'.pidx <= |q.p| && g'.fs[..c'.pidx] == q'.f && Found(q', c'.lastIdx, idx, j + 1)
    requires c'.prevCharClass == ClassOf(u, text[j])
    requires CellValue(c'.prevH0, run, c'.inGap) == Row0(q.t, q.b, q.p[0], j)
    requires idx < j || idx == 0 ==> bonus == q.b[j]
    requires |q.p| == 1 ==> BestSingle(q, forward, j + 1, c'.best, c'.bestPos)
    ensures ScanInv(u, text, q', forward, idx, j + 1, g', c')
  {
    hide IsGreedy, ClassOf;
    ScannedStep(g, q, idx, j, bonus);
    assert g'.ts[j + 1..] == g.ts[j..][1..] == text[j + 1..];
  }

  /** The body of the scan. */
  method ScanColumn(u: Unicode, cs: bool, nz: bool, forward: bool, ghost text: seq<Rune>, pattern: seq<Rune>,
                    ghost q: Table, ghost idx: nat, j: nat, s: Scratch, c: Cursor)
    returns (c': Cursor, stop: bool, ghost f: seq<nat>)
    requires pattern == q.p != [] && idx <= j < |text| == |q.t| == |q.b| && q.BonusesOk()
      && AboutAt(q, u, cs, nz, text, j)
    requires s.Valid(|text|, |pattern|)
    requires FzfPrefilter.Admits(idx, q.t, pattern)
    requires ScanInv(u, text, q, forward, idx, j, s.Held(|text|, |pattern|), c)
    modifies s.T.buf, s.B.buf, s.H0.buf, s.C0.buf, s.F.buf
    ensures !stop ==> ScanInv(u, text, q.(f := f), forward, idx, j + 1, s.Held(|text|, |pattern|), c')
    ensures stop ==> SingleFound(q.(f := f), forward, s.Held(|text|, |pattern|), c')
  {
    hide View.Cells, IsGreedy, Row0, AboutAt, FoldV2, ClassOf, BonusFor, FzfPrefilter.Admits, Scanned, Found, ScanInv,
      BestSingle, Left0;
    ghost var g := s.Held(|text|, |pattern|);
    var raw := s.T.At(j);
    ColumnFacts(u, cs, nz, text, q, forward, idx, j, g, c);
    Row0Bounds(q, j);
    var charClass := ClassOf(u, raw);
    var ch := FoldV2(u, cs, nz, raw);
    var bonus := BonusFor(c.prevCharClass, charClass);
    var pidx, lastIdx;
    pidx, lastIdx, f := RecordFirst(q, idx, j, ch, pattern, c.pidx, c.lastIdx, s);
    ghost var fs := s.Held(|text|, |pattern|).fs;
    var h, run, inGap, best, bestPos;
    h, run, inGap, best, bestPos, stop := ScoreColumn(q, pattern, forward, idx, j, ch, bonus, c);
    c' := Cursor(pidx, lastIdx, best, bestPos, h, charClass, inGap);
    if !stop {
      s.PutColumn(|text|, |pattern|, j, ch, bonus, h, run);
      ScanInvStep(u, text, q, q.(f := f), forward, idx, j, g, s.Held(|text|, |pattern|), c, c', run, bonus);
    } else {
      BestSingleIgnoresFirst(q, f, forward, |text|, best, bestPos);
    }
  }

  /** A one-rune pattern found on a boundary ends the scan. */
  ghost predicate SingleFound(q: Table, forward: bool, g: Contents, c: Cursor)
    requires |q.t| == |q.b| && q.p != []
  {
    match c
    case Cursor(pidx, lastIdx, best, bestPos, prevH0, prevCharClass, inGap) =>
      && |q.p| == 1 == pidx == |q.f| && IsGreedy(q.f, q.t, q.p)
      && BestSingle(q, forward, |q.t|, best, bestPos)
  }

  lemma NothingScanned(u: Unicode, text: seq<Rune>, q: Table, forward: bool, idx: nat, g: Contents, c: Cursor)
    requires q.p != [] && q.f == [] && idx <= |text| == |q.t| == |q.b|
    requires |q.t| == |g.ts| == |g.bs| == |g.hs| == |g.rs| && |g.fs| == |q.p|
    requires FzfPrefilter.Admits(idx, q.t, q.p) && g.ts == text && c == Cursor(0, 0, 0, 0, 0, 0, false)
    ensures ScanInv(u, text, q, forward, idx, idx, g, c)
  {
  }

  method ScanText(u: Unicode, cs: bool, nz: bool, forward: bool, text: seq<Rune>, pattern: seq<Rune>, idx: nat,
                  s: Scratch, ghost q0: Table)
    returns (c: Cursor, stop: bool, ghost q: Table)
    requires pattern == q0.p != [] && q0.f == [] && About(q0, u, cs, nz, text)
    requires s.Valid(|text|, |pattern|) && idx <= |text|
    requires FzfPrefilter.Admits(idx, q0.t, pattern)
    requires s.T.Cells() == text
    modifies s.T.buf, s.B.buf, s.H0.buf, s.C0.buf, s.F.buf
    ensures q == q0.(f := q.f)
    ensures !stop ==> ScanInv(u, text, q, forward, idx, |text|, s.Held(|text|, |pattern|), c)
    ensures stop ==> SingleFound(q, forward, s.Held(|text|, |pattern|), c)
  {
    hide View.Cells, Row0, ScanInv, SingleFound;
    q, stop := q0, false;
    c := Cursor(0, 0, 0, 0, 0, 0, false);
    NothingScanned(u, text, q0, forward, idx, s.Held(|text|, |pattern|), c);
    for j := idx to |text|
      invariant q == q0.(f := q.f) && !stop
      invariant ScanInv(u, text, q, forward, idx, j, s.Held(|text|, |pattern|), c)
    {
      ghost var f;
      assert AboutAt(q0, u, cs, nz, text, j);
      c, stop, f := ScanColumn(u, cs, nz, forward, text, pattern, q, idx, j, s, c);
      q := q.(f := f);
      if stop {
        return;
      }
    }
  }
}
