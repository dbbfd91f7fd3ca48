/** The score of a match (src/utils/scripts/fuzzysort.js:459-490), over reals. */
module FuzzysortScore {
  import opened Alignments
  import opened FuzzysortBeginnings

  /** What the search found out about a target besides the match: whether there is a strict alignment, and whether the
      word stands in it as a whole, and where a word begins. */
  datatype Kind = Kind(strict: bool, whole: bool, wholeAtBeginning: bool)

  predicate IsGap(m: seq<nat>, i: int) {
    0 < i < |m| && m[i] != m[i - 1] + 1
  }

  /** How many groups the first `k` positions have beyond one, and the sum of where these start. */
  function Groups(m: seq<nat>, k: nat): nat {
    if k == 0 then 0 else Groups(m, k - 1) + if IsGap(m, k - 1) then 1 else 0
  }

  function GroupStarts(m: seq<nat>, k: nat): nat {
    if k == 0 then 0 else GroupStarts(m, k - 1) + if IsGap(m, k - 1) then m[k - 1] else 0
  }

  ghost function BeginsBelow(begins: set<int>, n: int): set<int> {
    set k | k in begins && 0 <= k < n
  }

  /** The points a match loses for its gaps and for starting late. */
  function Losses(m: seq<nat>): real
    requires m != []
  {
    var n := |m|;
    GroupStarts(m, n) as real + ((12 + m[n - 1] - m[0] - (n - 1)) * Groups(m, n)) as real + (m[0] * m[0]) as real * 0.2
  }

  /** They weigh more if no strict match was found, or if the target has too many beginnings. */
  function Weight(beginnings: nat, strict: bool): real {
    if !strict then 1000.0 else if beginnings > 24 then (beginnings - 24) as real * 10.0 else 1.0
  }

  function Bonus(n: nat, b: bool): (r: real)
    ensures r >= 1.0
  {
    if b then (1 + n * n) as real else 1.0
  }

  /** Half a point for every further rune of a target. */
  function Overlength(m: seq<nat>, length: int): real {
    (length - |m|) as real / 2.0
  }

  /** What is divided for whole words. */
  function Scaled(m: seq<nat>, length: int, beginnings: nat, kind: Kind): real
    requires m != []
  {
    (-Losses(m) * Weight(beginnings, kind.strict) - Overlength(m, length))
    / Bonus(|m|, kind.whole) / Bonus(|m|, kind.wholeAtBeginning)
  }

  function Score(m: seq<nat>, length: int, beginnings: nat, kind: Kind): real
    requires m != []
  {
    Scaled(m, length, beginnings, kind) - Overlength(m, length)
  }

  lemma GroupsAlike(m: seq<nat>, matches: seq<nat>, k: nat)
    requires k <= |m| <= |matches| && m == matches[..|m|]
    ensures Groups(m, k) == Groups(matches, k) && GroupStarts(m, k) == GroupStarts(matches, k)
  {
  }

  lemma StepOverBeginnings(begins: set<int>, next: seq<int>, i: nat)
    requires IsNextTable(begins, next) && i < |next| && i in begins
    ensures i < next[i] <= |next| && BeginsBelow(begins, next[i]) == BeginsBelow(begins, i) + {i}
    ensures next[i] < |next| ==> next[i] in begins
  {
    assert IsNext(begins, |next|, i, next[i]);
  }

  /** Walks through the table to count the beginnings. */
  method UniqueBeginningIndexes(next: seq<int>, ghost begins: set<int>) returns (count: nat)
    requires next != [] && IsNextTable(begins, next)
    ensures count == |BeginsBelow(begins, |next|)|
  {
    hide IsNextTable;
    FirstBegins(begins, next);
    StepOverBeginnings(begins, next, 0);
    count := 1;
    var i := next[0];
    while i < |next|
      invariant 0 <= i <= |next| && (i < |next| ==> i in begins) && count == |BeginsBelow(begins, i)|
      decreases |next| - i
    {
      StepOverBeginnings(begins, next, i);
      count := count + 1;
      i := next[i];
    }
  }

  lemma FirstBegins(begins: set<int>, next: seq<int>)
    requires next != [] && IsNextTable(begins, next)
    ensures 0 in begins && BeginsBelow(begins, 0) == {}
  {
  }

  /** The first `n` of the match array are the match; what lies behind them is left over. */
  method CalculateLosses(matches: seq<nat>, n: nat) returns (score: real)
    requires 0 < n <= |matches|
    ensures score == -Losses(matches[..n])
  {
    score := 0.0;
    var extraMatchGroupCount: nat := 0;
    for i := 1 to n
      invariant score == -(GroupStarts(matches, i) as real) && extraMatchGroupCount == Groups(matches, i)
    {
      if matches[i] != matches[i - 1] + 1 {
        score := score - matches[i] as real;
        extraMatchGroupCount := extraMatchGroupCount + 1;
      }
    }
    GroupsAlike(matches[..n], matches, n);
    var unmatchedDistance: int := matches[n - 1] as int - matches[0] as int - (n - 1);
    score := score - ((12 + unmatchedDistance) * extraMatchGroupCount) as real;
    if matches[0] != 0 {
      score := score - (matches[0] * matches[0]) as real * 0.2;
    }
  }

  method CalculateScore(matches: seq<nat>, n: nat, next: seq<int>, kind: Kind, ghost begins: set<int>)
    returns (score: real)
    requires 0 < n <= |matches| && next != [] && IsNextTable(begins, next)
    ensures score == Score(matches[..n], |next|, |BeginsBelow(begins, |next|)|, kind)
  {
    hide IsNextTable, BeginsBelow, Losses;
    score := CalculateLosses(matches, n);
    if !kind.strict {
      score := score * 1000.0;
    } else {
      var uniqueBeginningIndexes := UniqueBeginningIndexes(next, begins);
      if uniqueBeginningIndexes > 24 {
        score := score * ((uniqueBeginningIndexes - 24) as real * 10.0);
      }
    }
    score := score - (|next| - n) as real / 2.0;
    if kind.whole {
      score := score / (1 + n * n) as real;
    }
    if kind.wholeAtBeginning {
      score := score / (1 + n * n) as real;
    }
    score := score - (|next| - n) as real / 2.0;
  }

  // --- What the score says ---

  lemma LossesBounds(m: seq<nat>, codes: seq<int>, search: seq<int>)
    requires m != [] && IsAlignment(m, codes, search)
    ensures Losses(m) >= 0.0 && |codes| >= |search|
  {
    IncreasingAbove(m, |m| - 1);
    ProductIsNat(12 + m[|m| - 1] - m[0] - (|m| - 1), Groups(m, |m|));
    ProductIsNat(m[0], m[0]);
  }

  lemma ProductIsNat(a: nat, b: nat)
    ensures a * b >= 0
  {
  }

  lemma {:induction false} NoGroups(m: seq<nat>, k: nat)
    requires k <= |m| && forall i :: 0 <= i < |m| ==> m[i] == i
    ensures Groups(m, k) == 0 && GroupStarts(m, k) == 0
  {
    if k > 0 {
      NoGroups(m, k - 1);
    }
  }

  lemma {:induction false} RoomAbove(m: seq<nat>, n: nat, i: nat)
    requires Increasing(m) && i < |m| && m[|m| - 1] < n
    ensures m[i] + (|m| - i) <= n
    decreases |m| - i
  {
    if i < |m| - 1 {
      RoomAbove(m, n, i + 1);
    }
  }

  lemma NoLosses(m: seq<nat>)
    requires m != [] && m[0] == 0 && Groups(m, |m|) == 0 && GroupStarts(m, |m|) == 0
    ensures Losses(m) == 0.0
  {
  }

  /** An alignment in a target of the same length leaves nothing out. */
  lemma NothingLeftOut(m: seq<nat>, codes: seq<int>, search: seq<int>)
    requires m != [] && IsAlignment(m, codes, search) && |codes| == |search|
    ensures codes == search && Losses(m) == 0.0
  {
    hide Losses;
    forall i | 0 <= i < |m| ensures m[i] == i {
      IncreasingAbove(m, i);
      RoomAbove(m, |codes|, i);
    }
    NoGroups(m, |m|);
    NoLosses(m);
  }

  /** Weighing and dividing keeps losses losses. */
  lemma ScaledLoss(losses: real, weight: real, long: real, b: real, c: real)
    requires losses >= 0.0 && weight >= 1.0 && long >= 0.0 && b >= 1.0 && c >= 1.0
    ensures (-losses * weight - long) / b / c <= 0.0
    ensures losses == 0.0 && long == 0.0 ==> (-losses * weight - long) / b / c == 0.0
  {
    var x := -losses * weight - long;
    assert losses * weight >= 0.0;
    Divided(x, b);
    Divided(x / b, c);
  }

  lemma Divided(x: real, b: real)
    requires x <= 0.0 && b >= 1.0
    ensures x / b <= 0.0 && (x == 0.0 ==> x / b == 0.0)
  {
  }

  lemma ScaledBounds(m: seq<nat>, codes: seq<int>, search: seq<int>, beginnings: nat, kind: Kind)
    requires m != [] && IsAlignment(m, codes, search)
    ensures Scaled(m, |codes|, beginnings, kind) <= 0.0 && |m| == |search| <= |codes|
    ensures Losses(m) == 0.0 && |codes| == |search| ==> Scaled(m, |codes|, beginnings, kind) == 0.0
  {
    hide Losses, Bonus;
    LossesBounds(m, codes, search);
    ScaledLoss(Losses(m), Weight(beginnings, kind.strict), Overlength(m, |codes|), Bonus(|m|, kind.whole),
               Bonus(|m|, kind.wholeAtBeginning));
  }

  /** Only the target that is the word itself loses nothing, and every further rune costs half a point at least. */
  lemma ScoreBounds(m: seq<nat>, codes: seq<int>, search: seq<int>, beginnings: nat, kind: Kind)
    requires m != [] && IsAlignment(m, codes, search)
    ensures Score(m, |codes|, beginnings, kind) <= (|search| - |codes|) as real / 2.0 <= 0.0
    ensures Score(m, |codes|, beginnings, kind) == 0.0 <==> codes == search
  {
    hide Losses, Scaled, IsAlignment;
    ScaledBounds(m, codes, search, beginnings, kind);
    if |codes| == |search| {
      NothingLeftOut(m, codes, search);
    }
  }

  // --- The score in plain numbers ---

  /** The positions that begin a group other than the first. */
  function LaterStarts(m: seq<nat>): (r: seq<nat>)
    ensures forall x :: x in r ==> x in m
  {
    if |m| <= 1 then []
    else
      var n := |m| - 1;
      LaterStarts(m[..n]) + if m[n] == m[n - 1] + 1 then [] else [m[n]]
  }

  function Sum(s: seq<nat>): nat {
    if s == [] then 0 else Sum(s[..|s| - 1]) + s[|s| - 1]
  }

  /** They are those that do not directly follow another position, each once. */
  lemma {:induction false} LaterStartsAre(m: seq<nat>, x: nat)
    requires Increasing(m) && m != []
    ensures x in LaterStarts(m) <==> x in m && x != m[0] && x - 1 !in m
    decreases |m|
  {
    if |m| > 1 {
      var n := |m| - 1;
      LaterStartsAre(m[..n], x);
      NextPosition(m, x);
    }
  }

  lemma NextPosition(m: seq<nat>, x: nat)
    requires Increasing(m) && |m| > 1
    ensures var n := |m| - 1;
      && (x in m <==> x in m[..n] || x == m[n]) && m[n] !in m[..n] && m[0] != m[n]
      && (x - 1 in m <==> x - 1 in m[..n] || x - 1 == m[n])
      && (x == m[n] ==> (x - 1 in m[..n] <==> m[n] == m[n - 1] + 1))
      && (x in m[..n] ==> x - 1 != m[n])
  {
    var n := |m| - 1;
    assert m == m[..n] + [m[n]];
    assert m[n - 1] in m[..n];
    forall y: int | y in m[..n] ensures y <= m[n - 1] < m[n] {
      var i :| 0 <= i < n && m[i] == y;
    }
  }

  lemma {:induction false} LaterStartsOnce(m: seq<nat>)
    requires Increasing(m)
    ensures Increasing(LaterStarts(m))
  {
    if |m| > 1 {
      var n := |m| - 1;
      LaterStartsOnce(m[..n]);
      var r := LaterStarts(m[..n]);
      forall i | 0 <= i < |r| ensures r[i] < m[n] {
        assert r[i] in m[..n];
      }
    }
  }

  lemma SumOneMore(s: seq<nat>, x: nat)
    ensures Sum(s + [x]) == Sum(s) + x
  {
    assert (s + [x])[..|s|] == s;
  }

  lemma StartsOneMore(m: seq<nat>, k: nat)
    requires 1 < k <= |m|
    ensures LaterStarts(m[..k]) == if IsGap(m, k - 1) then LaterStarts(m[..k - 1]) + [m[k - 1]]
      else LaterStarts(m[..k - 1])
  {
    assert m[..k][..k - 1] == m[..k - 1];
  }

  lemma {:induction false} GroupsAreStarts(m: seq<nat>, k: nat)
    requires 0 < k <= |m|
    ensures Groups(m, k) == |LaterStarts(m[..k])| && GroupStarts(m, k) == Sum(LaterStarts(m[..k]))
  {
    if k > 1 {
      hide LaterStarts, Sum;
      GroupsAreStarts(m, k - 1);
      StartsOneMore(m, k);
      SumOneMore(LaterStarts(m[..k - 1]), m[k - 1]);
    } else {
      assert Groups(m, 0) == 0 && GroupStarts(m, 0) == 0;
    }
  }

  /** What gaps and a late start cost: the sum of where later groups start, for each of them 12 points and the distance
      that is not matched, and a fifth of the square of the first position. */
  function Lost(m: seq<nat>): real
    requires m != []
  {
    var starts, unmatched := LaterStarts(m), m[|m| - 1] - m[0] - (|m| - 1);
    (Sum(starts) + (12 + unmatched) * |starts|) as real + (m[0] * m[0]) as real / 5.0
  }

  lemma LossesAreLost(m: seq<nat>)
    requires m != []
    ensures Losses(m) == Lost(m)
  {
    GroupsAreStarts(m, |m|);
    assert m[..|m|] == m;
    assert 12 + m[|m| - 1] - m[0] - (|m| - 1) == 12 + (m[|m| - 1] - m[0] - (|m| - 1));
  }

  /** The score as a formula: that cost, a thousandfold if there is no strict match, and tenfold for each beginning
      beyond 24 if there is; half the overlength, divided for whole words; and half the overlength again. */
  lemma ScoreIs(m: seq<nat>, length: int, beginnings: nat, kind: Kind)
    requires m != []
    ensures var n := |m|;
      var times := if !kind.strict then 1000.0 else if beginnings > 24 then (beginnings - 24) as real * 10.0 else 1.0;
      var whole := if kind.whole then (1 + n * n) as real else 1.0;
      var atBeginning := if kind.wholeAtBeginning then (1 + n * n) as real else 1.0;
      var long := (length - n) as real / 2.0;
      Score(m, length, beginnings, kind) == (-Lost(m) * times - long) / whole / atBeginning - long
  {
    hide Losses, Lost;
    LossesAreLost(m);
  }

  /** A word that does not stand as a whole. */
  lemma PlainScore(m: seq<nat>, length: int, beginnings: nat, strict: bool)
    requires m != []
    ensures Score(m, length, beginnings, Kind(strict, false, false))
         == -(if !strict then Lost(m) * 1000.0 else if beginnings > 24 then Lost(m) * ((beginnings - 24) as real * 10.0)
              else Lost(m)) - (length - |m|) as real
  {
    hide Losses, Lost;
    ScoreIs(m, length, beginnings, Kind(strict, false, false));
  }

  lemma DividedInOrder(x: real, y: real, b: real)
    requires x >= y && b >= 1.0
    ensures x / b >= y / b && (x > y ==> x / b > y / b) && (x <= 0.0 ==> x <= x / b <= 0.0)
  {
  }

  lemma LostIsPositive(m: seq<nat>, codes: seq<int>, search: seq<int>)
    requires m != [] && IsAlignment(m, codes, search)
    ensures Lost(m) >= 0.0 && (LaterStarts(m) != [] || m[0] != 0 ==> Lost(m) > 0.0)
  {
    IncreasingAbove(m, |m| - 1);
    AtLeast(12 + (m[|m| - 1] - m[0] - (|m| - 1)), |LaterStarts(m)|);
    AtLeast(m[0], m[0]);
  }

  lemma AtLeast(a: nat, b: nat)
    ensures a * b >= 0 && (a > 0 && b > 0 ==> a * b > 0)
  {
  }

  /** A strict match of a target with few words never scores below one that is not at the same positions, and above it
      if it has gaps or starts late. */
  lemma StrictIsBetter(m: seq<nat>, codes: seq<int>, search: seq<int>, beginnings: nat, whole: bool, atBeginning: bool)
    requires m != [] && IsAlignment(m, codes, search) && beginnings <= 24
    ensures var (strict, other) := (Score(m, |codes|, beginnings, Kind(true, whole, atBeginning)),
                                    Score(m, |codes|, beginnings, Kind(false, whole, atBeginning)));
      && strict >= other
      && (LaterStarts(m) != [] || m[0] != 0 ==> strict > other)
  {
    hide Losses, Lost, Bonus;
    LossesAreLost(m);
    LostIsPositive(m, codes, search);
    var x, y := -Lost(m) - Overlength(m, |codes|), -Lost(m) * 1000.0 - Overlength(m, |codes|);
    var b, c := Bonus(|m|, whole), Bonus(|m|, atBeginning);
    DividedInOrder(x, y, b);
    DividedInOrder(x / b, y / b, c);
  }

  /** Standing as a whole, and at a beginning, never makes a score worse. */
  lemma WholeIsBetter(m: seq<nat>, codes: seq<int>, search: seq<int>, beginnings: nat, strict: bool)
    requires m != [] && IsAlignment(m, codes, search)
    ensures Score(m, |codes|, beginnings, Kind(strict, true, true))
         >= Score(m, |codes|, beginnings, Kind(strict, true, false))
         >= Score(m, |codes|, beginnings, Kind(strict, false, false))
  {
    hide Losses, IsAlignment;
    LossesBounds(m, codes, search);
    var x, b := -Losses(m) * Weight(beginnings, strict) - Overlength(m, |codes|), Bonus(|m|, true);
    ScaledBounds(m, codes, search, beginnings, Kind(strict, false, false));
    assert Scaled(m, |codes|, beginnings, Kind(strict, false, false)) == x;
    DividedInOrder(x, x, b);
    DividedInOrder(x / b, x / b, b);
  }

  /** Two inputs: "fb" in "foo bar" at the starts of the words, and in "afxb", where it is no strict match. */
  lemma WordsBeatLetters()
    ensures Score([0, 4], 7, 3, Kind(true, false, false)) == -24.0
    ensures Score([1, 3], 4, 1, Kind(false, false, false)) == -16202.0
  {
    assert [0, 4][..1] == [0] && [1, 3][..1] == [1];
    assert LaterStarts([0, 4]) == [4] && LaterStarts([1, 3]) == [3];
    SumOneMore([], 4);
    SumOneMore([], 3);
    PlainScore([0, 4], 7, 3, true);
    PlainScore([1, 3], 4, 1, false);
  }
}
