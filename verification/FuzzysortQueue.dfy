/** The binary heap fuzzysort keeps its best results in (src/utils/scripts/fuzzysort.js:702-704). */
module FuzzysortQueue {

  datatype Result = Result(target: int, score: real)

  /** The parent of heap index `i`; `>>` rounds down, so the root's parent is -1. */
  function Parent(i: int): int {
    (i - 1) / 2
  }

  ghost predicate OrderedAt(e: seq<Result>, i: int)
    requires 0 < i < |e|
  {
    e[Parent(i)].score <= e[i].score
  }

  /** Every entry but the one at `hole` is no smaller than its parent. */
  ghost predicate HeapBut(e: seq<Result>, o: nat, hole: int) {
    o <= |e| && forall i {:trigger OrderedAt(e, i)} :: 0 < i < o && i != hole ==> OrderedAt(e, i)
  }

  ghost predicate IsHeap(e: seq<Result>, o: nat) {
    HeapBut(e, o, -1)
  }

  /** Everything below `hole` is no smaller than `v`. */
  ghost predicate Below(e: seq<Result>, o: nat, hole: int, v: real) {
    o <= |e| && forall i {:trigger e[i]} :: 0 < i < o && Parent(i) == hole ==> v <= e[i].score
  }

  /** The root of a heap is a least entry. */
  lemma {:induction false} RootIsLeast(e: seq<Result>, o: nat, i: nat)
    requires IsHeap(e, o) && i < o
    ensures e[0].score <= e[i].score
  {
    if i > 0 {
      RootIsLeast(e, o, Parent(i));
      assert OrderedAt(e, i);
    }
  }

  /** Moving an entry into the hole and the hole to where it was keeps the contents. */
  lemma HoleMoves(s: seq<Result>, hole: nat, from: nat, v: Result)
    requires hole < |s| && from < |s| && hole != from
    ensures multiset(s[hole := s[from]][from := v]) == multiset(s[hole := v])
  {
  }

  /** Moving the parent down into the hole keeps the order. */
  lemma ParentMovesDown(e: seq<Result>, o: nat, hole: nat, v: real)
    requires 0 < hole < o <= |e| && HeapBut(e, o, hole) && Below(e, o, hole, v) && v < e[Parent(hole)].score
    requires Below(e, o, hole, e[Parent(hole)].score)
    ensures var e' := e[hole := e[Parent(hole)]];
      && HeapBut(e', o, Parent(hole)) && Below(e', o, Parent(hole), v)
      && (Parent(hole) > 0 ==> Below(e', o, Parent(hole), e'[Parent(Parent(hole))].score))
  {
    var f := Parent(hole);
    var e' := e[hole := e[f]];
    forall i | 0 < i < o && i != f
      ensures OrderedAt(e', i)
    {
      assert i != hole ==> OrderedAt(e, i);
    }
    forall i | 0 < i < o && Parent(i) == f
      ensures v <= e'[i].score && (f > 0 ==> e'[Parent(f)].score <= e'[i].score)
    {
      assert i != hole ==> OrderedAt(e, i);
      assert f > 0 ==> OrderedAt(e, f);
    }
  }

  /** Filling a hole between what is above and what is below completes the heap. */
  lemma HoleFilled(e: seq<Result>, o: nat, hole: nat, v: Result)
    requires hole < o <= |e| && HeapBut(e, o, hole) && Below(e, o, hole, v.score)
    requires hole > 0 ==> e[Parent(hole)].score <= v.score
    ensures IsHeap(e[hole := v], o)
  {
    var e' := e[hole := v];
    forall i | 0 < i < o
      ensures OrderedAt(e', i)
    {
      assert i != hole ==> OrderedAt(e, i);
      assert Parent(i) == hole ==> v.score <= e[i].score;
    }
  }

  /** A new entry behind a heap is a hole with nothing below it. */
  lemma LeafAppended(before: seq<Result>, e: seq<Result>, o: nat, r: Result)
    requires IsHeap(before, o) && o < |e| && e[..o] == before[..o] && e[o] == r
    ensures HeapBut(e, o + 1, o) && Below(e, o + 1, o, r.score) && (o > 0 ==> Below(e, o + 1, o, e[Parent(o)].score))
  {
    forall i | 0 < i < o
      ensures OrderedAt(e, i)
    {
      assert OrderedAt(before, i);
      assert e[..o][i] == before[..o][i] && e[..o][Parent(i)] == before[..o][Parent(i)];
    }
  }

  class FastPriorityQueue {
    var e: seq<Result>
    var o: nat

    constructor ()
      ensures Valid() && Contents() == multiset{}
    {
      e, o := [], 0;
    }

    ghost predicate Valid()
      reads this
    {
      o <= |e| && IsHeap(e, o)
    }

    ghost function Contents(): (c: multiset<Result>)
      requires Valid()
      reads this
      ensures |c| == o
    {
      multiset(e[..o])
    }

    /** Moves a hole towards the root until `v` fits, and puts `v` there. */
    method PercolateUp(start: nat, v: Result)
      requires start < o <= |e| && HeapBut(e, o, start) && Below(e, o, start, v.score)
      requires start > 0 ==> Below(e, o, start, e[Parent(start)].score)
      modifies this`e
      ensures Valid() && Contents() == multiset(old(e)[..o][start := v]) && |e| == |old(e)|
    {
      hide HeapBut, Below, IsHeap;
      var a := start;
      while a > 0 && v.score < e[Parent(a)].score
        invariant 0 <= a < o <= |e| == |old(e)| && HeapBut(e, o, a) && Below(e, o, a, v.score)
        invariant a > 0 ==> Below(e, o, a, e[Parent(a)].score)
        invariant multiset(e[..o][a := v]) == multiset(old(e)[..o][start := v])
      {
        ParentMovesDown(e, o, a, v.score);
        HoleMoves(e[..o], a, Parent(a), v);
        assert e[a := e[Parent(a)]][..o] == e[..o][a := e[..o][Parent(a)]];
        e := e[a := e[Parent(a)]];
        a := Parent(a);
      }
      HoleFilled(e, o, a, v);
      assert e[a := v][..o] == e[..o][a := v];
      e := e[a := v];
    }

    /** Takes the root out, moves the smaller child up along one path down to a leaf, and brings the old root up
        from there to its place. */
    method PercolateDown()
      requires 0 < o <= |e| && HeapButRoot(e, o)
      modifies this`e
      ensures Valid() && Contents() == multiset(old(e)[..o]) && |e| == |old(e)|
    {
      hide HeapBut, Below, IsHeap, HeapButRoot, Parent;
      var a, v, c := 0, e[0], 1;
      assert e[..o][0 := v] == e[..o];
      while c < o
        invariant 0 <= a < o <= |e| == |old(e)| && c == 2 * a + 1
        invariant if a == 0 then HeapButRoot(e, o) else IsHeap(e, o)
        invariant multiset(e[..o][a := v]) == multiset(old(e)[..o])
      {
        var s := c + 1;
        var n := if s < o && e[s].score < e[c].score then s else c;
        assert (n == c || n == s) && e[n].score <= e[c].score && (s < o ==> e[n].score <= e[s].score);
        ChildMovesUp(e, o, a, n);
        HoleMoves(e[..o], a, n, v);
        assert e[a := e[n]][..o] == e[..o][a := e[..o][n]];
        e := e[Parent(n) := e[n]];
        a := n;
        c := 1 + 2 * a;
      }
      LeafHasNothingBelow(e, o, a, v.score);
      PercolateUp(a, v);
    }

    method Add(r: Result)
      requires Valid()
      modifies this
      ensures Valid() && Contents() == old(Contents()) + multiset{r}
    {
      hide Below;
      ghost var before := e;
      e := if o < |e| then e[o := r] else e + [r];
      assert e[..o + 1] == before[..o] + [r];
      assert e[..o + 1][o := r] == e[..o + 1];
      LeafAppended(before, e, o, r);
      o := o + 1;
      PercolateUp(o - 1, r);
    }

    method Poll() returns (r: Result)
      requires Valid() && o > 0
      modifies this
      ensures Valid() && r in old(Contents()) && Contents() == old(Contents()) - multiset{r}
      ensures forall x :: x in old(Contents()) ==> r.score <= x.score
    {
      r := e[0];
      RootIsLeastOfAll(e, o);
      ghost var before := e[..o];
      RootReplaced(e, o, o - 1, e[o - 1]);
      o := o - 1;
      e := e[0 := e[o]];
      PollContents(before, e[..o]);
      if o > 0 {
        PercolateDown();
      }
    }

    function Peek(): Result
      requires o > 0 && o <= |e|
      reads this
    {
      e[0]
    }

    method ReplaceTop(r: Result)
      requires Valid() && o > 0
      modifies this`e
      ensures Valid() && Contents() == old(Contents()) - multiset{old(Peek())} + multiset{r}
    {
      ghost var before := e[..o];
      RootReplaced(e, o, o, r);
      e := e[0 := r];
      assert e[..o] == before[0 := r];
      PercolateDown();
    }
  }

  /** A heap but for its root. */
  ghost predicate HeapButRoot(e: seq<Result>, o: nat) {
    o <= |e| && forall i {:trigger OrderedAt(e, i)} :: 0 < i < o && Parent(i) > 0 ==> OrderedAt(e, i)
  }

  /** Moving the smaller child up into its parent keeps the order, and completes it at the root. */
  lemma ChildMovesUp(e: seq<Result>, o: nat, a: nat, n: nat)
    requires a < o <= |e| && 2 * a + 1 < o && (n == 2 * a + 1 || n == 2 * a + 2) && n < o
    requires e[n].score <= e[2 * a + 1].score && (2 * a + 2 < o ==> e[n].score <= e[2 * a + 2].score)
    requires if a == 0 then HeapButRoot(e, o) else IsHeap(e, o)
    ensures Parent(n) == a && IsHeap(e[a := e[n]], o)
  {
    var e' := e[a := e[n]];
    assert a > 0 ==> OrderedAt(e, n);
    forall i | 0 < i < o
      ensures OrderedAt(e', i)
    {
      if Parent(i) == a {
        assert i == 2 * a + 1 || i == 2 * a + 2;
      } else {
        assert i == a ==> e[a].score <= e[n].score;
        assert OrderedAt(e, i);
      }
    }
  }

  /** A new root, and possibly fewer entries: still a heap but for the root. */
  lemma RootReplaced(e: seq<Result>, o: nat, o': nat, r: Result)
    requires IsHeap(e, o) && 0 < o && o' <= o
    ensures HeapButRoot(e[0 := r], o')
  {
    forall i | 0 < i < o' && Parent(i) > 0
      ensures OrderedAt(e[0 := r], i)
    {
      assert OrderedAt(e, i);
    }
  }

  lemma LeafHasNothingBelow(e: seq<Result>, o: nat, a: nat, v: real)
    requires a < o <= |e| && 2 * a + 1 >= o && (if a == 0 then HeapButRoot(e, o) else IsHeap(e, o))
    ensures HeapBut(e, o, a) && Below(e, o, a, v) && (a > 0 ==> Below(e, o, a, e[Parent(a)].score))
  {
  }

  lemma RootIsLeastOfAll(e: seq<Result>, o: nat)
    requires IsHeap(e, o) && 0 < o
    ensures forall x :: x in multiset(e[..o]) ==> e[0].score <= x.score
  {
    forall x | x in multiset(e[..o])
      ensures e[0].score <= x.score
    {
      var i :| 0 <= i < o && e[..o][i] == x;
      RootIsLeast(e, o, i);
    }
  }

  /** The last entry takes the place of the root. */
  lemma PollContents(before: seq<Result>, after: seq<Result>)
    requires 0 < |before| == |after| + 1
    requires after == (if |after| == 0 then [] else before[..|after|][0 := before[|after|]])
    ensures multiset(after) == multiset(before) - multiset{before[0]}
  {
    var n := |after|;
    assert before == before[..n] + [before[n]];
  }
}
