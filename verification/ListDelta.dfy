/** List edits and their replay from deltas, as in src/plugin/src/Sleepy/Settings/listnode.cpp:109-184, 211-259,
    432-451: removals are replayed from the last to the first, then additions in order, then moves. */
module ListDelta {

  function InsertAt<T>(s: seq<T>, i: nat, x: T): (r: seq<T>)
    requires i <= |s|
    ensures |r| == |s| + 1
  {
    s[..i] + [x] + s[i..]
  }

  function RemoveAt<T>(s: seq<T>, i: nat): (r: seq<T>)
    requires i < |s|
    ensures |r| == |s| - 1
  {
    s[..i] + s[i + 1..]
  }

  /** Takes the item at `i` out and puts it back in at `j`. */
  function MoveItem<T>(s: seq<T>, i: nat, j: nat): (r: seq<T>)
    requires i < |s| && j < |s|
    ensures |r| == |s|
  {
    InsertAt(RemoveAt(s, i), j, s[i])
  }

  datatype Delta = Delta(added: seq<nat>, removed: seq<nat>, moved: seq<(nat, nat)>)

  /** The indices fit a list of `n` items when they are taken out from the last to the first. */
  ghost predicate CanTake(n: int, removed: seq<nat>)
    decreases |removed|
  {
    removed == [] || (removed[|removed| - 1] < n && CanTake(n - 1, removed[..|removed| - 1]))
  }

  function TakeAll<T>(s: seq<T>, removed: seq<nat>): (r: seq<T>)
    requires CanTake(|s|, removed)
    ensures |r| == |s| - |removed|
    decreases |removed|
  {
    if removed == [] then s else TakeAll(RemoveAt(s, removed[|removed| - 1]), removed[..|removed| - 1])
  }

  ghost predicate CanAdd(n: int, added: seq<nat>)
    decreases |added|
  {
    added == [] || (added[0] <= n && CanAdd(n + 1, added[1..]))
  }

  /** Inserts `items[0]` at `added[0]`, then `items[1]` at `added[1]`, and so on. */
  function AddAll<T>(s: seq<T>, added: seq<nat>, items: seq<T>): (r: seq<T>)
    requires CanAdd(|s|, added) && |items| == |added|
    ensures |r| == |s| + |added|
    decreases |added|
  {
    if added == [] then s else AddAll(InsertAt(s, added[0], items[0]), added[1..], items[1..])
  }

  ghost predicate CanMove(n: int, moved: seq<(nat, nat)>) {
    forall k :: 0 <= k < |moved| ==> moved[k].0 < n && moved[k].1 < n
  }

  function MoveAll<T>(s: seq<T>, moved: seq<(nat, nat)>): (r: seq<T>)
    requires CanMove(|s|, moved)
    ensures |r| == |s|
    decreases |moved|
  {
    if moved == [] then s else MoveAll(MoveItem(s, moved[0].0, moved[0].1), moved[1..])
  }

  ghost predicate CanReplay(n: nat, d: Delta) {
    && CanTake(n, d.removed) && CanAdd(n - |d.removed|, d.added)
    && CanMove(n - |d.removed| + |d.added|, d.moved)
  }

  /** The list after a delta, given what is added. */
  function Replay<T>(s: seq<T>, d: Delta, items: seq<T>): seq<T>
    requires CanReplay(|s|, d) && |items| == |d.added|
  {
    MoveAll(AddAll(TakeAll(s, d.removed), d.added, items), d.moved)
  }

  /** The items a delta takes from the list it describes. */
  function ItemsAt<T>(s: seq<T>, added: seq<nat>): (r: seq<T>)
    requires forall k :: 0 <= k < |added| ==> added[k] < |s|
    ensures |r| == |added| && forall k :: 0 <= k < |added| ==> r[k] == s[added[k]]
  {
    if added == [] then [] else [s[added[0]]] + ItemsAt(s, added[1..])
  }

  /** A delta leads from one list to another if replaying it with the items of the second gives the second. */
  ghost predicate LeadsTo<T>(s: seq<T>, d: Delta, t: seq<T>) {
    && CanReplay(|s|, d) && (forall k :: 0 <= k < |d.added| ==> d.added[k] < |t|)
    && Replay(s, d, ItemsAt(t, d.added)) == t
  }

  function UpTo(n: nat): (r: seq<nat>)
    ensures |r| == n && forall i :: 0 <= i < n ==> r[i] == i
  {
    if n == 0 then [] else UpTo(n - 1) + [n - 1]
  }

  /** Which items are where after each edit. */
  lemma EditsAre<T>(s: seq<T>, i: nat, j: nat, x: T)
    ensures i <= |s| ==> InsertAt(s, i, x) == s[..i] + [x] + s[i..]
    ensures i < |s| ==> RemoveAt(s, i) == s[..i] + s[i + 1..]
    ensures i <= j < |s| ==> MoveItem(s, i, j) == s[..i] + s[i + 1..j + 1] + [s[i]] + s[j + 1..]
    ensures j < i < |s| ==> MoveItem(s, i, j) == s[..j] + [s[i]] + s[j..i] + s[i + 1..]
  {
    if i <= j < |s| {
      MovedBack(s, i, j);
    } else if j < i < |s| {
      MovedForth(s, i, j);
    }
  }

  lemma MovedBack<T>(s: seq<T>, i: nat, j: nat)
    requires i <= j < |s|
    ensures MoveItem(s, i, j) == s[..i] + s[i + 1..j + 1] + [s[i]] + s[j + 1..]
  {
    var rest := RemoveAt(s, i);
    assert rest[..j] == s[..i] + s[i + 1..j + 1];
    assert rest[j..] == s[j + 1..];
  }

  lemma MovedForth<T>(s: seq<T>, i: nat, j: nat)
    requires j < i < |s|
    ensures MoveItem(s, i, j) == s[..j] + [s[i]] + s[j..i] + s[i + 1..]
  {
    var rest := RemoveAt(s, i);
    assert rest[..j] == s[..j];
    assert rest[j..] == s[j..i] + s[i + 1..];
    assert s[..j] + [s[i]] + s[j..i] + s[i + 1..] == s[..j] + [s[i]] + (s[j..i] + s[i + 1..]);
  }

  /** A delta is replayed in this order: what is removed from the last to the first, then what is added and what is
      moved from the first to the last. */
  lemma ReplayedInOrder<T>(s: seq<T>, p: nat, q: nat, x: T, y: T)
    ensures q < |s| && p < |s| - 1 ==>
              && CanReplay(|s|, Delta([], [p, q], []))
              && Replay(s, Delta([], [p, q], []), []) == RemoveAt(RemoveAt(s, q), p)
    ensures p <= |s| && q <= |s| + 1 ==>
              && CanReplay(|s|, Delta([p, q], [], []))
              && Replay(s, Delta([p, q], [], []), [x, y]) == InsertAt(InsertAt(s, p, x), q, y)
    ensures p < |s| && q < |s| ==>
              && CanReplay(|s|, Delta([p], [q], [(q, p), (p, q)]))
              && Replay(s, Delta([p], [q], [(q, p), (p, q)]), [x])
                 == MoveItem(MoveItem(InsertAt(RemoveAt(s, q), p, x), q, p), p, q)
  {
    if q < |s| && p < |s| - 1 {
      RemovedLastFirst(s, p, q);
    }
    if p <= |s| && q <= |s| + 1 {
      AddedInOrder(s, p, q, x, y);
    }
    if p < |s| && q < |s| {
      MovedAtTheEnd(s, p, q, x);
    }
  }

  lemma RemovedLastFirst<T>(s: seq<T>, p: nat, q: nat)
    requires q < |s| && p < |s| - 1
    ensures CanTake(|s|, [p, q]) && TakeAll(s, [p, q]) == RemoveAt(RemoveAt(s, q), p)
  {
    var removed, rest: seq<nat>, none: seq<nat> := [p, q], [p], [];
    assert removed[..1] == rest && rest[..0] == none;
    assert CanTake(|s| - 2, none) && CanTake(|s| - 1, rest);
    assert TakeAll(RemoveAt(s, q), rest) == TakeAll(RemoveAt(RemoveAt(s, q), p), none);
  }

  lemma AddedInOrder<T>(s: seq<T>, p: nat, q: nat, x: T, y: T)
    requires p <= |s| && q <= |s| + 1
    ensures CanAdd(|s|, [p, q]) && AddAll(s, [p, q], [x, y]) == InsertAt(InsertAt(s, p, x), q, y)
  {
    var added, rest: seq<nat>, none: seq<nat> := [p, q], [q], [];
    assert added[1..] == rest && rest[1..] == none && [x, y][1..] == [y] && [y][1..] == [];
    assert CanAdd(|s| + 2, none) && CanAdd(|s| + 1, rest);
    assert AddAll(InsertAt(s, p, x), rest, [y]) == AddAll(InsertAt(InsertAt(s, p, x), q, y), none, []);
  }

  lemma MovedAtTheEnd<T>(s: seq<T>, p: nat, q: nat, x: T)
    requires p < |s| && q < |s|
    ensures CanReplay(|s|, Delta([p], [q], [(q, p), (p, q)]))
    ensures Replay(s, Delta([p], [q], [(q, p), (p, q)]), [x])
         == MoveItem(MoveItem(InsertAt(RemoveAt(s, q), p, x), q, p), p, q)
  {
    RemoveLeads(s, q);
    var kept, removed: seq<nat>, added: seq<nat>, none: seq<nat> := RemoveAt(s, q), [q], [p], [];
    assert removed[..0] == none && added[1..] == none && [x][1..] == [];
    assert CanTake(|s| - 1, none) && TakeAll(s, removed) == TakeAll(kept, none);
    assert CanAdd(|s|, none) && AddAll(kept, added, [x]) == AddAll(InsertAt(kept, p, x), none, []);
    var t, moved: seq<(nat, nat)> := InsertAt(kept, p, x), [(q, p), (p, q)];
    var last: seq<(nat, nat)> := [(p, q)];
    assert moved[1..] == last && last[1..] == [];
    assert MoveAll(t, moved) == MoveAll(MoveItem(t, q, p), last) == MoveAll(MoveItem(MoveItem(t, q, p), p, q), []);
  }

  // --- The deltas the list announces ---

  lemma InsertLeads<T>(s: seq<T>, i: nat, x: T)
    requires i <= |s|
    ensures LeadsTo(s, Delta([i], [], []), InsertAt(s, i, x))
  {
    var t, added := InsertAt(s, i, x), [i];
    assert CanAdd(|s|, added) by { assert added[1..] == [] && CanAdd(|s| + 1, added[1..]); }
    assert added[1..] == [] && ItemsAt(t, added)[0] == x && ItemsAt(t, added)[1..] == [];
    assert AddAll(s, added, ItemsAt(t, added)) == t;
  }

  lemma RemoveLeads<T>(s: seq<T>, i: nat)
    requires i < |s|
    ensures LeadsTo(s, Delta([], [i], []), RemoveAt(s, i))
  {
    var removed := [i];
    assert removed[..|removed| - 1] == [] && CanTake(|s| - 1, removed[..|removed| - 1]);
    assert TakeAll(s, removed) == RemoveAt(s, i);
  }

  lemma MoveLeads<T>(s: seq<T>, i: nat, j: nat)
    requires i < |s| && j < |s|
    ensures LeadsTo(s, Delta([], [], [(i, j)]), MoveItem(s, i, j))
  {
    assert MoveAll(s, [(i, j)]) == MoveItem(s, i, j);
  }

  /** Taking all out and putting all in replaces any list by any other. */
  lemma ReplaceLeads<T>(s: seq<T>, t: seq<T>)
    ensures LeadsTo(s, Delta(UpTo(|t|), UpTo(|s|), []), t)
  {
    hide AddAll, TakeAll, CanAdd, CanTake, UpTo, ItemsAt, MoveAll;
    TakeEverything(s);
    FillEmpty(t);
    NoMoves(t);
  }

  lemma NoMoves<T>(t: seq<T>)
    ensures MoveAll(t, []) == t
  {
  }

  lemma FillEmpty<T>(t: seq<T>)
    ensures CanAdd(0, UpTo(|t|)) && ItemsAt(t, UpTo(|t|)) == t && AddAll([], UpTo(|t|), t) == t
  {
    AddEverything(t, 0);
    assert t[..0] == [] && UpTo(|t|)[0..] == UpTo(|t|) && t[0..] == t;
    assert ItemsAt(t, UpTo(|t|)) == t;
  }

  lemma {:induction false} TakeEverything<T>(s: seq<T>)
    ensures CanTake(|s|, UpTo(|s|)) && TakeAll(s, UpTo(|s|)) == []
  {
    var n := |s|;
    if n > 0 {
      assert UpTo(n)[..n - 1] == UpTo(n - 1);
      TakeEverything(RemoveAt(s, n - 1));
    }
  }

  lemma {:induction false} AddEverything<T>(t: seq<T>, k: nat)
    requires k <= |t|
    ensures CanAdd(k, UpTo(|t|)[k..]) && AddAll(t[..k], UpTo(|t|)[k..], t[k..]) == t
    decreases |t| - k
  {
    if k < |t| {
      assert UpTo(|t|)[k..][1..] == UpTo(|t|)[k + 1..] && t[k..][1..] == t[k + 1..];
      assert InsertAt(t[..k], k, t[k]) == t[..k + 1];
      AddEverything(t, k + 1);
    } else {
      assert t[..k] == t;
    }
  }

  lemma NothingAdded<T>(s: seq<T>, added: seq<nat>)
    ensures CanAdd(|s|, added[..0]) && AddAll(s, added[..0], []) == s
  {
  }

  lemma MoveItemKeeps<T>(s: seq<T>, i: nat, j: nat)
    requires i < |s| && j < |s|
    ensures forall x :: x in MoveItem(s, i, j) ==> x in s
  {
  }

  lemma RemoveKeeps<T>(s: seq<T>, i: nat)
    requires i < |s|
    ensures forall x :: x in RemoveAt(s, i) ==> x in s
  {
  }

  /** Adding one item more, in terms of what was added before. */
  lemma {:induction false} AddOneMore<T>(s: seq<T>, added: seq<nat>, i: nat, items: seq<T>, x: T)
    requires i < |added| && CanAdd(|s|, added) && |items| == i
    ensures CanAdd(|s|, added[..i]) && CanAdd(|s|, added[..i + 1]) && CanAdd(|s| + i, added[i..]) && added[i] <= |s| + i
    ensures AddAll(s, added[..i + 1], items + [x]) == InsertAt(AddAll(s, added[..i], items), added[i], x)
    decreases i
  {
    if i == 0 {
      assert added[..1] == [added[0]] && added[..0] == [] && added[0..] == added && items + [x] == [x];
      assert [added[0]][1..] == [] && [x][1..] == [];
      assert AddAll(s, [added[0]], [x]) == AddAll(InsertAt(s, added[0], x), [], []);
    } else {
      AddOneMore(InsertAt(s, added[0], items[0]), added[1..], i - 1, items[1..], x);
      assert added[..i][1..] == added[1..][..i - 1] && added[..i + 1][1..] == added[1..][..i]
        && added[1..][i - 1..] == added[i..];
      assert (items + [x])[1..] == items[1..] + [x];
    }
  }

  /** Moving one item more, in terms of what was moved before. */
  lemma {:induction false} MoveOneMore<T>(s: seq<T>, moved: seq<(nat, nat)>, i: nat)
    requires i < |moved| && CanMove(|s|, moved)
    ensures MoveAll(s, moved[..i + 1]) == MoveItem(MoveAll(s, moved[..i]), moved[i].0, moved[i].1)
    decreases i
  {
    if i == 0 {
      var first: seq<(nat, nat)> := [moved[0]];
      assert moved[..1] == first && moved[..0] == [] && first[1..] == [];
      assert MoveAll(s, first) == MoveAll(MoveItem(s, moved[0].0, moved[0].1), []);
    } else {
      MoveOneMore(MoveItem(s, moved[0].0, moved[0].1), moved[1..], i - 1);
      assert moved[..i][1..] == moved[1..][..i - 1] && moved[..i + 1][1..] == moved[1..][..i];
    }
  }

  ghost predicate AllDistinct<T>(s: seq<T>) {
    forall i, j :: 0 <= i < j < |s| ==> s[i] != s[j]
  }

  lemma DistinctAppend<T>(s: seq<T>, x: T)
    requires AllDistinct(s) && x !in s
    ensures AllDistinct(s + [x])
  {
  }

  lemma RemoveDistinct<T>(s: seq<T>, i: nat)
    requires i < |s| && AllDistinct(s)
    ensures AllDistinct(RemoveAt(s, i)) && s[i] !in RemoveAt(s, i) && forall x :: x in RemoveAt(s, i) ==> x in s
  {
  }

  lemma InsertDistinct<T>(s: seq<T>, i: nat, x: T)
    requires i <= |s| && AllDistinct(s) && x !in s
    ensures AllDistinct(InsertAt(s, i, x)) && forall y :: y in InsertAt(s, i, x) ==> y in s || y == x
  {
  }

  lemma MoveDistinct<T>(s: seq<T>, i: nat, j: nat)
    requires i < |s| && j < |s| && AllDistinct(s)
    ensures AllDistinct(MoveItem(s, i, j))
  {
  }

  /** Where the items of a list are from after one was moved. */
  lemma MovedAt<T>(s: seq<T>, i: nat, j: nat)
    requires i < |s| && j < |s|
    ensures forall k :: 0 <= k < |s| ==> MoveItem(s, i, j)[k] == s[MovedFrom(i, j, k)]
  {
  }

  function MovedFrom(i: nat, j: nat, k: nat): nat {
    if k == j then i
    else if i <= k < j then k + 1
    else if j < k <= i then k - 1
    else k
  }

  /** A replay brings in nothing but what is added. */
  lemma ReplayKeeps<T>(s: seq<T>, d: Delta, items: seq<T>)
    requires CanReplay(|s|, d) && |items| == |d.added|
    ensures forall x :: x in Replay(s, d, items) ==> x in s || x in items
  {
    TakeKeeps(s, d.removed);
    var kept := TakeAll(s, d.removed);
    AddKeeps(kept, d.added, items);
    MoveKeeps(AddAll(kept, d.added, items), d.moved);
  }

  lemma {:induction false} TakeKeeps<T>(s: seq<T>, removed: seq<nat>)
    requires CanTake(|s|, removed)
    ensures forall x :: x in TakeAll(s, removed) ==> x in s
    decreases |removed|
  {
    if removed != [] {
      TakeKeeps(RemoveAt(s, removed[|removed| - 1]), removed[..|removed| - 1]);
    }
  }

  lemma {:induction false} AddKeeps<T>(s: seq<T>, added: seq<nat>, items: seq<T>)
    requires CanAdd(|s|, added) && |items| == |added|
    ensures forall x :: x in AddAll(s, added, items) ==> x in s || x in items
    decreases |added|
  {
    if added != [] {
      AddKeeps(InsertAt(s, added[0], items[0]), added[1..], items[1..]);
    }
  }

  lemma {:induction false} MoveKeeps<T>(s: seq<T>, moved: seq<(nat, nat)>)
    requires CanMove(|s|, moved)
    ensures forall x :: x in MoveAll(s, moved) ==> x in s
    decreases |moved|
  {
    if moved != [] {
      MoveKeeps(MoveItem(s, moved[0].0, moved[0].1), moved[1..]);
    }
  }
}
