/** Which rows of the lazy list have delegates, and how rows, delegates and known heights stay in step when the model
    changes (src/plugin/src/Sleepy/Components/lazylistview.cpp:238-254, 587-663, 731-810, 881-1055).
    Delegates are numbered items; what QML makes of them is a step input. */
module LazyDelegates {
  import opened Wrappers
  import opened LazyLayout

  const ASYNC_BATCH_CREATE: nat := 2
  const ASYNC_BATCH_DESTROY: nat := 4

  type Item = nat

  datatype Entry = Entry(modelIndex: nat, item: Item, pendingRemoval: bool, pendingInsert: bool)

  // --- Sums over the known heights ---

  function KnownSum(layout: seq<Record>): real {
    if layout == [] then 0.0
    else KnownSum(layout[1..]) + if layout[0].heightKnown then layout[0].height else 0.0
  }

  function KnownCount(layout: seq<Record>): nat {
    if layout == [] then 0
    else KnownCount(layout[1..]) + if layout[0].heightKnown then 1 else 0
  }

  /** The height rows of unknown height are laid out with: the one set, or the mean of those known, or forty. */
  function Estimate(layout: seq<Record>, estimatedHeight: real): real {
    if estimatedHeight >= 0.0 then estimatedHeight
    else if KnownCount(layout) > 0 then KnownSum(layout) / KnownCount(layout) as real else 40.0
  }

  /** The height that is set counts; else, if all known heights are the same, that one; else, if none is known, 40. */
  lemma {:induction false} EstimateIs(layout: seq<Record>, estimatedHeight: real, h: real)
    requires forall i :: 0 <= i < |layout| && layout[i].heightKnown ==> layout[i].height == h
    ensures estimatedHeight >= 0.0 ==> Estimate(layout, estimatedHeight) == estimatedHeight
    ensures estimatedHeight < 0.0 ==>
      Estimate(layout, estimatedHeight)
      == if exists i :: 0 <= i < |layout| && layout[i].heightKnown then h else 40.0
  {
    SumOfEqual(layout, h);
    if KnownCount(layout) > 0 {
      Mean(KnownSum(layout), h, KnownCount(layout));
    }
  }

  lemma {:induction false} SumOfEqual(layout: seq<Record>, h: real)
    requires forall i :: 0 <= i < |layout| && layout[i].heightKnown ==> layout[i].height == h
    ensures KnownSum(layout) == h * KnownCount(layout) as real
    ensures KnownCount(layout) > 0 <==> exists i :: 0 <= i < |layout| && layout[i].heightKnown
  {
    if layout != [] {
      SumOfEqual(layout[1..], h);
      if i :| 0 <= i < |layout[1..]| && layout[1..][i].heightKnown {
        assert layout[i + 1].heightKnown;
      }
      if i :| 0 < i < |layout| && layout[i].heightKnown {
        assert layout[1..][i - 1].heightKnown;
      }
    }
  }

  lemma Mean(sum: real, h: real, n: nat)
    requires n > 0 && sum == h * n as real
    ensures sum / n as real == h
  {
  }

  lemma {:induction false} KnownAppend(a: seq<Record>, b: seq<Record>)
    ensures KnownSum(a + b) == KnownSum(a) + KnownSum(b) && KnownCount(a + b) == KnownCount(a) + KnownCount(b)
  {
    if a == [] {
      assert a + b == b;
    } else {
      assert (a + b)[1..] == a[1..] + b;
      KnownAppend(a[1..], b);
    }
  }

  lemma {:induction false} UnknownAddNothing(layout: seq<Record>)
    requires forall i :: 0 <= i < |layout| ==> !layout[i].heightKnown
    ensures KnownSum(layout) == 0.0 && KnownCount(layout) == 0
  {
    if layout != [] {
      UnknownAddNothing(layout[1..]);
    }
  }

  /** Changing one record changes the sums by the difference. */
  lemma KnownUpdate(layout: seq<Record>, i: nat, r: Record)
    requires i < |layout|
    ensures KnownSum(layout[i := r]) == KnownSum(layout) - KnownSum([layout[i]]) + KnownSum([r])
    ensures KnownCount(layout[i := r]) == KnownCount(layout) - KnownCount([layout[i]]) + KnownCount([r])
  {
    assert layout == layout[..i] + [layout[i]] + layout[i + 1..];
    assert layout[i := r] == layout[..i] + [r] + layout[i + 1..];
    KnownAppend(layout[..i] + [layout[i]], layout[i + 1..]);
    KnownAppend(layout[..i] + [r], layout[i + 1..]);
    KnownAppend(layout[..i], [layout[i]]);
    KnownAppend(layout[..i], [r]);
  }

  // --- Where rows go ---

  /** How row numbers change: by rows inserted, removed or moved. */
  datatype Shift =
    | Inserted(first: nat, count: nat)
    | Removed(first: nat, count: nat)
    | Moved(start: nat, count: nat, dest: nat)

  function NewIndex(shift: Shift, i: nat): nat {
    match shift
    case Inserted(first, count) => if i >= first then i + count else i
    case Removed(first, count) => if i > first + count - 1 then i - count else i
    case Moved(start, count, dest) =>
      if start <= i < start + count then dest + (i - start)
      else
        var k := if i > start + count - 1 then i - count else i;
        if k >= dest then k + count else k
  }

  /** The rows after the change; inserted ones are new and of unknown height. */
  function Shifted(layout: seq<Record>, shift: Shift): seq<Record>
    requires Fits(shift, |layout|)
  {
    match shift
    case Inserted(first, count) => PutIn(layout, NewRecords(count), first)
    case Removed(first, count) => TakeOut(layout, first, count)
    case Moved(start, count, dest) => PutIn(TakeOut(layout, start, count), layout[start..start + count], dest)
  }

  function PutIn(layout: seq<Record>, records: seq<Record>, at: nat): (r: seq<Record>)
    requires at <= |layout|
    ensures |r| == |layout| + |records|
  {
    Joined(layout[..at], records, layout[at..])
  }

  function TakeOut(layout: seq<Record>, first: nat, count: nat): (r: seq<Record>)
    requires first + count <= |layout|
    ensures |r| == |layout| - count
  {
    layout[..first] + layout[first + count..]
  }

  function NewRecords(count: nat): (r: seq<Record>)
    ensures |r| == count && forall i :: 0 <= i < count ==> r[i] == Record(0.0, 0.0, false, true)
  {
    seq(count, _ => Record(0.0, 0.0, false, true))
  }

  predicate Fits(shift: Shift, rows: int) {
    match shift
    case Inserted(first, count) => first <= rows
    case Removed(first, count) => first + count <= rows
    case Moved(start, count, dest) => start + count <= rows && dest <= rows - count
  }

  /** Whether a row is still there afterwards. */
  predicate Survives(shift: Shift, i: nat) {
    shift.Removed? ==> !(shift.first <= i < shift.first + shift.count)
  }

  lemma PutInAt(layout: seq<Record>, records: seq<Record>, at: nat, i: nat)
    requires at <= |layout|
    ensures i < |layout| ==> PutIn(layout, records, at)[if i >= at then i + |records| else i] == layout[i]
    ensures i < |records| ==> PutIn(layout, records, at)[at + i] == records[i]
  {
  }

  lemma TakeOutAt(layout: seq<Record>, first: nat, count: nat, i: nat)
    requires first + count <= |layout| && i < |layout| && !(first <= i < first + count)
    ensures TakeOut(layout, first, count)[if i >= first + count then i - count else i] == layout[i]
  {
  }

  /** A surviving row is found under its new number. */
  lemma RowKeepsRecord(layout: seq<Record>, shift: Shift, i: nat)
    requires Fits(shift, |layout|) && i < |layout| && Survives(shift, i)
    ensures 0 <= NewIndex(shift, i) < |Shifted(layout, shift)|
    ensures Shifted(layout, shift)[NewIndex(shift, i)] == layout[i]
  {
    hide PutIn, TakeOut;
    match shift
    case Inserted(first, count) =>
      PutInAt(layout, NewRecords(count), first, i);
    case Removed(first, count) =>
      TakeOutAt(layout, first, count, i);
    case Moved(start, count, dest) =>
      var rest, moved := TakeOut(layout, start, count), layout[start..start + count];
      if start <= i < start + count {
        PutInAt(rest, moved, dest, i - start);
      } else {
        TakeOutAt(layout, start, count, i);
        PutInAt(rest, moved, dest, if i >= start + count then i - count else i);
      }
  }

  /** No two surviving rows get the same number. */
  lemma NewIndexInjective(shift: Shift, i: nat, j: nat)
    requires Survives(shift, i) && Survives(shift, j) && NewIndex(shift, i) == NewIndex(shift, j)
    ensures i == j
  {
  }

  // --- What the model announces ---

  /** Rows were inserted before row `first`. */
  function AfterInsertion<K>(rows: seq<K>, added: seq<K>, first: nat): seq<K>
    requires first <= |rows|
  {
    rows[..first] + added + rows[first..]
  }

  /** The rows from `first` to `last` were removed. */
  function AfterRemoval<K>(rows: seq<K>, first: nat, last: nat): seq<K>
    requires first <= last < |rows|
  {
    rows[..first] + rows[last + 1..]
  }

  /** The rows from `start` to `end` were moved before what was row `row`. */
  function AfterMove<K>(rows: seq<K>, start: nat, end: nat, row: nat): seq<K>
    requires start <= end < |rows| && row <= |rows| && !(start <= row <= end + 1)
  {
    if row < start then Joined(rows[..row], rows[start..end + 1], rows[row..start] + rows[end + 1..])
    else Joined(rows[..start] + rows[end + 1..row], rows[start..end + 1], rows[row..])
  }

  function Joined<K>(a: seq<K>, b: seq<K>, c: seq<K>): (r: seq<K>)
    ensures |r| == |a| + |b| + |c|
  {
    a + b + c
  }

  /** Records change places as the rows they are of, and a row's new number says where it went. */
  lemma InsertionFollowed<K>(rows: seq<K>, added: seq<K>, layout: seq<Record>, first: nat, i: nat)
    requires first <= |rows| == |layout| && added != []
    ensures var shift := Inserted(first, |added|);
      && Shifted(layout, shift) == AfterInsertion(layout, NewRecords(|added|), first)
      && (i < |rows| ==> NewIndex(shift, i) < |rows| + |added|
                         && AfterInsertion(rows, added, first)[NewIndex(shift, i)] == rows[i])
  {
  }

  lemma RemovalFollowed<K>(rows: seq<K>, layout: seq<Record>, first: nat, last: nat, i: nat)
    requires first <= last < |rows| == |layout|
    ensures var shift := Removed(first, last - first + 1);
      && Shifted(layout, shift) == AfterRemoval(layout, first, last)
      && (i < |rows| && !(first <= i <= last) ==>
          0 <= NewIndex(shift, i) < |AfterRemoval(rows, first, last)|
          && AfterRemoval(rows, first, last)[NewIndex(shift, i)] == rows[i])
  {
  }

  lemma MoveFollowed<K>(rows: seq<K>, layout: seq<Record>, start: nat, end: nat, row: nat, i: nat)
    requires start <= end < |rows| == |layout| && row <= |rows| && !(start <= row <= end + 1)
    ensures var count := end - start + 1;
      var shift := Moved(start, count, if row < start then row else row - count);
      && Shifted(layout, shift) == AfterMove(layout, start, end, row)
      && (i < |rows| ==> NewIndex(shift, i) < |AfterMove(rows, start, end, row)|
                         && AfterMove(rows, start, end, row)[NewIndex(shift, i)] == rows[i])
  {
    if row < start {
      MovedUp(layout, start, end, row);
    } else {
      MovedDown(layout, start, end, row);
    }
    if i < |rows| {
      hide Shifted;
      RowMoved(rows, start, end, row, i);
    }
  }

  lemma CutLeft<K>(s: seq<K>, t: seq<K>, k: nat)
    requires k <= |s|
    ensures (s + t)[..k] == s[..k] && (s + t)[k..] == s[k..] + t
  {
  }

  lemma CutRight<K>(s: seq<K>, t: seq<K>, k: nat)
    requires |s| <= k <= |s| + |t|
    ensures (s + t)[..k] == s + t[..k - |s|] && (s + t)[k..] == t[k - |s|..]
  {
  }

  lemma MovedUp(layout: seq<Record>, start: nat, end: nat, row: nat)
    requires row < start <= end < |layout|
    ensures Shifted(layout, Moved(start, end - start + 1, row)) == AfterMove(layout, start, end, row)
  {
    hide Joined;
    CutLeft(layout[..start], layout[end + 1..], row);
    assert layout[..start][..row] == layout[..row] && layout[..start][row..] == layout[row..start];
  }

  lemma MovedDown(layout: seq<Record>, start: nat, end: nat, row: nat)
    requires start <= end < |layout| && end + 1 < row <= |layout|
    ensures Shifted(layout, Moved(start, end - start + 1, row - (end - start + 1)))
      == AfterMove(layout, start, end, row)
  {
    hide Joined;
    CutRight(layout[..start], layout[end + 1..], row - (end - start + 1));
    CutTail(layout, end + 1, row);
  }

  lemma CutTail<K>(s: seq<K>, i: nat, j: nat)
    requires i <= j <= |s|
    ensures s[i..][..j - i] == s[i..j] && s[i..][j - i..] == s[j..]
  {
  }

  lemma PartsAt<K>(a: seq<K>, b: seq<K>, c: seq<K>, i: nat)
    ensures i < |a| ==> Joined(a, b, c)[i] == a[i]
    ensures i < |b| ==> Joined(a, b, c)[|a| + i] == b[i]
    ensures i < |c| ==> Joined(a, b, c)[|a| + |b| + i] == c[i]
  {
  }

  lemma RowMoved<K>(rows: seq<K>, start: nat, end: nat, row: nat, i: nat)
    requires start <= end < |rows| && row <= |rows| && !(start <= row <= end + 1) && i < |rows|
    ensures var count := end - start + 1;
      var j := NewIndex(Moved(start, count, if row < start then row else row - count), i);
      j < |AfterMove(rows, start, end, row)| && AfterMove(rows, start, end, row)[j] == rows[i]
  {
    if row < start {
      RowMovedUp(rows, start, end, row, i);
    } else {
      RowMovedDown(rows, start, end, row, i);
    }
  }

  lemma RowMovedUp<K>(rows: seq<K>, start: nat, end: nat, row: nat, i: nat)
    requires row < start <= end < |rows| && i < |rows|
    ensures var j := NewIndex(Moved(start, end - start + 1, row), i);
      j < |AfterMove(rows, start, end, row)| && AfterMove(rows, start, end, row)[j] == rows[i]
  {
    hide Joined;
    var (a, b, c) := (rows[..row], rows[start..end + 1], rows[row..start] + rows[end + 1..]);
    if i < row {
      PartsAt(a, b, c, i);
    } else if i < start {
      PartsAt(a, b, c, i - row);
    } else if i <= end {
      PartsAt(a, b, c, i - start);
    } else {
      PartsAt(a, b, c, i - row - |b|);
    }
  }

  lemma RowMovedDown<K>(rows: seq<K>, start: nat, end: nat, row: nat, i: nat)
    requires start <= end < |rows| && end + 1 < row <= |rows| && i < |rows|
    ensures var j := NewIndex(Moved(start, end - start + 1, row - (end - start + 1)), i);
      j < |AfterMove(rows, start, end, row)| && AfterMove(rows, start, end, row)[j] == rows[i]
  {
    hide Joined;
    var (a, b, c) := (rows[..start] + rows[end + 1..row], rows[start..end + 1], rows[row..]);
    if i < start {
      PartsAt(a, b, c, i);
    } else if i <= end {
      PartsAt(a, b, c, i - start);
    } else if i < row {
      PartsAt(a, b, c, i - |b|);
    } else {
      PartsAt(a, b, c, i - row);
    }
  }

  /** The sums after the change: removed rows are taken off, and otherwise nothing changes. */
  lemma SumsShift(layout: seq<Record>, shift: Shift)
    requires Fits(shift, |layout|)
    ensures var gone := if shift.Removed? then layout[shift.first..shift.first + shift.count] else [];
      && KnownSum(Shifted(layout, shift)) == KnownSum(layout) - KnownSum(gone)
      && KnownCount(Shifted(layout, shift)) == KnownCount(layout) - KnownCount(gone)
  {
    hide PutIn, TakeOut;
    match shift
    case Inserted(first, count) =>
      UnknownAddNothing(NewRecords(count));
      SumsOfPutIn(layout, NewRecords(count), first);
    case Removed(first, count) =>
      SumsOfTakeOut(layout, first, count);
    case Moved(start, count, dest) =>
      SumsOfTakeOut(layout, start, count);
      SumsOfPutIn(TakeOut(layout, start, count), layout[start..start + count], dest);
  }

  lemma SumsOfPutIn(layout: seq<Record>, records: seq<Record>, at: nat)
    requires at <= |layout|
    ensures var t := PutIn(layout, records, at);
      KnownSum(t) == KnownSum(layout) + KnownSum(records) && KnownCount(t) == KnownCount(layout) + KnownCount(records)
  {
    assert layout == layout[..at] + layout[at..];
    KnownAppend(layout[..at], layout[at..]);
    KnownAppend(layout[..at] + records, layout[at..]);
    KnownAppend(layout[..at], records);
  }

  lemma SumsOfTakeOut(layout: seq<Record>, first: nat, count: nat)
    requires first + count <= |layout|
    ensures var gone, rest := layout[first..first + count], TakeOut(layout, first, count);
      KnownSum(layout) == KnownSum(rest) + KnownSum(gone) && KnownCount(layout) == KnownCount(rest) + KnownCount(gone)
  {
    assert layout == layout[..first] + layout[first..first + count] + layout[first + count..];
    KnownAppend(layout[..first] + layout[first..first + count], layout[first + count..]);
    KnownAppend(layout[..first], layout[first..first + count]);
    KnownAppend(layout[..first], layout[first + count..]);
  }

  // --- The list ---

  /** Delegates and items are found from each other, and every delegate belongs to a row. */
  ghost predicate IsIndexed(rows: nat, delegates: map<nat, Entry>, itemToIndex: map<Item, nat>) {
    && (forall i :: i in delegates ==>
          0 <= i < rows && delegates[i].modelIndex == i && delegates[i].item in itemToIndex
          && itemToIndex[delegates[i].item] == i)
    && (forall item :: item in itemToIndex ==>
         itemToIndex[item] in delegates && delegates[itemToIndex[item]].item == item)
  }

  /** The delegates under their new numbers. */
  ghost predicate IsReindexed(shift: Shift, delegates: map<nat, Entry>, itemToIndex: map<Item, nat>,
                              delegates': map<nat, Entry>, itemToIndex': map<Item, nat>)
  {
    && itemToIndex'.Keys == itemToIndex.Keys
    && (forall item :: item in itemToIndex ==> itemToIndex'[item] == NewIndex(shift, itemToIndex[item]))
    && (forall item :: item in itemToIndex ==>
          && itemToIndex[item] in delegates && itemToIndex'[item] in delegates'
          && delegates'[itemToIndex'[item]] == delegates[itemToIndex[item]].(modelIndex := itemToIndex'[item]))
  }

  class LazyList {
    var layout: seq<Record>
    var delegates: map<nat, Entry>
    var itemToIndex: map<Item, nat>
    var dying: seq<Entry>
    var knownHeightSum: real
    var knownHeightCount: int

    ghost predicate Valid()
      reads this
    {
      && IsIndexed(|layout|, delegates, itemToIndex)
      && knownHeightSum == KnownSum(layout) && knownHeightCount == KnownCount(layout)
    }

    constructor (rows: nat)
      ensures Valid() && |layout| == rows && delegates == map[] && dying == []
    {
      layout, delegates, itemToIndex, dying := UnknownRecords(rows), map[], map[], [];
      knownHeightSum, knownHeightCount := 0.0, 0;
      UnknownAddNothing(UnknownRecords(rows));
    }

    /** Gives every delegate and item its new number. */
    method Reindex(shift: Shift, ghost rows: nat)
      requires IsIndexed(rows, delegates, itemToIndex) && Fits(shift, rows)
      requires forall i :: i in delegates ==> Survives(shift, i)
      modifies `delegates, `itemToIndex
      ensures IsReindexed(shift, old(delegates), old(itemToIndex), delegates, itemToIndex)
      ensures IsIndexed(RowsAfter(shift, rows), delegates, itemToIndex)
    {
      hide NewIndex, Survives, IsIndexed, IsMoving;
      var shifted: map<nat, Entry> := map[];
      var all := delegates;
      ghost var items := itemToIndex;
      var rest := all.Keys;
      NothingMoved(shift, rows, all, items);
      while rest != {}
        invariant rest <= all.Keys && delegates == all
        invariant IsMoving(shift, all, items, itemToIndex, shifted, rest)
      {
        var i :| i in rest;
        OneMoved(shift, rows, all, items, itemToIndex, shifted, rest, i);
        var newIdx := NewIndex(shift, i);
        var entry := all[i].(modelIndex := newIdx);
        itemToIndex := itemToIndex[entry.item := newIdx];
        shifted := shifted[newIdx := entry];
        rest := rest - {i};
      }
      delegates := shifted;
      AllMoved(shift, rows, all, items, itemToIndex, shifted);
    }

    /** Every item that is left still belongs to the row it belonged to, with that row's record. */
    twostate predicate Followed(shift: Shift)
      reads this
    {
      forall item :: item in itemToIndex ==>
        && item in old(itemToIndex) && itemToIndex[item] == NewIndex(shift, old(itemToIndex)[item])
        && itemToIndex[item] < |layout| && old(itemToIndex)[item] < |old(layout)|
        && layout[itemToIndex[item]] == old(layout)[old(itemToIndex)[item]]
        && itemToIndex[item] in delegates && old(itemToIndex)[item] in old(delegates)
        && delegates[itemToIndex[item]] == old(delegates)[old(itemToIndex)[item]].(modelIndex := itemToIndex[item])
    }

    /** Changes the rows and renumbers the delegates to match. */
    method Shift(shift: Shift)
      requires IsIndexed(|layout|, delegates, itemToIndex) && Fits(shift, |layout|)
      requires forall i :: i in delegates ==> Survives(shift, i)
      modifies `layout, `delegates, `itemToIndex
      ensures layout == Shifted(old(layout), shift) && itemToIndex.Keys == old(itemToIndex).Keys
      ensures IsIndexed(|layout|, delegates, itemToIndex) && Followed(shift)
    {
      hide NewIndex, Survives, Shifted;
      ghost var was := layout;
      layout := Shifted(layout, shift);
      RowsShift(was, shift);
      Reindex(shift, |was|);
      forall item | item in itemToIndex ensures layout[itemToIndex[item]] == was[old(itemToIndex)[item]] {
        RowKeepsRecord(was, shift, old(itemToIndex)[item]);
      }
    }

    method OnRowsInserted(first: nat, last: nat)
      requires Valid() && first <= |layout| && first <= last
      modifies this
      ensures var shift := Inserted(first, last - first + 1);
        && Valid() && layout == AfterInsertion(old(layout), NewRecords(last - first + 1), first) && Followed(shift)
        && itemToIndex.Keys == old(itemToIndex).Keys && dying == old(dying)
    {
      hide Shifted, NewIndex, AfterInsertion;
      var insertCount := last - first + 1;
      InsertionFollowed(layout, NewRecords(insertCount), layout, first, 0);
      SumsShift(layout, Inserted(first, insertCount));
      Shift(Inserted(first, insertCount));
    }

    /** Takes a delegate out of the list. */
    method TakeDelegate(i: nat) returns (entry: Entry)
      requires IsIndexed(|layout|, delegates, itemToIndex) && i in delegates
      modifies `delegates, `itemToIndex
      ensures entry == old(delegates)[i] && delegates == old(delegates) - {i}
        && itemToIndex == old(itemToIndex) - {entry.item}
      ensures IsIndexed(|layout|, delegates, itemToIndex)
    {
      entry := delegates[i];
      delegates := delegates - {i};
      itemToIndex := itemToIndex - {entry.item};
    }

    /** Rows are about to go: their delegates go first, those that were seen perhaps only after an animation. */
    method OnRowsAboutToBeRemoved(first: nat, last: nat, removeDuration: int)
      requires Valid() && first <= last < |layout|
      modifies this
      ensures Valid() && layout == old(layout)
      ensures delegates == old(delegates) - Range(first, last + 1)
      ensures dying == old(dying) + if removeDuration > 0 then Leaving(old(delegates), first, last + 1) else []
    {
      hide IsIndexed, Leaving;
      ghost var was := delegates;
      NoneLeaving(was, first);
      for i := first to last + 1
        invariant Valid() && layout == old(layout)
        invariant delegates == was - Range(first, i)
        invariant dying == old(dying) + if removeDuration > 0 then Leaving(was, first, i) else []
      {
        OneLeaving(was, first, i);
        assert was - Range(first, i + 1) == (was - Range(first, i)) - {i};
        if i !in delegates {
          assert delegates - {i} == delegates;
          continue;
        }
        var entry := TakeDelegate(i);
        entry := entry.(pendingRemoval := true);
        if entry.pendingInsert {
          continue;
        }
        if removeDuration > 0 {
          dying := dying + [entry];
        }
      }
    }

    /** The remove animation of an item is over. */
    method OnRemoveTimeout(item: Item)
      modifies `dying
      ensures (forall k :: 0 <= k < old(|dying|) ==> old(dying)[k].item != item) ==> dying == old(dying)
      ensures forall i :: 0 <= i < old(|dying|) && old(dying)[i].item == item ==>
        (forall k :: 0 <= k < i ==> old(dying)[k].item != item) ==>
        dying == old(dying)[..i] + old(dying)[i + 1..]
    {
      for i := 0 to |dying|
        invariant dying == old(dying) && forall k :: 0 <= k < i ==> dying[k].item != item
      {
        if dying[i].item == item {
          dying := dying[..i] + dying[i + 1..];
          return;
        }
      }
    }

    /** The rows are gone. */
    method OnRowsRemoved(first: nat, last: nat)
      requires Valid() && first <= last < |layout| && forall i :: i in delegates ==> !(first <= i <= last)
      modifies this
      ensures var shift := Removed(first, last - first + 1);
        && Valid() && layout == AfterRemoval(old(layout), first, last) && Followed(shift)
        && itemToIndex.Keys == old(itemToIndex).Keys && dying == old(dying)
    {
      hide Shifted, NewIndex, KnownSum, KnownCount, IsIndexed, AfterRemoval;
      var removeCount := last - first + 1;
      RemovalFollowed(layout, layout, first, last, 0);
      SumsShift(layout, Removed(first, removeCount));
      UntrackRows(first, last);
      Shift(Removed(first, removeCount));
    }

    method UntrackRows(first: nat, last: nat)
      requires first <= last < |layout|
      modifies `knownHeightSum, `knownHeightCount
      ensures knownHeightSum == old(knownHeightSum) - KnownSum(layout[first..last + 1])
      ensures knownHeightCount == old(knownHeightCount) - KnownCount(layout[first..last + 1])
    {
      for i := first to last + 1
        invariant knownHeightSum == old(knownHeightSum) - KnownSum(layout[first..i])
        invariant knownHeightCount == old(knownHeightCount) - KnownCount(layout[first..i])
      {
        assert layout[first..i + 1] == layout[first..i] + [layout[i]];
        KnownAppend(layout[first..i], [layout[i]]);
        if layout[i].heightKnown {
          UntrackHeight(layout[i].height);
        }
      }
    }

    /** Rows moved; `row` counts rows before the move, as the model announces it. */
    method OnRowsMoved(start: nat, end: nat, row: nat)
      requires Valid() && start <= end < |layout| && row <= |layout| && !(start <= row <= end + 1)
      modifies this
      ensures var count := end - start + 1;
        var shift := Moved(start, count, if row > start then row - count else row);
        && Valid() && layout == AfterMove(old(layout), start, end, row) && Followed(shift)
        && itemToIndex.Keys == old(itemToIndex).Keys && dying == old(dying)
    {
      hide Shifted, NewIndex, AfterMove;
      MoveFollowed(layout, layout, start, end, row, 0);
      var count := end - start + 1;
      var dest := if row > start then row - count else row;
      SumsShift(layout, Moved(start, count, dest));
      Shift(Moved(start, count, dest));
    }

    /** The model is another one: everything starts over. */
    method ResetContent(rows: nat)
      modifies this
      ensures Valid() && layout == UnknownRecords(rows) && delegates == map[] && dying == []
    {
      delegates, itemToIndex, dying := map[], map[], [];
      knownHeightSum, knownHeightCount := 0.0, 0;
      layout := UnknownRecords(rows);
      UnknownAddNothing(layout);
    }

    // --- Heights ---

    method TrackHeight(height: real)
      modifies `knownHeightSum, `knownHeightCount
      ensures knownHeightSum == old(knownHeightSum) + height && knownHeightCount == old(knownHeightCount) + 1
    {
      knownHeightSum, knownHeightCount := knownHeightSum + height, knownHeightCount + 1;
    }

    method UntrackHeight(height: real)
      modifies `knownHeightSum, `knownHeightCount
      ensures knownHeightSum == old(knownHeightSum) - height && knownHeightCount == old(knownHeightCount) - 1
    {
      knownHeightSum, knownHeightCount := knownHeightSum - height, knownHeightCount - 1;
    }

    /** The height rows of unknown height are laid out with. */
    method EffectiveEstimatedHeight(estimatedHeight: real) returns (h: real)
      requires Valid()
      ensures h == Estimate(layout, estimatedHeight)
    {
      if estimatedHeight >= 0.0 {
        return estimatedHeight;
      }
      if knownHeightCount > 0 {
        return knownHeightSum / knownHeightCount as real;
      }
      return 40.0;
    }

    /** Records the height of the row an item belongs to. */
    method SetRowHeight(idx: nat, h: real)
      requires Valid() && idx < |layout|
      modifies `layout, `knownHeightSum, `knownHeightCount
      ensures Valid() && layout == old(layout)[idx := old(layout)[idx].(height := h, heightKnown := true)]
    {
      KnownUpdate(layout, idx, layout[idx].(height := h, heightKnown := true));
      assert forall r: Record :: KnownSum([r]) == (if r.heightKnown then r.height else 0.0);
      assert forall r: Record :: KnownCount([r]) == (if r.heightKnown then 1 else 0);
      if layout[idx].heightKnown {
        UntrackHeight(layout[idx].height);
      }
      layout := layout[idx := layout[idx].(height := h, heightKnown := true)];
      TrackHeight(h);
    }

    /** A delegate has another height. Items that are not ready or not in the list do not count. If the row is above the
        view and tracked, who scrolls is told the difference. */
    method OnHeightChanged(item: Item, h: real, ready: bool, trackViewport: bool, vpTop: real)
      returns (adjust: Option<real>)
      requires Valid()
      modifies this
      ensures Valid() && delegates == old(delegates) && itemToIndex == old(itemToIndex) && dying == old(dying)
      ensures if ready && item in itemToIndex && old(layout)[itemToIndex[item]].height != h
        then
          var was := old(layout)[itemToIndex[item]];
          && layout == old(layout)[itemToIndex[item] := was.(height := h, heightKnown := true)]
          && adjust == if was.heightKnown && trackViewport && was.targetY < vpTop then Some(h - was.height) else None
        else layout == old(layout) && adjust == None
    {
      adjust := None;
      if !ready || item !in itemToIndex {
        return;
      }
      var idx := itemToIndex[item];
      if idx !in delegates || delegates[idx].item != item {
        return;
      }
      if idx < |layout| && layout[idx].height != h {
        var oldH, wasKnown := layout[idx].height, layout[idx].heightKnown;
        SetRowHeight(idx, h);
        if wasKnown && trackViewport && layout[idx].targetY < vpTop {
          adjust := Some(h - oldH);
        }
      }
    }

    /** A delegate is ready: its height is known from now on. Here the difference is to what the row was laid out
        with. */
    method OnReadyChanged(item: Item, h: real, ready: bool, estimatedHeight: real, trackViewport: bool, vpTop: real)
      returns (adjust: Option<real>)
      requires Valid()
      modifies `layout, `knownHeightSum, `knownHeightCount
      ensures Valid()
      ensures if ready && item in itemToIndex
        then
          var was, laidOut := old(layout)[itemToIndex[item]],
            HeightOf(old(layout)[itemToIndex[item]], Estimate(old(layout), estimatedHeight));
          && layout == old(layout)[itemToIndex[item] := was.(height := h, heightKnown := true)]
          && adjust == if trackViewport && h != laidOut && was.targetY < vpTop then Some(h - laidOut) else None
        else layout == old(layout) && adjust == None
    {
      adjust := None;
      if item !in itemToIndex {
        return;
      }
      var idx := itemToIndex[item];
      if idx >= |layout| || !ready {
        return;
      }
      var estimate := EffectiveEstimatedHeight(estimatedHeight);
      var oldLayoutH := if layout[idx].heightKnown then layout[idx].height else estimate;
      SetRowHeight(idx, h);
      if trackViewport && h != oldLayoutH && layout[idx].targetY < vpTop {
        adjust := Some(h - oldLayoutH);
      }
    }

    // --- Creating and destroying delegates ---

    /** The delegates to destroy: no visible row's, and outside the viewport. */
    method CollectOutside(first: int, last: int, vp: Rect, tops: map<Item, real>, bottoms: map<Item, real>)
      returns (toRemove: seq<nat>)
      requires Valid() && itemToIndex.Keys <= tops.Keys && itemToIndex.Keys <= bottoms.Keys
      ensures forall i :: i in toRemove <==>
        i in delegates && !(first <= i <= last) && IsOutside(delegates[i].item, vp, tops, bottoms)
      ensures forall k, l :: 0 <= k < l < |toRemove| ==> toRemove[k] != toRemove[l]
    {
      hide IsOutside;
      toRemove := [];
      var all := delegates;
      var rest := all.Keys;
      while rest != {}
        invariant rest <= all.Keys
        invariant forall i :: i in toRemove <==>
          i in all && i !in rest && !(first <= i <= last) && IsOutside(all[i].item, vp, tops, bottoms)
        invariant forall k, l :: 0 <= k < l < |toRemove| ==> toRemove[k] != toRemove[l]
      {
        var i :| i in rest;
        if !(first <= i <= last) && IsOutside(all[i].item, vp, tops, bottoms) {
          toRemove := toRemove + [i];
        }
        rest := rest - {i};
      }
    }

    /** Destroys delegates in order, up to a budget. */
    method DestroyDelegates(toRemove: seq<nat>, budget: nat) returns (destroyed: nat)
      requires Valid() && forall i :: i in toRemove ==> i in delegates
      requires forall k, l :: 0 <= k < l < |toRemove| ==> toRemove[k] != toRemove[l]
      modifies `delegates, `itemToIndex
      ensures Valid() && destroyed == (if budget < |toRemove| then budget else |toRemove|)
      ensures delegates == old(delegates) - (set i | i in toRemove[..destroyed])
      ensures itemToIndex.Keys <= old(itemToIndex).Keys
    {
      hide IsIndexed;
      destroyed := 0;
      while destroyed < |toRemove| && destroyed < budget
        invariant 0 <= destroyed <= |toRemove| && (destroyed <= budget || destroyed == 0)
        invariant Valid() && itemToIndex.Keys <= old(itemToIndex).Keys
        invariant delegates == old(delegates) - (set i | i in toRemove[..destroyed])
      {
        assert toRemove[destroyed] in toRemove
          && toRemove[..destroyed + 1] == toRemove[..destroyed] + [toRemove[destroyed]];
        var _ := TakeDelegate(toRemove[destroyed]);
        destroyed := destroyed + 1;
      }
    }

    method AddDelegate(i: nat, item: Item)
      requires IsIndexed(|layout|, delegates, itemToIndex) && i < |layout| && i !in delegates && item !in itemToIndex
      modifies `delegates, `itemToIndex
      ensures delegates == old(delegates)[i := Entry(i, item, false, true)]
        && itemToIndex == old(itemToIndex)[item := i]
      ensures IsIndexed(|layout|, delegates, itemToIndex)
    {
      itemToIndex := itemToIndex[item := i];
      delegates := delegates[i := Entry(i, item, false, true)];
    }

    /** Makes delegates for the first rows that have none, up to a budget; `made` says which item a row gets, if it gets
        one. */
    method CreateDelegates(first: int, last: int, made: map<nat, Item>, budget: nat) returns (created: nat)
      requires Valid() && 0 <= first <= last < |layout| && AreNew(made, itemToIndex)
      modifies `delegates, `itemToIndex
      ensures Valid()
      ensures var missing := Missing(old(delegates), made, first, last + 1);
        && created == Least(budget, |missing|)
        && delegates == WithNew(old(delegates), made, missing[..created])
    {
      hide IsIndexed, Missing, WithNew, Least, AreNew, AreUsed;
      created := 0;
      ghost var was, items, missing := delegates, itemToIndex, [];
      NothingMissing(was, made, first, budget);
      NothingUsed(itemToIndex, made, first);
      for i := first to last + 1
        invariant missing == Missing(was, made, first, i) && 0 <= created <= |missing|
        invariant created == Least(budget, |missing|) && delegates == WithNew(was, made, missing[..created])
        invariant Valid() && AreUsed(items, made, itemToIndex, i)
      {
        OneMissing(was, made, first, i);
        created := CreateDelegate(i, made, budget, created, was, items, missing);
        missing := Missing(was, made, first, i + 1);
      }
    }

    /** One row of those. */
    method CreateDelegate(i: nat, made: map<nat, Item>, budget: nat, created: nat, ghost was: map<nat, Entry>,
                          ghost items: map<Item, nat>, ghost missing: seq<nat>) returns (created': nat)
      requires Valid() && i < |layout| && AreNew(made, items) && AreUsed(items, made, itemToIndex, i)
      requires (forall k :: k in missing ==> k in made && k < i) && created <= |missing|
      requires created == Least(budget, |missing|) && delegates == WithNew(was, made, missing[..created])
      modifies `delegates, `itemToIndex
      ensures Valid() && AreUsed(items, made, itemToIndex, i + 1)
      ensures var more := missing + if i !in was && i in made then [i] else [];
        created' == Least(budget, |more|) <= |more| && delegates == WithNew(was, made, more[..created'])
    {
      hide IsIndexed, WithNew, Least, AreNew, AreUsed;
      NewStep(was, made, missing, i, created, budget);
      NewItem(items, made, itemToIndex, i);
      assert missing + [] == missing;
      assert forall k :: k in missing[..created] ==> k in missing;
      created' := created;
      if i !in delegates && created < budget && i in made {
        AddDelegate(i, made[i]);
        created' := created + 1;
      }
    }

    /** Destroys the delegates that are outside the viewport, and makes those of the visible rows that have none: all of
        them, or four and two at a time. `tops` and `bottoms` say where items are, `made` which items rows would get. */
    method SyncDelegates(estimate: real, vp: Rect, tops: map<Item, real>, bottoms: map<Item, real>,
                         made: map<nat, Item>, asynchronous: bool)
      returns (first: int, last: int, ghost gone: seq<nat>, ghost added: seq<nat>)
      requires Valid()
      requires itemToIndex.Keys <= tops.Keys && itemToIndex.Keys <= bottoms.Keys && AreNew(made, itemToIndex)
      modifies `delegates, `itemToIndex
      ensures (first == -1 && last == -1) || IsRun(layout, vp, first, last)
      ensures BottomsInOrder(layout, estimate) ==>
        var found := FirstFrom(layout, estimate, vp, 0);
        if IsEmpty(vp) || found == |layout| then first == -1 && last == -1
        else first == found && IsRun(layout, vp, first, last)
      ensures Valid() && (forall k, l :: 0 <= k < l < |gone| ==> gone[k] != gone[l]) && (asynchronous ==> |gone| <= 4)
      ensures forall i :: i in gone ==>
        i in old(delegates) && !(first <= i <= last) && IsOutside(old(delegates)[i].item, vp, tops, bottoms)
      ensures (asynchronous && |gone| == 4) || forall i :: i in old(delegates) ==>
        first <= i <= last || !IsOutside(old(delegates)[i].item, vp, tops, bottoms) || i in gone
      ensures var missing := if first < 0 then [] else Missing(old(delegates), made, first, last + 1);
        added == if asynchronous then missing[..Least(2, |missing|)] else missing
      ensures forall i :: i in added ==> first <= i <= last && i in made && i !in old(delegates)
      ensures delegates == WithNew(old(delegates) - (set i | i in gone), made, added)
    {
      hide IsIndexed, FirstFrom, BottomOf, IsOutside, Missing, IsRun, BottomsInOrder;
      ghost var was := delegates;
      first, last := ComputeVisibleRange(layout, estimate, vp);
      var toRemove := CollectOutside(first, last, vp, tops, bottoms);
      var destroyed := DestroyDelegates(toRemove, if asynchronous then ASYNC_BATCH_DESTROY else |toRemove|);
      gone, added := toRemove[..destroyed], [];
      assert forall k :: 0 <= k < destroyed ==> toRemove[k] in toRemove;
      assert destroyed == |toRemove| ==> gone == toRemove;
      if first >= 0 {
        RunInside(layout, vp, first, last);
        MissingElsewhere(was, delegates, made, first, last + 1);
        added := CreateVisible(first, last, made, asynchronous);
      }
    }

    /** Makes the delegates of visible rows that have none, or two of them. */
    method CreateVisible(first: nat, last: nat, made: map<nat, Item>, asynchronous: bool)
      returns (ghost added: seq<nat>)
      requires Valid() && first <= last < |layout| && AreNew(made, itemToIndex)
      modifies `delegates, `itemToIndex
      ensures Valid() && forall i :: i in added ==> i in made
      ensures var missing := Missing(old(delegates), made, first, last + 1);
        added == if asynchronous then missing[..Least(2, |missing|)] else missing
      ensures delegates == WithNew(old(delegates), made, added)
    {
      hide IsIndexed, Missing;
      ghost var missing := Missing(delegates, made, first, last + 1);
      FewMissing(delegates, made, first, last + 1);
      var created := CreateDelegates(first, last, made, if asynchronous then ASYNC_BATCH_CREATE else last + 1 - first);
      added := missing[..created];
      assert missing[..|missing|] == missing;
      assert forall i :: i in added ==> i in missing;
    }

    // --- The whole update ---

    /** Shows the delegates made since the last update and takes over their heights; `heights` are those of items that
        tell when they are ready. */
    method FlushPending(heights: map<Item, real>, estimatedHeight: real)
      requires Valid()
      modifies `delegates, `layout, `knownHeightSum, `knownHeightCount
      ensures Valid() && delegates == AllShown(old(delegates)) && |layout| == |old(layout)|
      ensures IsFlushed(old(delegates), heights, old(layout), layout)
    {
      hide IsIndexed, KnownSum, KnownCount, IsFlushedRow;
      ghost var was, start := delegates, layout;
      var rest := delegates.Keys;
      NothingFlushed(was, heights, start);
      while rest != {}
        invariant Valid() && rest <= was.Keys && |layout| == |start|
        invariant delegates == map i | i in was :: if i in rest then was[i] else was[i].(pendingInsert := false)
        invariant forall i :: 0 <= i < |layout| ==>
          if i in rest then layout[i] == start[i] else IsFlushedRow(was, heights, start, layout[i], i)
      {
        var i :| i in rest;
        ShownIndexed(|layout|, delegates, itemToIndex, i);
        FlushedRow(was, heights, start, i);
        var entry := delegates[i];
        if entry.pendingInsert {
          delegates := delegates[i := entry.(pendingInsert := false)];
          if entry.item in heights {
            var _ := OnReadyChanged(entry.item, heights[entry.item], true, estimatedHeight, false, 0.0);
          }
        }
        rest := rest - {i};
      }
    }

    /** Lays the rows out. */
    method RelayoutRows(spacing: real, estimatedHeight: real) returns (estimate: real, layoutHeight: real)
      requires Valid()
      modifies `layout
      ensures Valid() && estimate == Estimate(old(layout), estimatedHeight)
      ensures SameRows(old(layout), layout) && IsLaidOut(layout, estimate, spacing)
      ensures layoutHeight == Flow(layout, estimate, spacing, |layout|).0
    {
      hide IsIndexed, KnownSum, KnownCount, IsLaidOut, Flow;
      estimate := EffectiveEstimatedHeight(estimatedHeight);
      ghost var was := layout;
      layout, layoutHeight := Relayout(layout, estimate, spacing);
      KnownOfSameRows(was, layout);
    }

    /** From now on no row is new. */
    method ClearNew()
      requires Valid()
      modifies `layout
      ensures Valid() && |layout| == |old(layout)|
        && forall i :: 0 <= i < |layout| ==> layout[i] == old(layout)[i].(isNew := false)
    {
      hide IsIndexed, KnownSum, KnownCount;
      ghost var was := layout;
      for i := 0 to |layout|
        invariant |layout| == |was| && KnownSum(layout) == KnownSum(was) && KnownCount(layout) == KnownCount(was)
        invariant forall k :: 0 <= k < |layout| ==> layout[k] == if k < i then was[k].(isNew := false) else was[k]
      {
        KnownUpdate(layout, i, layout[i].(isNew := false));
        KnownOfOne(layout[i], layout[i].(isNew := false));
        layout := layout[i := layout[i].(isNew := false)];
      }
    }

    /** The update before a frame, when delegates are shown at once: new delegates are shown, rows laid out, and
        delegates destroyed and made. With no negative heights or spacing, and unless this is spread over several
        frames, afterwards every row that meets the viewport and can have a delegate has one, and no delegate is left
        that is neither a visible row's nor in the viewport. */
    method UpdatePolish(view: View, heights: map<Item, real>, tops: map<Item, real>, bottoms: map<Item, real>,
                        made: map<nat, Item>, asynchronous: bool)
      returns (estimate: real, vp: Rect, first: int, last: int)
      requires Valid() && itemToIndex.Keys <= tops.Keys && itemToIndex.Keys <= bottoms.Keys && AreNew(made, itemToIndex)
      modifies `layout, `delegates, `itemToIndex, `knownHeightSum, `knownHeightCount
      ensures Valid() && |layout| == |old(layout)| && IsLaidOut(layout, estimate, view.spacing)
      ensures forall i :: 0 <= i < |layout| ==>
        layout[i] == FlushedAt(old(delegates), heights, old(layout), i).(targetY := layout[i].targetY, isNew := false)
      ensures vp == EffectiveViewport(view.custom, view.viewport, view.contentY, view.width, view.height,
                                      view.cacheBuffer, Flow(layout, estimate, view.spacing, |layout|).0)
      ensures forall i :: i in delegates ==>
        if i in old(delegates) then delegates[i] == old(delegates)[i].(pendingInsert := false)
                                             else i in made && delegates[i] == Entry(i, made[i], false, true)
      ensures HasHeights(layout, estimate) && view.spacing >= 0.0 && !asynchronous && !IsEmpty(vp) ==>
        forall i: nat :: i < |layout| && Meets(layout, estimate, vp, i) && (i in old(delegates) || i in made) ==>
          i in delegates
      ensures HasHeights(layout, estimate) && view.spacing >= 0.0 && !asynchronous ==>
        LooksAt(view.Port(), view.cacheBuffer, Flow(layout, estimate, view.spacing, |layout|).0) ==>
        forall i: nat :: i < |layout| && (i in old(delegates) || i in made) ==>
          Meets(layout, estimate, view.Port(), i) ==> i in delegates
      ensures !asynchronous ==> forall i :: i in delegates && i in old(delegates) ==>
        first <= i <= last || !IsOutside(delegates[i].item, vp, tops, bottoms)
      ensures !asynchronous ==> forall i :: i in delegates && i !in old(delegates) ==> first <= i <= last
    {
      hide IsIndexed, KnownSum, KnownCount, IsLaidOut, FlushedAt, IsRun, FirstFrom, Flow, HasHeights, IsOutside,
        Missing, Meets, BottomsInOrder, WithNew;
      FlushPending(heights, view.estimatedHeight);
      ghost var shown := delegates;
      var layoutHeight;
      estimate, layoutHeight := RelayoutRows(view.spacing, view.estimatedHeight);
      vp := EffectiveViewport(view.custom, view.viewport, view.contentY, view.width, view.height, view.cacheBuffer,
                              layoutHeight);
      ghost var gone, added;
      first, last, gone, added := SyncDelegates(estimate, vp, tops, bottoms, made, asynchronous);
      ghost var laid := layout;
      if first != -1 || last != -1 {
        RunInside(laid, vp, first, last);
      }
      VisibleHave(laid, estimate, view.spacing, vp, first, last);
      ClearNew();
      NewMakesNoDifference(laid, layout, estimate, view.spacing);
      AfterSync(old(delegates), made, gone, added, delegates);
      forall i: nat | !asynchronous && first <= i <= last && (i in old(delegates) || i in made) ensures i in delegates {
        assert i in old(delegates) ==> i !in gone;
        assert i !in old(delegates) ==> i in Missing(shown, made, first, last + 1);
      }
      if HasHeights(layout, estimate) && view.spacing >= 0.0 &&
        LooksAt(view.Port(), view.cacheBuffer, Flow(layout, estimate, view.spacing, |layout|).0) {
        AllInSight(layout, estimate, view);
      }
    }
  }

  /** What the view is: the space between rows, its size, where it is scrolled to, and what else it counts as
      visible. */
  datatype View = View(spacing: real, estimatedHeight: real, custom: bool, viewport: Rect, contentY: real, width: real,
                       height: real, cacheBuffer: real) {
    /** The part of the content the view looks at. */
    function Port(): Rect {
      if custom then viewport else Rect(contentY, width, height)
    }
  }

  /** Rows that reach into the view or touch it are among those that meet what counts as visible. */
  lemma AllInSight(layout: seq<Record>, estimate: real, view: View)
    requires IsLaidOut(layout, estimate, view.spacing) && HasHeights(layout, estimate) && view.spacing >= 0.0
    requires LooksAt(view.Port(), view.cacheBuffer, Flow(layout, estimate, view.spacing, |layout|).0)
    ensures var vp := EffectiveViewport(view.custom, view.viewport, view.contentY, view.width, view.height,
                                        view.cacheBuffer, Flow(layout, estimate, view.spacing, |layout|).0);
      forall i: nat :: i < |layout| && Meets(layout, estimate, view.Port(), i) ==>
        !IsEmpty(vp) && Meets(layout, estimate, vp, i)
  {
    hide Flow, IsLaidOut, HasHeights, EffectiveViewport, LooksAt, BottomOf;
    forall i: nat | i < |layout|
      ensures var vp := EffectiveViewport(view.custom, view.viewport, view.contentY, view.width, view.height,
                                          view.cacheBuffer, Flow(layout, estimate, view.spacing, |layout|).0);
        Meets(layout, estimate, view.Port(), i) ==> !IsEmpty(vp) && Meets(layout, estimate, vp, i)
    {
      InSight(layout, estimate, view.spacing, view.custom, view.viewport, view.contentY, view.width, view.height,
              view.cacheBuffer, i);
    }
  }

  lemma RunInside(layout: seq<Record>, vp: Rect, first: int, last: int)
    requires IsRun(layout, vp, first, last)
    ensures 0 <= first <= last < |layout|
  {
  }

  function Least(a: nat, b: nat): nat {
    if a < b then a else b
  }

  /** The rows of a range that have no delegate and would get one, in order. */
  function Missing(delegates: map<nat, Entry>, made: map<nat, Item>, first: nat, end: nat): (rows: seq<nat>)
    requires first <= end
    ensures forall i :: i in rows <==> first <= i < end && i !in delegates && i in made
    decreases end - first
  {
    if first == end then []
    else Missing(delegates, made, first, end - 1) + if end - 1 !in delegates && end - 1 in made then [end - 1] else []
  }

  /** They come in order, so that a budget goes to the first of them. */
  lemma {:induction false} MissingInOrder(delegates: map<nat, Entry>, made: map<nat, Item>, first: nat, end: nat,
                                          k: nat, l: nat)
    requires first <= end && k < l < |Missing(delegates, made, first, end)|
    ensures Missing(delegates, made, first, end)[k] < Missing(delegates, made, first, end)[l]
    decreases end
  {
    var rows := Missing(delegates, made, first, end - 1);
    if l < |rows| {
      MissingInOrder(delegates, made, first, end - 1, k, l);
    } else {
      assert rows[k] in rows;
    }
  }

  /** The delegates and new ones, not yet shown, for some rows. */
  function WithNew(delegates: map<nat, Entry>, made: map<nat, Item>, rows: seq<nat>): (r: map<nat, Entry>)
    requires forall i :: i in rows ==> i in made
    ensures r.Keys == delegates.Keys + set i | i in rows
  {
    delegates + map i | i in rows :: Entry(i, made[i], false, true)
  }

  lemma NothingMissing(delegates: map<nat, Entry>, made: map<nat, Item>, first: nat, budget: nat)
    ensures Missing(delegates, made, first, first) == [] && WithNew(delegates, made, []) == delegates
      && Least(budget, 0) == 0
  {
  }

  /** One more missing row gets a delegate if the budget allows. */
  lemma NewStep(delegates: map<nat, Entry>, made: map<nat, Item>, missing: seq<nat>, i: nat, created: nat, budget: nat)
    requires (forall k :: k in missing ==> k in made) && created == Least(budget, |missing|)
    ensures created <= |missing| && created <= budget
    ensures i in made && created < budget ==>
      var more := missing + [i];
      && created + 1 == Least(budget, |more|)
      && WithNew(delegates, made, more[..created + 1])
         == WithNew(delegates, made, missing[..created])[i := Entry(i, made[i], false, true)]
    ensures created >= budget ==>
      created == Least(budget, |missing + [i]|) && (missing + [i])[..created] == missing[..created]
  {
    if created < budget {
      assert missing[..created] == missing && (missing + [i])[..created + 1] == missing + [i];
    }
  }

  lemma OneMissing(delegates: map<nat, Entry>, made: map<nat, Item>, first: nat, i: nat)
    requires first <= i
    ensures Missing(delegates, made, first, i + 1)
         == Missing(delegates, made, first, i) + if i !in delegates && i in made then [i] else []
  {
  }

  lemma {:induction false} FewMissing(delegates: map<nat, Entry>, made: map<nat, Item>, first: nat, end: nat)
    requires first <= end
    ensures |Missing(delegates, made, first, end)| <= end - first
    decreases end - first
  {
    if first < end {
      FewMissing(delegates, made, first, end - 1);
    }
  }

  /** Delegates of other rows make no difference. */
  lemma {:induction false} MissingElsewhere(delegates: map<nat, Entry>, others: map<nat, Entry>, made: map<nat, Item>,
                                            first: nat, end: nat)
    requires first <= end && forall i :: first <= i < end ==> (i in delegates <==> i in others)
    ensures Missing(delegates, made, first, end) == Missing(others, made, first, end)
    decreases end - first
  {
    if first < end {
      MissingElsewhere(delegates, others, made, first, end - 1);
    }
  }

  predicate IsOutside(item: Item, vp: Rect, tops: map<Item, real>, bottoms: map<Item, real>)
    requires item in tops && item in bottoms
  {
    IsEmpty(vp) || bottoms[item] < vp.y || tops[item] > vp.y + vp.height
  }

  lemma NotOutside(item: Item, vp: Rect, tops: map<Item, real>, bottoms: map<Item, real>)
    requires item in tops && item in bottoms
    ensures !IsOutside(item, vp, tops, bottoms) <==>
      vp.width > 0.0 && vp.height > 0.0 && bottoms[item] >= vp.y && tops[item] <= vp.y + vp.height
  {
  }

  /** The items that would be made are all different, and none is in use. */
  ghost predicate AreNew(made: map<nat, Item>, itemToIndex: map<Item, nat>) {
    && (forall i :: i in made ==> made[i] !in itemToIndex)
    && (forall i, j :: i in made && j in made && made[i] == made[j] ==> i == j)
  }

  /** The items in use are those from before, and those made for rows below `i`. */
  ghost predicate AreUsed(was: map<Item, nat>, made: map<nat, Item>, index: map<Item, nat>, i: nat) {
    forall item :: item in index ==>
      item in was || (index[item] in made && made[index[item]] == item && index[item] < i)
  }

  lemma NothingUsed(was: map<Item, nat>, made: map<nat, Item>, i: nat)
    ensures AreUsed(was, made, was, i)
  {
  }

  lemma NewItem(was: map<Item, nat>, made: map<nat, Item>, index: map<Item, nat>, i: nat)
    requires AreNew(made, was) && AreUsed(was, made, index, i)
    ensures AreUsed(was, made, index, i + 1)
    ensures i in made ==> made[i] !in index && AreUsed(was, made, index[made[i] := i], i + 1)
  {
  }

  function Range(first: nat, end: nat): (r: set<nat>)
    ensures forall i :: i in r <==> first <= i < end
  {
    if first >= end then {} else Range(first, end - 1) + {end - 1}
  }

  /** The delegates of a range of rows that were seen, in order, marked for removal. */
  function Leaving(delegates: map<nat, Entry>, first: nat, end: nat): seq<Entry>
    requires first <= end
    decreases end - first
  {
    if first == end then []
    else
      Leaving(delegates, first, end - 1)
      + if end - 1 in delegates && !delegates[end - 1].pendingInsert then [delegates[end - 1].(pendingRemoval := true)]
      else []
  }

  lemma {:induction false} LeavingAre(delegates: map<nat, Entry>, first: nat, end: nat, e: Entry)
    requires first <= end
    ensures e in Leaving(delegates, first, end) <==>
      exists i: nat :: first <= i < end && i in delegates && !delegates[i].pendingInsert
                       && e == delegates[i].(pendingRemoval := true)
    decreases end - first
  {
    if first < end {
      LeavingAre(delegates, first, end - 1, e);
    }
  }

  lemma NoneLeaving(delegates: map<nat, Entry>, first: nat)
    ensures Leaving(delegates, first, first) == [] && delegates - Range(first, first) == delegates
  {
  }

  lemma OneLeaving(delegates: map<nat, Entry>, first: nat, i: nat)
    requires first <= i
    ensures Leaving(delegates, first, i + 1) == Leaving(delegates, first, i)
      + if i in delegates && !delegates[i].pendingInsert then [delegates[i].(pendingRemoval := true)] else []
  {
  }

  lemma RowsShift(layout: seq<Record>, shift: Shift)
    requires Fits(shift, |layout|)
    ensures |Shifted(layout, shift)| == RowsAfter(shift, |layout|)
  {
  }

  /** Where an item and its delegate are while they are renumbered: still in place, or under the new number. */
  ghost predicate IsPlaced(shift: Shift, delegates: map<nat, Entry>, items: map<Item, nat>,
                           index: map<Item, nat>, shifted: map<nat, Entry>, rest: set<nat>, item: Item)
  {
    && (item in index <==> item in items)
    && (item in items && items[item] in rest ==> index[item] == items[item])
    && (item in items && items[item] !in rest ==>
          && index[item] == NewIndex(shift, items[item]) && index[item] in shifted && items[item] in delegates
          && shifted[index[item]] == delegates[items[item]].(modelIndex := index[item]))
  }

  ghost predicate IsTraced(items: map<Item, nat>, index: map<Item, nat>, shifted: map<nat, Entry>, rest: set<nat>,
                           j: nat) {
    j in shifted ==>
      var item := shifted[j].item;
      item in items && items[item] !in rest && item in index && index[item] == j
  }

  ghost predicate IsMoving(shift: Shift, delegates: map<nat, Entry>, items: map<Item, nat>,
                           index: map<Item, nat>, shifted: map<nat, Entry>, rest: set<nat>)
  {
    && (forall item :: IsPlaced(shift, delegates, items, index, shifted, rest, item))
    && (forall j :: IsTraced(items, index, shifted, rest, j))
  }

  lemma NothingMoved(shift: Shift, rows: nat, delegates: map<nat, Entry>, items: map<Item, nat>)
    requires IsIndexed(rows, delegates, items)
    ensures IsMoving(shift, delegates, items, items, map[], delegates.Keys)
  {
  }

  lemma OneMoved(shift: Shift, rows: nat, delegates: map<nat, Entry>, items: map<Item, nat>,
                 index: map<Item, nat>, shifted: map<nat, Entry>, rest: set<nat>, i: nat)
    requires IsIndexed(rows, delegates, items) && (forall k :: k in delegates ==> Survives(shift, k))
    requires IsMoving(shift, delegates, items, index, shifted, rest) && i in rest && rest <= delegates.Keys
    ensures var k := NewIndex(shift, i);
      var e := delegates[i].(modelIndex := k);
      IsMoving(shift, delegates, items, index[e.item := k], shifted[k := e], rest - {i})
  {
    hide NewIndex, Survives, IsPlaced, IsTraced;
    var k := NewIndex(shift, i);
    var e := delegates[i].(modelIndex := k);
    var index', shifted', rest' := index[e.item := k], shifted[k := e], rest - {i};
    forall item ensures IsPlaced(shift, delegates, items, index', shifted', rest', item) {
      OnePlaced(shift, rows, delegates, items, index, shifted, rest, i, item);
    }
    forall j ensures IsTraced(items, index', shifted', rest', j) {
      OneTraced(shift, rows, delegates, items, index, shifted, rest, i, j);
    }
  }

  lemma OnePlaced(shift: Shift, rows: nat, delegates: map<nat, Entry>, items: map<Item, nat>,
                  index: map<Item, nat>, shifted: map<nat, Entry>, rest: set<nat>, i: nat, item: Item)
    requires IsIndexed(rows, delegates, items) && (forall k :: k in delegates ==> Survives(shift, k))
    requires IsPlaced(shift, delegates, items, index, shifted, rest, item) && i in rest && rest <= delegates.Keys
    ensures var k := NewIndex(shift, i);
      var e := delegates[i].(modelIndex := k);
      IsPlaced(shift, delegates, items, index[e.item := k], shifted[k := e], rest - {i}, item)
  {
  }

  lemma OneTraced(shift: Shift, rows: nat, delegates: map<nat, Entry>, items: map<Item, nat>,
                  index: map<Item, nat>, shifted: map<nat, Entry>, rest: set<nat>, i: nat, j: nat)
    requires IsIndexed(rows, delegates, items) && i in rest && rest <= delegates.Keys
    requires IsTraced(items, index, shifted, rest, j)
    ensures var k := NewIndex(shift, i);
      var e := delegates[i].(modelIndex := k);
      IsTraced(items, index[e.item := k], shifted[k := e], rest - {i}, j)
  {
  }

  lemma AllMoved(shift: Shift, rows: nat, delegates: map<nat, Entry>, items: map<Item, nat>,
                 index: map<Item, nat>, shifted: map<nat, Entry>)
    requires IsIndexed(rows, delegates, items) && Fits(shift, rows)
      && (forall k :: k in delegates ==> Survives(shift, k))
    requires IsMoving(shift, delegates, items, index, shifted, {})
    ensures IsReindexed(shift, delegates, items, shifted, index) && IsIndexed(RowsAfter(shift, rows), shifted, index)
  {
    hide NewIndex, Survives;
    forall item | item in items
      ensures item in index && index[item] in shifted && items[item] in delegates
      ensures index[item] == NewIndex(shift, items[item]) < RowsAfter(shift, rows)
      ensures shifted[index[item]] == delegates[items[item]].(modelIndex := index[item])
    {
      assert IsPlaced(shift, delegates, items, index, shifted, {}, item);
      NewIndexInRange(shift, rows, items[item]);
    }
    forall item | item in index ensures item in items {
      assert IsPlaced(shift, delegates, items, index, shifted, {}, item);
    }
    assert index.Keys == items.Keys;
    forall j | j in shifted ensures shifted[j].item in items && index[shifted[j].item] == j {
      assert IsTraced(items, index, shifted, {}, j);
    }
  }

  function RowsAfter(shift: Shift, rows: nat): (r: nat)
    requires Fits(shift, rows)
  {
    match shift
    case Inserted(_, count) => rows + count
    case Removed(_, count) => rows - count
    case Moved(_, _, _) => rows
  }

  lemma NewIndexInRange(shift: Shift, rows: nat, i: nat)
    requires Fits(shift, rows) && i < rows && Survives(shift, i)
    ensures NewIndex(shift, i) < RowsAfter(shift, rows)
  {
  }

  function UnknownRecords(count: nat): (r: seq<Record>)
    ensures |r| == count && forall i :: 0 <= i < count ==> r[i] == Record(0.0, 0.0, false, false)
  {
    seq(count, _ => Record(0.0, 0.0, false, false))
  }

  // --- The steps of the update ---

  function AllShown(delegates: map<nat, Entry>): (shown: map<nat, Entry>)
    ensures shown.Keys == delegates.Keys
  {
    map i | i in delegates :: delegates[i].(pendingInsert := false)
  }

  /** The row of a delegate that was waiting has the height its item tells; other rows are as they were. */
  ghost predicate IsFlushedRow(delegates: map<nat, Entry>, heights: map<Item, real>, was: seq<Record>, r: Record,
                               i: nat)
    requires i < |was|
  {
    r == FlushedAt(delegates, heights, was, i)
  }

  function FlushedAt(delegates: map<nat, Entry>, heights: map<Item, real>, was: seq<Record>, i: nat): Record
    requires i < |was|
  {
    if i in delegates && delegates[i].pendingInsert && delegates[i].item in heights
    then was[i].(height := heights[delegates[i].item], heightKnown := true) else was[i]
  }

  ghost predicate IsFlushed(delegates: map<nat, Entry>, heights: map<Item, real>, was: seq<Record>,
                            layout: seq<Record>) {
    |layout| == |was| && forall i :: 0 <= i < |layout| ==> IsFlushedRow(delegates, heights, was, layout[i], i)
  }

  lemma NothingFlushed(delegates: map<nat, Entry>, heights: map<Item, real>, was: seq<Record>)
    ensures forall i: nat :: i < |was| && i !in delegates ==> IsFlushedRow(delegates, heights, was, was[i], i)
  {
  }

  lemma FlushedRow(delegates: map<nat, Entry>, heights: map<Item, real>, was: seq<Record>, i: nat)
    requires i in delegates && i < |was|
    ensures var e := delegates[i];
      if e.pendingInsert && e.item in heights
      then IsFlushedRow(delegates, heights, was, was[i].(height := heights[e.item], heightKnown := true), i)
      else IsFlushedRow(delegates, heights, was, was[i], i)
  {
  }

  lemma ShownIndexed(rows: nat, delegates: map<nat, Entry>, itemToIndex: map<Item, nat>, i: nat)
    requires IsIndexed(rows, delegates, itemToIndex) && i in delegates
    ensures i < rows && delegates[i].item in itemToIndex && itemToIndex[delegates[i].item] == i
    ensures IsIndexed(rows, delegates[i := delegates[i].(pendingInsert := false)], itemToIndex)
  {
  }

  lemma {:induction false} KnownOfSameRows(s: seq<Record>, t: seq<Record>)
    requires SameRows(s, t)
    ensures KnownSum(s) == KnownSum(t) && KnownCount(s) == KnownCount(t)
  {
    if s != [] {
      KnownOfSameRows(s[1..], t[1..]);
    }
  }

  lemma KnownOfOne(r: Record, t: Record)
    requires t.height == r.height && t.heightKnown == r.heightKnown
    ensures KnownSum([r]) == KnownSum([t]) && KnownCount([r]) == KnownCount([t])
  {
  }

  /** Whether rows are new does not matter for where they are. */
  lemma NewMakesNoDifference(s: seq<Record>, t: seq<Record>, estimate: real, spacing: real)
    requires |s| == |t| && forall i :: 0 <= i < |s| ==> t[i] == s[i].(isNew := false)
    ensures Flow(s, estimate, spacing, |s|) == Flow(t, estimate, spacing, |t|)
    ensures IsLaidOut(s, estimate, spacing) ==> IsLaidOut(t, estimate, spacing)
    ensures HasHeights(t, estimate) <==> HasHeights(s, estimate)
    ensures forall vp: Rect, i: nat :: i < |s| ==> (Meets(t, estimate, vp, i) <==> Meets(s, estimate, vp, i))
  {
    hide Flow;
    FlowOfSameSizes(s, t, estimate, spacing, |s|);
    forall i | 0 <= i < |s| ensures TopOf(t, estimate, spacing, i) == TopOf(s, estimate, spacing, i) {
      FlowOfSameSizes(s, t, estimate, spacing, i);
    }
  }

  /** The delegates after the update are those that did not go, and new ones of visible rows. */
  lemma AfterSync(was: map<nat, Entry>, made: map<nat, Item>, gone: seq<nat>, added: seq<nat>, now: map<nat, Entry>)
    requires forall i :: i in added ==> i in made && i !in was
    requires now == WithNew(AllShown(was) - (set i | i in gone), made, added) && forall i :: i in gone ==> i in was
    ensures forall i :: i in now ==> if i in was then i !in gone && now[i] == was[i].(pendingInsert := false)
                                     else i in added && i in made && now[i] == Entry(i, made[i], false, true)
    ensures forall i :: (i in was && i !in gone) || i in added ==> i in now
  {
    assert AllShown(was).Keys == was.Keys;
  }

  /** Every row that meets the viewport is in the range. */
  lemma VisibleHave(layout: seq<Record>, estimate: real, spacing: real, vp: Rect, first: int, last: int)
    requires IsLaidOut(layout, estimate, spacing)
    requires BottomsInOrder(layout, estimate) ==>
      var found := FirstFrom(layout, estimate, vp, 0);
      if IsEmpty(vp) || found == |layout| then first == -1 && last == -1
      else first == found && IsRun(layout, vp, first, last)
    ensures HasHeights(layout, estimate) && spacing >= 0.0 && !IsEmpty(vp) ==>
      forall i: nat :: i < |layout| && Meets(layout, estimate, vp, i) ==> first <= i <= last
  {
    hide IsLaidOut, HasHeights, Flow, TopOf, IsRun, FirstFrom;
    if HasHeights(layout, estimate) && spacing >= 0.0 && !IsEmpty(vp) {
      OrderOfBottoms(layout, estimate, spacing);
      forall i: nat | i < |layout| && Meets(layout, estimate, vp, i) ensures first <= i <= last {
        if first >= 0 {
          RangeIsExact(layout, estimate, spacing, vp, first, last, i);
        }
      }
    }
  }
}
