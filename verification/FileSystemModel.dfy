/** The list of files a view shows, changed by batches that are announced as ranges of rows
    (src/plugin/src/Sleepy/Models/filesystemmodel.cpp:377-456). */
module FileSystemModel {

  /** A file. `rank` orders relative paths as the locale does; different paths may rank the same. */
  datatype Entry = Entry(path: string, isDir: bool, rank: int)

  /** Directories before files and then by rank; or all of it the other way round. */
  predicate Less(reverse: bool, a: Entry, b: Entry) {
    if a.isDir != b.isDir then reverse != a.isDir
    else if reverse then a.rank > b.rank
    else a.rank < b.rank
  }

  ghost predicate IsSorted(reverse: bool, s: seq<Entry>) {
    forall i, j :: 0 <= i < j < |s| ==> !Less(reverse, s[j], s[i])
  }

  lemma LessOrders(reverse: bool, a: Entry, b: Entry, c: Entry)
    ensures !Less(reverse, a, a)
    ensures Less(reverse, a, b) && !Less(reverse, c, b) ==> Less(reverse, a, c)
    ensures !Less(reverse, b, a) && Less(reverse, b, c) ==> Less(reverse, a, c)
    ensures !Less(reverse, b, a) && !Less(reverse, c, b) ==> !Less(reverse, c, a)
  {
  }

  /** Up to row `split` all are directories and from there on none is, or the other way round; and in both parts ranks
      never fall, or never rise. */
  ghost predicate IsListed(reverse: bool, s: seq<Entry>, split: nat) {
    && split <= |s|
    && (forall i :: 0 <= i < |s| ==> s[i].isDir == ((i < split) != reverse))
    && (forall i, j :: 0 <= i < j < |s| && (j < split || split <= i) ==>
          if reverse then s[i].rank >= s[j].rank else s[i].rank <= s[j].rank)
  }

  /** That is what sorting comes to. */
  lemma {:induction false} SortedIsListed(reverse: bool, s: seq<Entry>) returns (split: nat)
    requires IsSorted(reverse, s)
    ensures IsListed(reverse, s, split)
  {
    split := 0;
    while split < |s| && s[split].isDir != reverse
      invariant split <= |s| && forall i :: 0 <= i < split ==> s[i].isDir != reverse
    {
      split := split + 1;
    }
    forall i | split <= i < |s| ensures s[i].isDir == reverse {
      assert split < i ==> !Less(reverse, s[i], s[split]);
    }
    forall i, j | 0 <= i < j < |s| && (j < split || split <= i)
      ensures if reverse then s[i].rank >= s[j].rank else s[i].rank <= s[j].rank
    {
      assert !Less(reverse, s[j], s[i]);
    }
  }

  lemma ListedIsSorted(reverse: bool, s: seq<Entry>, split: nat)
    requires IsListed(reverse, s, split)
    ensures IsSorted(reverse, s)
  {
    forall i, j | 0 <= i < j < |s| ensures !Less(reverse, s[j], s[i]) {
      assert s[i].isDir == s[j].isDir ==> j < split || split <= i;
    }
  }

  // --- What a view sees ---

  /** An announced change: a range of rows goes, or a range appears with what is in it. */
  datatype Change = RowsRemoved(first: nat, last: nat) | RowsInserted(first: nat, rows: seq<Entry>)

  ghost predicate CanApply(s: seq<Entry>, c: Change) {
    match c
    case RowsRemoved(first, last) => first <= last < |s|
    case RowsInserted(first, rows) => first <= |s| && rows != []
  }

  function Apply(s: seq<Entry>, c: Change): seq<Entry>
    requires CanApply(s, c)
  {
    match c
    case RowsRemoved(first, last) => s[..first] + s[last + 1..]
    case RowsInserted(first, rows) => s[..first] + rows + s[first..]
  }

  /** A mirror that replays the announcements alone gets from one list to the other. */
  ghost predicate Replays(s: seq<Entry>, log: seq<Change>, t: seq<Entry>)
    decreases |log|
  {
    if log == [] then s == t
    else CanApply(s, log[0]) && Replays(Apply(s, log[0]), log[1..], t)
  }

  lemma {:induction false} ReplaysMore(s: seq<Entry>, log: seq<Change>, t: seq<Entry>, c: Change)
    requires Replays(s, log, t) && CanApply(t, c)
    ensures Replays(s, log + [c], Apply(t, c))
    decreases |log|
  {
    if log == [] {
      assert [c][1..] == [];
    } else {
      assert (log + [c])[1..] == log[1..] + [c];
      ReplaysMore(Apply(s, log[0]), log[1..], t, c);
    }
  }

  // --- Removing ---

  /** The entries whose paths are not removed, in order. */
  function Keep(s: seq<Entry>, removed: set<string>): seq<Entry> {
    if s == [] then [] else (if s[0].path in removed then [] else [s[0]]) + Keep(s[1..], removed)
  }

  lemma {:induction false} KeepAppend(a: seq<Entry>, b: seq<Entry>, removed: set<string>)
    ensures Keep(a + b, removed) == Keep(a, removed) + Keep(b, removed)
  {
    if a == [] {
      assert a + b == b;
    } else {
      assert (a + b)[1..] == a[1..] + b;
      KeepAppend(a[1..], b, removed);
    }
  }

  lemma {:induction false} KeepAll(s: seq<Entry>, removed: set<string>)
    requires forall i :: 0 <= i < |s| ==> s[i].path !in removed
    ensures Keep(s, removed) == s
  {
    if s != [] {
      KeepAll(s[1..], removed);
    }
  }

  lemma {:induction false} KeepNone(s: seq<Entry>, removed: set<string>)
    requires forall i :: 0 <= i < |s| ==> s[i].path in removed
    ensures Keep(s, removed) == []
  {
    if s != [] {
      KeepNone(s[1..], removed);
    }
  }

  lemma {:induction false} KeepIsSubset(s: seq<Entry>, removed: set<string>)
    ensures forall e :: e in Keep(s, removed) <==> e in s && e.path !in removed
  {
    if s != [] {
      KeepIsSubset(s[1..], removed);
    }
  }

  lemma {:induction false} KeepSorted(reverse: bool, s: seq<Entry>, removed: set<string>)
    requires IsSorted(reverse, s)
    ensures IsSorted(reverse, Keep(s, removed))
  {
    if s != [] {
      KeepSorted(reverse, s[1..], removed);
      KeepIsSubset(s[1..], removed);
      var rest := Keep(s[1..], removed);
      forall e | e in rest ensures !Less(reverse, e, s[0]) {
        assert e in s[1..];
      }
      assert forall j :: 0 <= j < |rest| ==> rest[j] in rest;
    }
  }

  /** A stretch of removed entries with only kept ones behind it up to `low`: taking it out extends what is filtered. */
  lemma KeepStretch(s: seq<Entry>, removed: set<string>, first: nat, last: nat, low: nat)
    requires first <= last < low <= |s|
    requires forall i :: first <= i <= last ==> s[i].path in removed
    requires forall i :: last < i < low ==> s[i].path !in removed
    ensures Keep(s[first..], removed) == s[last + 1..low] + Keep(s[low..], removed)
  {
    assert s[first..] == s[first..last + 1] + s[last + 1..low] + s[low..];
    KeepAppend(s[first..last + 1] + s[last + 1..low], s[low..], removed);
    KeepAppend(s[first..last + 1], s[last + 1..low], removed);
    KeepNone(s[first..last + 1], removed);
    KeepAll(s[last + 1..low], removed);
  }

  lemma {:induction false} ReplaysAll(s: seq<Entry>, log: seq<Change>, t: seq<Entry>, more: seq<Change>, u: seq<Entry>)
    requires Replays(s, log, t) && Replays(t, more, u)
    ensures Replays(s, log + more, u)
    decreases |log|
  {
    hide Apply, CanApply;
    if log == [] {
      assert log + more == more;
    } else {
      assert (log + more)[1..] == log[1..] + more && (log + more)[0] == log[0];
      ReplaysAll(Apply(s, log[0]), log[1..], t, more, u);
    }
  }

  /** Rows in descending order are exactly those to remove. */
  ghost predicate AreRemoved(s: seq<Entry>, removed: set<string>, indices: seq<nat>) {
    && (forall k :: 0 <= k < |indices| ==> indices[k] < |s| && s[indices[k]].path in removed)
    && (forall k, l :: 0 <= k < l < |indices| ==> indices[k] > indices[l])
    && (forall i :: 0 <= i < |s| && s[i].path in removed ==> i in indices)
  }

  /** While runs are taken out: `end..start` is the run being collected, everything from `low` on is done, and nothing
      between is to go. */
  ghost predicate IsRemoving(was: seq<Entry>, removed: set<string>, now: seq<Entry>, start: int, end: int, low: nat) {
    && low <= |was| && now == was[..low] + Keep(was[low..], removed)
    && (start == -1 ==> end == -1 && low == |was|)
    && (start != -1 ==>
          && 0 <= end <= start < low
          && (forall i :: end <= i <= start ==> was[i].path in removed)
          && (forall i :: start < i < low ==> was[i].path !in removed))
  }

  /** A run that is taken out leaves everything from its start on done. */
  lemma RunRemoved(was: seq<Entry>, removed: set<string>, now: seq<Entry>, start: int, end: int, low: nat)
    requires IsRemoving(was, removed, now, start, end, low) && start != -1
    ensures 0 <= end <= start < |now| && end <= |was|
    ensures Apply(now, RowsRemoved(end, start)) == was[..end] + Keep(was[end..], removed)
  {
    KeepStretch(was, removed, end, start, low);
    var kept := Keep(was[low..], removed);
    assert now[..end] == was[..end];
    assert now[start + 1..] == was[start + 1..low] + kept;
    assert was[..end] + (was[start + 1..low] + kept) == was[..end] + Keep(was[end..], removed);
  }

  /** The next row to go starts the first run, extends the current one, or starts another one after it. */
  lemma NextRun(was: seq<Entry>, removed: set<string>, now: seq<Entry>, start: int, end: int, low: nat, idx: nat)
    requires IsRemoving(was, removed, now, start, end, low)
    requires idx < (if start == -1 then |was| else end) && was[idx].path in removed
    requires forall i :: idx < i < (if start == -1 then |was| else end) ==> was[i].path !in removed
    ensures start == -1 ==> IsRemoving(was, removed, now, idx, idx, low)
    ensures start != -1 && idx == end - 1 ==> IsRemoving(was, removed, now, start, idx, low)
    ensures start != -1 ==>
      0 <= end <= start < |now| && IsRemoving(was, removed, Apply(now, RowsRemoved(end, start)), idx, idx, end)
  {
    if start != -1 {
      RunRemoved(was, removed, now, start, end, low);
    }
  }

  lemma NoRunLeft(was: seq<Entry>, removed: set<string>, now: seq<Entry>, start: int, end: int, low: nat)
    requires IsRemoving(was, removed, now, start, end, low)
    ensures start == -1 ==> low == |was| && now == was[..low] + Keep(was[low..], removed)
  {
  }

  lemma NothingRemoved(was: seq<Entry>, removed: set<string>)
    ensures IsRemoving(was, removed, was, -1, -1, |was|) && Replays(was, [], was)
  {
  }

  /** Nothing is to go between one row to remove and the next, nor before the last one. */
  lemma NextRemoved(was: seq<Entry>, removed: set<string>, indices: seq<nat>, k: nat)
    requires AreRemoved(was, removed, indices) && k <= |indices|
    ensures k < |indices| ==>
      indices[k] < |was| && was[indices[k]].path in removed && (k > 0 ==> indices[k] < indices[k - 1])
    ensures forall i :: (if k < |indices| then indices[k] else -1) < i < (if k == 0 then |was| else indices[k - 1]) ==>
      was[i].path !in removed
  {
  }

  // --- Inserting ---

  /** The first row that does not sort before an entry. */
  ghost predicate IsLowerBound(reverse: bool, s: seq<Entry>, e: Entry, row: nat) {
    && row <= |s|
    && (forall k :: 0 <= k < row ==> Less(reverse, s[k], e))
    && (forall k :: row <= k < |s| ==> !Less(reverse, s[k], e))
  }

  /** A sorted run whose first entry belongs at `row`, and whose others sort before what is there, fits in at `row`. */
  lemma RunFits(reverse: bool, s: seq<Entry>, run: seq<Entry>, row: nat)
    requires IsSorted(reverse, s) && IsSorted(reverse, run) && run != [] && IsLowerBound(reverse, s, run[0], row)
    requires row < |s| ==> forall k :: 0 < k < |run| ==> Less(reverse, run[k], s[row])
    ensures IsSorted(reverse, s[..row] + run + s[row..])
  {
  }

  /** The entries as `std::sort` leaves them: in order, and the same ones. */
  method Sort(reverse: bool, s: seq<Entry>) returns (t: seq<Entry>)
    ensures IsSorted(reverse, t) && multiset(t) == multiset(s)
  {
    hide IsSorted, IsLowerBound, Less;
    t := [];
    SingleSorted(reverse, []);
    for i := 0 to |s|
      invariant IsSorted(reverse, t) && multiset(t) == multiset(s[..i])
    {
      var row := LowerBound(reverse, t, s[i]);
      RowInRange(reverse, t, s[i], row);
      SingleSorted(reverse, [s[i]]);
      RunFits(reverse, t, [s[i]], row);
      InsertedMultiset(t, s, [s[i]], row, i, i + 1);
      t := t[..row] + [s[i]] + t[row..];
    }
    assert s[..|s|] == s;
  }

  lemma SingleSorted(reverse: bool, s: seq<Entry>)
    requires |s| <= 1
    ensures IsSorted(reverse, s)
  {
  }

  method LowerBound(reverse: bool, s: seq<Entry>, e: Entry) returns (row: nat)
    requires IsSorted(reverse, s)
    ensures IsLowerBound(reverse, s, e, row)
  {
    var lo, hi := 0, |s|;
    while lo < hi
      invariant 0 <= lo <= hi <= |s|
      invariant forall k :: 0 <= k < lo ==> Less(reverse, s[k], e)
      invariant forall k :: hi <= k < |s| ==> !Less(reverse, s[k], e)
    {
      var mid := (lo + hi) / 2;
      if Less(reverse, s[mid], e) {
        forall k | 0 <= k <= mid ensures Less(reverse, s[k], e) {
          LessOrders(reverse, s[k], s[mid], e);
        }
        lo := mid + 1;
      } else {
        forall k | mid <= k < |s| ensures !Less(reverse, s[k], e) {
          LessOrders(reverse, e, s[mid], s[k]);
        }
        hi := mid;
      }
    }
    row := lo;
  }

  class Model {
    var entries: seq<Entry>
    const sortReverse: bool

    constructor (sortReverse: bool)
      ensures entries == [] && this.sortReverse == sortReverse
    {
      entries, this.sortReverse := [], sortReverse;
    }

    /** Takes a range of rows out, from the last to the first. */
    method RemoveRows(first: nat, last: nat) returns (change: Change)
      requires first <= last < |entries|
      modifies this
      ensures change == RowsRemoved(first, last) && entries == Apply(old(entries), change)
    {
      ghost var was := entries;
      var i := last;
      while i >= first
        invariant first - 1 <= i <= last && entries == was[..i + 1] + was[last + 1..]
      {
        entries := entries[..i] + entries[i + 1..];
        i := i - 1;
      }
      change := RowsRemoved(first, last);
    }

    method FindRemoved(removed: set<string>) returns (indices: seq<nat>)
      ensures AreRemoved(entries, removed, indices)
    {
      indices := [];
      for i := 0 to |entries|
        invariant forall k :: 0 <= k < |indices| ==> indices[k] < i && entries[indices[k]].path in removed
        invariant forall k, l :: 0 <= k < l < |indices| ==> indices[k] > indices[l]
        invariant forall j :: 0 <= j < i && entries[j].path in removed ==> j in indices
      {
        if entries[i].path in removed {
          indices := [i] + indices;
        }
      }
    }

    /** Takes out all entries with the paths given, run by run from the end. */
    method RemovePaths(removed: set<string>) returns (announced: seq<Change>)
      modifies this
      ensures entries == Keep(old(entries), removed) && Replays(old(entries), announced, entries)
    {
      hide Replays, Keep, AreRemoved, IsRemoving, Apply;
      ghost var was := entries;
      var indices := FindRemoved(removed);
      announced := [];
      var start: int, end: int := -1, -1;
      ghost var low: nat := |entries|;
      NothingRemoved(was, removed);
      for k := 0 to |indices|
        invariant IsRemoving(was, removed, entries, start, end, low) && Replays(was, announced, entries)
        invariant start != -1 ==> k > 0 && end == indices[k - 1]
        invariant start == -1 ==> k == 0
      {
        var idx := indices[k];
        NextRemoved(was, removed, indices, k);
        NextRun(was, removed, entries, start, end, low, idx);
        if start == -1 {
          start, end := idx, idx;
        } else if idx == end - 1 {
          end := idx;
        } else {
          ghost var before := entries;
          var change := RemoveRows(end, start);
          ReplaysMore(was, announced, before, change);
          announced := announced + [change];
          low := end;
          start, end := idx, idx;
        }
      }
      NoRunLeft(was, removed, entries, start, end, low);
      if start != -1 {
        RunRemoved(was, removed, entries, start, end, low);
        ghost var before := entries;
        var change := RemoveRows(end, start);
        ReplaysMore(was, announced, before, change);
        announced := announced + [change];
        low := end;
      }
      NextRemoved(was, removed, indices, |indices|);
      assert was == was[..low] + was[low..];
      KeepAppend(was[..low], was[low..], removed);
      KeepAll(was[..low], removed);
    }

    /** Puts a range of entries in, one after the other. */
    method InsertRows(row: nat, run: seq<Entry>) returns (change: Change)
      requires row <= |entries| && run != []
      modifies this
      ensures change == RowsInserted(row, run) && entries == Apply(old(entries), change)
    {
      ghost var was := entries;
      for k := 0 to |run|
        invariant entries == was[..row] + run[..k] + was[row..]
      {
        entries := entries[..row + k] + [run[k]] + entries[row + k..];
        assert run[..k + 1] == run[..k] + [run[k]];
      }
      assert run[..|run|] == run;
      change := RowsInserted(row, run);
    }

    /** Where the run of new entries ends that sort before what is at `row`. */
    method RunEnd(newEntries: seq<Entry>, i: nat, row: nat) returns (j: nat)
      requires i < |newEntries|
      ensures i < j <= |newEntries|
      ensures row < |entries| ==> forall k :: 0 < k < j - i ==> Less(sortReverse, newEntries[i..j][k], entries[row])
    {
      j := i + 1;
      while j < |newEntries| && (row >= |entries| || Less(sortReverse, newEntries[j], entries[row]))
        invariant i < j <= |newEntries|
        invariant row < |entries| ==> forall k :: i < k < j ==> Less(sortReverse, newEntries[k], entries[row])
      {
        j := j + 1;
      }
    }

    /** Puts sorted entries in, as many at a time as belong in the same place. */
    method InsertEntries(newEntries: seq<Entry>) returns (announced: seq<Change>)
      requires IsSorted(sortReverse, entries) && IsSorted(sortReverse, newEntries)
      modifies this
      ensures IsSorted(sortReverse, entries) && Replays(old(entries), announced, entries)
      ensures multiset(entries) == multiset(old(entries)) + multiset(newEntries)
    {
      hide Replays, IsSorted, IsLowerBound, Less;
      ghost var was := entries;
      NothingRemoved(was, {});
      announced := [];
      var i := 0;
      while i < |newEntries|
        invariant 0 <= i <= |newEntries| && IsSorted(sortReverse, entries) && Replays(was, announced, entries)
        invariant multiset(entries) == multiset(was) + multiset(newEntries[..i])
      {
        var row := LowerBound(sortReverse, entries, newEntries[i]);
        RowInRange(sortReverse, entries, newEntries[i], row);
        var j := RunEnd(newEntries, i, row);
        var run := newEntries[i..j];
        SliceSorted(sortReverse, newEntries, i, j);
        RunFits(sortReverse, entries, run, row);
        ghost var before := entries;
        InsertedMultiset(before, newEntries, run, row, i, j);
        var change := InsertRows(row, run);
        ReplaysMore(was, announced, before, change);
        announced := announced + [change];
        i := j;
      }
      assert newEntries[..|newEntries|] == newEntries;
    }

    /** Removes and adds files; `made` holds the entries of the paths added. */
    method ApplyChanges(removedPaths: set<string>, addedPaths: set<string>, made: map<string, Entry>)
      returns (announced: seq<Change>, ghost added: seq<Entry>, ghost split: nat)
      requires IsSorted(sortReverse, entries) && addedPaths <= made.Keys && forall p :: p in made ==> made[p].path == p
      modifies this
      ensures IsSorted(sortReverse, entries) && Replays(old(entries), announced, entries)
      ensures split <= |entries|
        && (forall i :: 0 <= i < |entries| ==> entries[i].isDir == ((i < split) != sortReverse))
        && (forall i, j :: 0 <= i < j < |entries| && (j < split || split <= i) ==>
              if sortReverse then entries[i].rank >= entries[j].rank else entries[i].rank <= entries[j].rank)
      ensures IsListing(addedPaths, made, added)
      ensures multiset(entries) == multiset(Keep(old(entries), removedPaths)) + multiset(added)
      ensures forall e :: e in entries <==>
        (e in old(entries) && e.path !in removedPaths) || (e.path in addedPaths && e == made[e.path])
    {
      hide Replays, IsSorted;
      ghost var was := entries;
      announced := RemovePaths(removedPaths);
      KeepSorted(sortReverse, was, removedPaths);
      var listed := List(addedPaths, made);
      var newEntries := Sort(sortReverse, listed);
      ghost var kept := entries;
      var more := InsertEntries(newEntries);
      ReplaysAll(was, announced, kept, more, entries);
      announced, added := announced + more, listed;
      split := SortedIsListed(sortReverse, entries);
      KeepIsSubset(was, removedPaths);
      ListingIsExact(addedPaths, made, listed);
      forall e ensures e in entries <==> e in kept || e in listed {
        assert multiset(entries)[e] == multiset(kept)[e] + multiset(listed)[e];
      }
    }
  }

  /** The entries of a set of paths, each once. */
  ghost predicate IsListing(paths: set<string>, made: map<string, Entry>, s: seq<Entry>) {
    && (forall i :: 0 <= i < |s| ==> s[i].path in paths && s[i].path in made && made[s[i].path] == s[i])
    && (forall i, j :: 0 <= i < j < |s| ==> s[i].path != s[j].path)
    && (forall p :: p in paths ==> exists i :: 0 <= i < |s| && s[i].path == p)
  }

  lemma ListingIsExact(paths: set<string>, made: map<string, Entry>, s: seq<Entry>)
    requires IsListing(paths, made, s) && paths <= made.Keys && forall p :: p in made ==> made[p].path == p
    ensures forall e :: e in s <==> e.path in paths && e == made[e.path]
  {
  }

  method List(paths: set<string>, made: map<string, Entry>) returns (s: seq<Entry>)
    requires paths <= made.Keys && forall p :: p in made ==> made[p].path == p
    ensures IsListing(paths, made, s)
  {
    s := [];
    var rest := paths;
    while rest != {}
      invariant rest <= paths && IsListing(paths - rest, made, s)
    {
      var p :| p in rest;
      ghost var was, listed := s, paths - rest;
      assert forall q :: q in listed ==> exists i :: 0 <= i < |was| && was[i].path == q;
      s := s + [made[p]];
      forall q | q in paths - (rest - {p}) ensures exists i :: 0 <= i < |s| && s[i].path == q {
        if q == p {
          assert s[|was|].path == q;
        } else {
          assert q in listed;
          var i :| 0 <= i < |was| && was[i].path == q;
          assert s[i].path == q;
        }
      }
      rest := rest - {p};
    }
    assert paths - rest == paths;
  }

  lemma InsertedMultiset(s: seq<Entry>, newEntries: seq<Entry>, run: seq<Entry>, row: nat, i: nat, j: nat)
    requires row <= |s| && i <= j <= |newEntries| && run == newEntries[i..j]
    ensures multiset(s[..row] + run + s[row..]) == multiset(s) + multiset(run)
    ensures multiset(newEntries[..j]) == multiset(newEntries[..i]) + multiset(run)
  {
    assert s == s[..row] + s[row..];
    assert newEntries[..j] == newEntries[..i] + run;
  }

  lemma RowInRange(reverse: bool, s: seq<Entry>, e: Entry, row: nat)
    requires IsLowerBound(reverse, s, e, row)
    ensures row <= |s|
  {
  }

  lemma SliceSorted(reverse: bool, s: seq<Entry>, i: nat, j: nat)
    requires IsSorted(reverse, s) && i <= j <= |s|
    ensures IsSorted(reverse, s[i..j])
  {
  }
}
