/** The file of a settings layer: batched changes, debounced saves and loads
    (src/plugin/src/Sleepy/Settings/settingsfile.cpp:22-200, changebatcher.cpp:9-23, rootnode.cpp:7-46).
    Timers fire no earlier than their interval; what the disk does is a step input. */
module SettingsFile {
  import opened Wrappers
  import opened SettingsCodecs

  const SAVE_INTERVAL := 500
  const LOAD_INTERVAL := 50
  const MAX_LOAD_RETRIES: nat := 3

  /** What is at the path. */
  datatype Disk = Absent | Unreadable | Garbled | Holds(json: Json)

  datatype LoadResult = Unchanged | Changed | ParseError | Error

  /** The fields of the file, the batcher and the tree, with what happened so far. */
  datatype State = State(
    lastData: Option<Json>, pendingWrite: Option<Json>,
    saveActive: bool, saveStarted: int, saveQueued: bool,
    loadActive: bool, loadStarted: int, loadRetries: nat,
    /** Whether the tree has changes no flush has passed on, and what it saves as. */
    dirty: bool, tree: Json,
    disk: Disk, now: int,
    /** When this layer wrote its file, how often it told of a change, and whether others touched the file since it
        was last written or read, or a user ever changed the tree; and what the tree was last loaded from. */
    writes: seq<int>, notices: nat, edited: bool, touched: bool, loaded: Option<Json>)

  /** What can happen next. */
  datatype Event =
    | UserWrite(tree: Json, matters: bool)
    | Flush(ok: bool)
    | SaveTimeout(ok: bool)
    | WatcherFires
    | LoadTimeout(reloaded: Json)
    | Elapse(ms: int)
    | ExternalEdit(disk: Disk)

  /** Writes the pending JSON at once, or queues it if the last write is too recent. */
  function Save(s: State, ok: bool): State {
    if s.pendingWrite.None? then s
    else if s.saveActive then s.(saveQueued := true)
    else
      var t := s.(saveActive := true, saveStarted := s.now, pendingWrite := None);
      if !ok then t
      else t.(disk := Holds(s.pendingWrite.value), lastData := s.pendingWrite, writes := s.writes + [s.now],
              edited := false)
  }

  function Write(s: State, json: Json, ok: bool): State {
    Save(s.(pendingWrite := Some(json)), ok)
  }

  /** A change was announced, and the tree loaded from the file. */
  function Reloaded(s: State, reloaded: Json): State {
    s.(notices := s.notices + 1, tree := reloaded, edited := false, touched := false, loaded := s.lastData)
  }

  /** Reads the file; a change replaces what is pending and the tree. */
  function Load(s: State, reloaded: Json): (State, LoadResult) {
    match s.disk
    case Absent =>
      if s.lastData.Some? then
        (Reloaded(s.(lastData := None), reloaded), Changed)
      else (s, Unchanged)
    case Unreadable => (s, Error)
    case Garbled => (s, ParseError)
    case Holds(json) =>
      if s.lastData == Some(json) then (s, Unchanged)
      else
        (Reloaded(s.(pendingWrite := None, lastData := Some(json)), reloaded), Changed)
  }

  /** The load is tried once more after another interval. */
  function Retried(s: State): State {
    s.(loadRetries := s.loadRetries + 1, loadActive := true, loadStarted := s.now)
  }

  predicate IsEnabled(s: State, e: Event) {
    match e
    case UserWrite(tree, matters) => tree != s.tree ==> matters
    case SaveTimeout(_) => s.saveActive && s.now >= s.saveStarted + SAVE_INTERVAL
    case LoadTimeout(_) => s.loadActive && s.now >= s.loadStarted + LOAD_INTERVAL
    case Elapse(ms) => ms >= 0
    case _ => true
  }

  function Step(s: State, e: Event): State {
    match e
    case UserWrite(tree, matters) => if matters then s.(tree := tree, dirty := true, touched := true) else s
    case Flush(ok) => if s.dirty then Write(s.(dirty := false), s.tree, ok) else s
    case SaveTimeout(ok) =>
      var t := s.(saveActive := false, saveQueued := false);
      if s.saveQueued then Save(t, ok) else t
    case WatcherFires => if s.loadActive then s else s.(loadRetries := 0, loadActive := true, loadStarted := s.now)
    case LoadTimeout(reloaded) =>
      var (t, r) := Load(s.(loadActive := false), reloaded);
      if r.ParseError? && s.loadRetries < MAX_LOAD_RETRIES then Retried(t) else t
    case Elapse(ms) => s.(now := s.now + ms)
    case ExternalEdit(disk) => s.(disk := disk, edited := true)
  }

  lemma TimeoutStep(s: State, reloaded: Json)
    ensures var t := Load(s.(loadActive := false), reloaded);
      Step(s, LoadTimeout(reloaded))
      == if t.1.ParseError? && s.loadRetries < MAX_LOAD_RETRIES then Retried(t.0) else t.0
  {
  }

  ghost predicate IsRun(s: State, events: seq<Event>)
    decreases |events|
  {
    events == [] || (IsEnabled(s, events[0]) && IsRun(Step(s, events[0]), events[1..]))
  }

  function Run(s: State, events: seq<Event>): State
    decreases |events|
  {
    if events == [] then s else Run(Step(s, events[0]), events[1..])
  }

  /** Consecutive writes are a full interval apart. */
  ghost predicate IsSpaced(writes: seq<int>) {
    forall i :: 0 < i < |writes| ==> writes[i - 1] + SAVE_INTERVAL <= writes[i]
  }

  /** In sync: the file holds what this layer last read or wrote; of one that cannot be read nothing is known. */
  predicate IsInSync(s: State) {
    match s.disk
    case Absent => s.lastData.None?
    case Holds(json) => s.lastData == Some(json)
    case _ => s.lastData.None?
  }

  /** A pending write waits for the save timer, and is queued to it. */
  predicate IsQueued(s: State) {
    (s.pendingWrite.Some? ==> s.saveQueued) && (s.saveQueued ==> s.saveActive)
  }

  /** The writes so far are spaced, and so is the next one. */
  ghost predicate IsPaced(s: State) {
    && IsSpaced(s.writes) && s.saveStarted <= s.now
    && (s.writes != [] ==>
          var last := s.writes[|s.writes| - 1];
          if s.saveActive then last == s.saveStarted || last + SAVE_INTERVAL <= s.saveStarted
          else last + SAVE_INTERVAL <= s.now)
  }

  /** What every step keeps, whatever happens to the file. */
  ghost predicate Invariant(s: State) {
    IsQueued(s) && IsPaced(s) && (!s.edited ==> IsInSync(s)) && s.loadRetries <= MAX_LOAD_RETRIES
  }

  lemma SaveKeeps(s: State, ok: bool)
    requires IsPaced(s) && (s.saveQueued ==> s.saveActive) && (!s.edited ==> IsInSync(s))
      && s.loadRetries <= MAX_LOAD_RETRIES
    ensures Invariant(Save(s, ok))
  {
  }

  lemma LoadKeeps(s: State, reloaded: Json)
    requires Invariant(s)
    ensures Invariant(Load(s, reloaded).0)
  {
    hide IsSpaced;
    match s.disk
    case Absent =>
    case Unreadable =>
    case Garbled =>
    case Holds(_) =>
  }

  lemma {:induction false} StepKeeps(s: State, e: Event)
    requires Invariant(s) && IsEnabled(s, e)
    ensures Invariant(Step(s, e))
  {
    hide IsSpaced;
    match e
    case Flush(ok) =>
      if s.dirty {
        SaveKeeps(s.(dirty := false, pendingWrite := Some(s.tree)), ok);
      }
    case SaveTimeout(ok) =>
      SaveKeeps(s.(saveActive := false, saveQueued := false), ok);
    case LoadTimeout(reloaded) =>
      LoadKeeps(s.(loadActive := false), reloaded);
    case _ =>
  }

  /** A layer that was just loaded, before anything happens. */
  predicate IsLoaded(s: State) {
    && s.pendingWrite.None? && !s.saveActive && !s.saveQueued && !s.loadActive && s.loadRetries == 0 && !s.dirty
    && s.writes == [] && s.notices == 0 && s.saveStarted <= s.now && !s.edited && !s.touched && IsInSync(s)
    && s.loaded == s.lastData
  }

  /** In any run, whatever others do to the file and whether saving works: a pending write is always queued to a running
      timer, and writes are at least half a second apart. */
  lemma {:induction false} RunKeeps(s: State, events: seq<Event>)
    requires Invariant(s) && IsRun(s, events)
    ensures Invariant(Run(s, events))
    decreases |events|
  {
    if events != [] {
      StepKeeps(s, events[0]);
      RunKeeps(Step(s, events[0]), events[1..]);
    }
  }

  lemma WritesAreSpaced(s: State, events: seq<Event>, i: nat)
    requires IsLoaded(s) && IsRun(s, events) && 0 < i < |Run(s, events).writes|
    ensures var writes := Run(s, events).writes; writes[i] - writes[i - 1] >= 500
  {
    RunKeeps(s, events);
  }

  /** The layer never takes its own write for somebody else's: a step that tells of a change comes after an edit. */
  lemma OwnWritesAreSilent(s: State, events: seq<Event>, e: Event)
    requires IsLoaded(s) && IsRun(s, events) && IsEnabled(Run(s, events), e)
    ensures var t := Run(s, events); !t.edited ==> Step(t, e).notices == t.notices
  {
    RunKeeps(s, events);
  }

  // --- Runs without edits by others and without failing saves ---

  predicate IsQuiet(e: Event) {
    match e
    case Flush(ok) => ok
    case SaveTimeout(ok) => ok
    case ExternalEdit(_) => false
    case _ => true
  }

  /** The latest tree of a user is on its way to the file, or there. */
  predicate IsOnItsWay(s: State) {
    s.touched ==> s.dirty || (if s.pendingWrite.Some? then s.pendingWrite.value == s.tree else s.disk == Holds(s.tree))
  }

  lemma {:induction false} QuietStep(s: State, e: Event)
    requires Invariant(s) && IsEnabled(s, e) && IsQuiet(e) && !s.edited && IsOnItsWay(s)
    ensures var t := Step(s, e); !t.edited && IsOnItsWay(t) && t.notices == s.notices && (s.touched ==> t.touched)
  {
    hide IsSpaced, IsPaced;
    match e
    case LoadTimeout(_) =>
    case Flush(_) =>
    case SaveTimeout(_) =>
    case _ =>
  }

  lemma {:induction false} QuietRun(s: State, events: seq<Event>)
    requires Invariant(s) && IsRun(s, events) && (forall i :: 0 <= i < |events| ==> IsQuiet(events[i]))
    requires !s.edited && IsOnItsWay(s)
    ensures var t := Run(s, events); !t.edited && IsOnItsWay(t) && t.notices == s.notices
    decreases |events|
  {
    if events != [] {
      StepKeeps(s, events[0]);
      QuietStep(s, events[0]);
      QuietRun(Step(s, events[0]), events[1..]);
    }
  }

  /** Nothing is waiting for a flush or a timer. */
  predicate IsDrained(s: State) {
    !s.dirty && !(s.saveActive && s.saveQueued)
  }

  /** Once nothing is waiting, the file holds the tree as of the user's last change, and none of this was announced. */
  lemma DrainedFileHoldsTree(s: State, events: seq<Event>)
    requires IsLoaded(s) && IsRun(s, events) && forall i :: 0 <= i < |events| ==> IsQuiet(events[i])
    ensures var t := Run(s, events);
      t.notices == 0 && (t.touched && IsDrained(t) ==> t.disk == Holds(t.tree) && t.lastData == Some(t.tree))
  {
    RunKeeps(s, events);
    QuietRun(s, events);
  }

  /** And that takes a flush, and one interval if the save timer runs. */
  lemma DrainsSoon(s: State)
    requires Invariant(s)
    ensures var t := Step(s, Flush(true));
      if !t.saveActive then IsDrained(t)
      else
        var u := Step(t, Elapse(500));
        IsEnabled(u, SaveTimeout(true)) && IsDrained(Step(u, SaveTimeout(true)))
  {
  }

  // --- Runs with edits by others and failing saves ---

  /** The file, as far as known, holds the tree, or is what the tree was loaded from and no user changed since. */
  predicate IsCurrent(s: State) {
    s.lastData == Some(s.tree) || (!s.touched && s.lastData == s.loaded)
  }

  /** That, or the tree is on its way to the file. */
  predicate IsAligned(s: State) {
    s.dirty || (if s.pendingWrite.Some? then s.pendingWrite.value == s.tree else IsCurrent(s))
  }

  /** The layer notices that its file is gone while an older tree waits for the save timer. */
  predicate IsStale(s: State, e: Event) {
    && e.LoadTimeout? && s.disk.Absent? && s.lastData.Some?
    && !s.dirty && s.pendingWrite.Some? && s.pendingWrite.value != e.reloaded
  }

  /** A save fails that had something to save. What was pending is dropped and nothing tries again. */
  predicate Fails(s: State, e: Event) {
    match e
    case Flush(ok) => !ok && s.dirty && !s.saveActive && !IsCurrent(s)
    case SaveTimeout(ok) => !ok && s.saveQueued && s.pendingWrite.Some? && !s.dirty && !IsCurrent(s)
    case _ => false
  }

  /** Only these two break the alignment. */
  lemma {:induction false} AlignedIff(s: State, e: Event)
    requires Invariant(s) && IsEnabled(s, e) && IsAligned(s)
    ensures IsAligned(Step(s, e)) <==> !IsStale(s, e) && !Fails(s, e)
  {
    hide IsSpaced, IsPaced, IsInSync;
  }

  predicate HasLoss(s: State, events: seq<Event>)
    decreases |events|
  {
    events != [] && (IsStale(s, events[0]) || Fails(s, events[0]) || HasLoss(Step(s, events[0]), events[1..]))
  }

  lemma {:induction false} AlignedRun(s: State, events: seq<Event>)
    requires Invariant(s) && IsRun(s, events) && IsAligned(s) && !HasLoss(s, events)
    ensures IsAligned(Run(s, events))
    decreases |events|
  {
    if events != [] {
      StepKeeps(s, events[0]);
      AlignedIff(s, events[0]);
      AlignedRun(Step(s, events[0]), events[1..]);
    }
  }

  /** Once nothing is waiting and no edit is unnoticed, file and tree agree. */
  lemma DrainedAgrees(s: State, events: seq<Event>)
    requires IsLoaded(s) && IsRun(s, events) && !HasLoss(s, events)
    ensures var t := Run(s, events); IsDrained(t) && !t.edited ==> IsInSync(t) && IsCurrent(t)
  {
    RunKeeps(s, events);
    AlignedRun(s, events);
  }

  /** Nothing is waiting, no edit is unnoticed, and the file is something else. */
  predicate IsDiverged(s: State) {
    !s.dirty && s.pendingWrite.None? && !s.edited && !IsCurrent(s)
  }

  /** Otherwise the old tree is written over the deletion. */
  lemma StaleDiverges(s: State, e: Event)
    requires Invariant(s) && IsEnabled(s, e) && IsStale(s, e)
    ensures var t := Step(Step(s, e), Elapse(SAVE_INTERVAL));
      IsEnabled(t, SaveTimeout(true)) && IsDiverged(Step(t, SaveTimeout(true)))
  {
  }

  /** Or the file stays what it was. */
  lemma FailureDiverges(s: State, e: Event)
    requires Invariant(s) && IsEnabled(s, e) && Fails(s, e) && !s.edited
    ensures IsDiverged(Step(s, e)) && Step(s, e).disk == s.disk
  {
    hide IsSpaced, IsPaced;
  }

  /** And it stays so until a user changes the tree or somebody the file. */
  lemma {:induction false} DivergedStays(s: State, e: Event)
    requires Invariant(s) && IsEnabled(s, e) && IsDiverged(s) && !e.ExternalEdit? && (e.UserWrite? ==> !e.matters)
    ensures IsDiverged(Step(s, e)) && Step(s, e).tree == s.tree && Step(s, e).disk == s.disk
  {
    hide IsSpaced, IsPaced;
  }

  /** A run to a failure: one change that cannot be saved. */
  lemma SaveIsDropped(s: State, tree: Json)
    requires IsLoaded(s) && s.lastData != Some(tree)
    ensures var events := [UserWrite(tree, true)];
      IsRun(s, events) && IsEnabled(Run(s, events), Flush(false)) && Fails(Run(s, events), Flush(false))
  {
    RunTwo(s, [UserWrite(tree, true)]);
  }

  /** A run to a stale deletion: two changes, of which the second is queued when the file is deleted. */
  lemma DeletionIsMissed(s: State)
    requires IsLoaded(s)
    ensures var events := [UserWrite(Bool(true), true), Flush(true), UserWrite(Bool(false), true), Flush(true),
                           ExternalEdit(Absent), WatcherFires, Elapse(LOAD_INTERVAL)];
      IsRun(s, events) && IsEnabled(Run(s, events), LoadTimeout(Null)) && IsStale(Run(s, events), LoadTimeout(Null))
  {
    hide IsSpaced, IsPaced;
    var a := [UserWrite(Bool(true), true), Flush(true), UserWrite(Bool(false), true), Flush(true),
              ExternalEdit(Absent), WatcherFires, Elapse(LOAD_INTERVAL)];
    var s2 := Step(Step(s, a[0]), a[1]);
    var s4 := Step(Step(s2, a[2]), a[3]);
    RunTwo(Step(Step(s4, a[4]), a[5]), a[6..]);
    RunTwo(s4, a[4..]);
    RunTwo(s2, a[2..]);
    RunTwo(s, a);
  }

  lemma RunTwo(s: State, events: seq<Event>)
    requires events != []
    ensures |events| == 1 ==> (IsRun(s, events) <==> IsEnabled(s, events[0])) && Run(s, events) == Step(s, events[0])
    ensures |events| > 1 ==>
      var t := Step(s, events[0]);
      && (IsRun(s, events) <==>
          IsEnabled(s, events[0]) && IsEnabled(t, events[1]) && IsRun(Step(t, events[1]), events[2..]))
      && Run(s, events) == Run(Step(t, events[1]), events[2..])
  {
    hide Step, IsEnabled;
    if |events| > 1 {
      assert events[1..][1..] == events[2..];
    }
  }

  // --- Edits by others are taken over ---

  lemma {:induction false} RunAppended(s: State, events: seq<Event>, more: seq<Event>)
    ensures IsRun(s, events + more) <==> IsRun(s, events) && IsRun(Run(s, events), more)
    ensures Run(s, events + more) == Run(Run(s, events), more)
    decreases |events|
  {
    hide Step, IsEnabled;
    if events == [] {
      assert events + more == more;
    } else {
      assert (events + more)[0] == events[0] && (events + more)[1..] == events[1..] + more;
      RunAppended(Step(s, events[0]), events[1..], more);
    }
  }

  /** A load that is due after 50 ms. */
  lemma LoadIsDue(s: State, reloaded: Json)
    requires s.loadActive && s.loadStarted == s.now
    ensures var events := [Elapse(50), LoadTimeout(reloaded)];
      && IsRun(s, events)
      && Run(s, events) == Step(s.(now := s.now + 50), LoadTimeout(reloaded))
  {
    RunTwo(s, [Elapse(50), LoadTimeout(reloaded)]);
  }

  /** Another file is read 50 ms after it was noticed, announced once, and made the tree; what was to be written is
      dropped. */
  lemma EditIsTakenOver(s: State, json: Json, reloaded: Json)
    requires !s.loadActive && s.lastData != Some(json)
    ensures var events := [ExternalEdit(Holds(json)), WatcherFires, Elapse(50), LoadTimeout(reloaded)];
      && IsRun(s, events)
      && var t := Run(s, events);
         && t.lastData == Some(json) && t.tree == reloaded && t.pendingWrite.None? && t.notices == s.notices + 1
         && !t.edited && t.disk == Holds(json) && !t.loadActive
  {
    var events := [ExternalEdit(Holds(json)), WatcherFires, Elapse(50), LoadTimeout(reloaded)];
    RunTwo(s, events);
    assert events[2..] == [Elapse(50), LoadTimeout(reloaded)];
    LoadIsDue(Step(Step(s, events[0]), events[1]), reloaded);
  }

  /** A file that is gone makes the tree that of no file. */
  lemma DeletionIsTakenOver(s: State, reloaded: Json)
    requires !s.loadActive && s.lastData.Some?
    ensures var events := [ExternalEdit(Absent), WatcherFires, Elapse(50), LoadTimeout(reloaded)];
      && IsRun(s, events)
      && var t := Run(s, events);
         t.lastData.None? && t.tree == reloaded && t.notices == s.notices + 1 && !t.edited && t.disk.Absent?
  {
    var events := [ExternalEdit(Absent), WatcherFires, Elapse(50), LoadTimeout(reloaded)];
    RunTwo(s, events);
    assert events[2..] == [Elapse(50), LoadTimeout(reloaded)];
    LoadIsDue(Step(Step(s, events[0]), events[1]), reloaded);
  }

  /** The same JSON as before makes no difference. */
  lemma SameFileIsIgnored(s: State, json: Json, reloaded: Json)
    requires !s.loadActive && s.lastData == Some(json)
    ensures var events := [ExternalEdit(Holds(json)), WatcherFires, Elapse(50), LoadTimeout(reloaded)];
      && IsRun(s, events)
      && var t := Run(s, events);
         t.lastData == s.lastData && t.tree == s.tree && t.notices == s.notices && t.pendingWrite == s.pendingWrite
  {
    var events := [ExternalEdit(Holds(json)), WatcherFires, Elapse(50), LoadTimeout(reloaded)];
    RunTwo(s, events);
    assert events[2..] == [Elapse(50), LoadTimeout(reloaded)];
    LoadIsDue(Step(Step(s, events[0]), events[1]), reloaded);
  }

  /** A file that cannot be parsed is noticed, and looked at `n` times. */
  ghost function Looks(n: nat): seq<Event> {
    if n == 0 then [ExternalEdit(Garbled), WatcherFires] else Looks(n - 1) + [Elapse(50), LoadTimeout(Null)]
  }

  /** It is looked at four times; until then nothing changes but that another look is due, and then none is. */
  lemma {:induction false} LooksAgain(s: State, n: nat)
    requires !s.loadActive && n <= 4
    ensures IsRun(s, Looks(n))
    ensures var t := Run(s, Looks(n));
      && (t.loadActive <==> n < 4) && (n < 4 ==> t.loadStarted == t.now) && t.loadRetries == (if n < 4 then n else 3)
      && t.disk == Garbled && t.lastData == s.lastData && t.tree == s.tree && t.notices == s.notices
  {
    if n == 0 {
      RunTwo(s, Looks(0));
      assert Looks(0)[2..] == [];
    } else {
      LooksAgain(s, n - 1);
      RunAppended(s, Looks(n - 1), [Elapse(50), LoadTimeout(Null)]);
      LoadIsDue(Run(s, Looks(n - 1)), Null);
    }
  }

  /** So if it is repaired before the fourth look, it is taken over although nobody notices that. */
  lemma RepairIsTakenOver(s: State, n: nat, json: Json, reloaded: Json)
    requires !s.loadActive && n <= 3 && s.lastData != Some(json)
    ensures var events := Looks(n) + [ExternalEdit(Holds(json)), Elapse(50), LoadTimeout(reloaded)];
      && IsRun(s, events)
      && var t := Run(s, events);
         && t.lastData == Some(json) && t.tree == reloaded && t.pendingWrite.None? && t.notices == s.notices + 1
         && !t.edited
  {
    LooksAgain(s, n);
    var t, repair := Run(s, Looks(n)), ExternalEdit(Holds(json));
    RunAppended(s, Looks(n), [repair, Elapse(50), LoadTimeout(reloaded)]);
    assert [repair, Elapse(50), LoadTimeout(reloaded)] == [repair] + [Elapse(50), LoadTimeout(reloaded)];
    RunAppended(t, [repair], [Elapse(50), LoadTimeout(reloaded)]);
    RunTwo(t, [repair]);
    LoadIsDue(Step(t, repair), reloaded);
  }

  /** The layer's file, batcher and root node, updated in place. */
  class FileLayer {
    var lastData: Option<Json>
    var pendingWrite: Option<Json>
    var saveActive: bool
    var saveStarted: int
    var saveQueued: bool
    var loadActive: bool
    var loadStarted: int
    var loadRetries: nat
    var dirty: bool
    var tree: Json
    var disk: Disk
    var now: int
    ghost var writes: seq<int>
    ghost var notices: nat
    ghost var edited: bool
    ghost var touched: bool
    ghost var loaded: Option<Json>

    ghost function Current(): State
      reads this
    {
      State(lastData, pendingWrite, saveActive, saveStarted, saveQueued, loadActive, loadStarted, loadRetries,
            dirty, tree, disk, now, writes, notices, edited, touched, loaded)
    }

    /** What holds between events, whatever others do to the file. */
    ghost predicate Valid()
      reads this
    {
      Invariant(Current())
    }

    lemma ValidMeans()
      requires Valid()
      ensures pendingWrite.Some? ==> saveActive && saveQueued
      ensures forall i :: 0 < i < |writes| ==> writes[i] - writes[i - 1] >= 500
      ensures !edited && disk.Holds? ==> lastData == Some(disk.json)
      ensures !edited && disk.Absent? ==> lastData.None?
      ensures loadRetries <= 3
    {
      assert IsSpaced(writes);
    }

    /** The first load of a layer, whose tree is then what the file made of it. */
    constructor (disk: Disk, tree: Json, now: int)
      ensures Valid() && IsLoaded(Current()) && Current().disk == disk && Current().tree == tree && Current().now == now
    {
      lastData := if disk.Holds? then Some(disk.json) else None;
      pendingWrite, saveActive, saveStarted, saveQueued := None, false, now, false;
      loadActive, loadStarted, loadRetries, dirty := false, now, 0, false;
      this.disk, this.tree, this.now := disk, tree, now;
      writes, notices, edited, touched := [], 0, false, false;
      loaded := if disk.Holds? then Some(disk.json) else None;
    }

    /** A user changed an option or reset it. */
    method UserWrite(tree: Json, matters: bool)
      requires Valid() && IsEnabled(Current(), Event.UserWrite(tree, matters))
      modifies this
      ensures Valid() && Current() == Step(old(Current()), Event.UserWrite(tree, matters))
    {
      StepKeeps(Current(), Event.UserWrite(tree, matters));
      if matters {
        this.tree := tree;
        touched := true;
        MarkDirty();
      }
    }

    /** However often this is called, one flush follows. */
    method MarkDirty()
      modifies `dirty
      ensures dirty
    {
      if dirty {
        return;
      }
      dirty := true;
    }

    method Flush(ok: bool)
      requires Valid()
      modifies this
      ensures Valid() && Current() == Step(old(Current()), Event.Flush(ok))
    {
      StepKeeps(Current(), Event.Flush(ok));
      if !dirty {
        return;
      }
      dirty := false;
      SaveToFile(ok);
    }

    method SaveToFile(ok: bool)
      modifies this
      ensures Current() == Write(old(Current()), old(tree), ok)
    {
      pendingWrite := Some(tree);
      SavePending(ok);
    }

    method SavePending(ok: bool)
      modifies this
      ensures Current() == Save(old(Current()), ok)
    {
      if pendingWrite.None? {
        return;
      }
      if saveActive {
        saveQueued := true;
        return;
      }
      saveActive, saveStarted := true, now;
      var json := pendingWrite.value;
      pendingWrite := None;
      WriteAtomically(json, ok);
    }

    /** The file holds the JSON whole, or nothing happened to it. */
    method WriteAtomically(json: Json, ok: bool)
      modifies this
      ensures Current() == if ok then old(Current()).(disk := Holds(json), lastData := Some(json),
                                                      writes := old(writes) + [now], edited := false)
                           else old(Current())
    {
      if !ok {
        return;
      }
      disk := Holds(json);
      lastData := Some(json);
      writes, edited := writes + [now], false;
    }

    method SaveTimeout(ok: bool)
      requires Valid() && IsEnabled(Current(), Event.SaveTimeout(ok))
      modifies this
      ensures Valid() && Current() == Step(old(Current()), Event.SaveTimeout(ok))
    {
      StepKeeps(Current(), Event.SaveTimeout(ok));
      saveActive := false;
      if saveQueued {
        saveQueued := false;
        SavePending(ok);
      }
    }

    method ScheduleLoad()
      requires Valid()
      modifies this
      ensures Valid() && Current() == Step(old(Current()), Event.WatcherFires)
    {
      StepKeeps(Current(), Event.WatcherFires);
      if loadActive {
        return;
      }
      loadRetries := 0;
      loadActive, loadStarted := true, now;
    }

    method OnLoadDebounced(reloaded: Json)
      requires Valid() && IsEnabled(Current(), Event.LoadTimeout(reloaded))
      modifies this
      ensures Valid() && Current() == Step(old(Current()), Event.LoadTimeout(reloaded))
    {
      hide Load, Retried, Step, Invariant;
      StepKeeps(Current(), Event.LoadTimeout(reloaded));
      TimeoutStep(Current(), reloaded);
      loadActive := false;
      var isFinalTry := loadRetries >= MAX_LOAD_RETRIES;
      var result := LoadFile(reloaded);
      if result.ParseError? && !isFinalTry {
        RetryLoad();
      }
    }

    method RetryLoad()
      modifies this
      ensures Current() == Retried(old(Current()))
    {
      loadRetries := loadRetries + 1;
      loadActive, loadStarted := true, now;
    }

    method LoadFile(reloaded: Json) returns (result: LoadResult)
      modifies this
      ensures Current() == Load(old(Current()), reloaded).0 && result == Load(old(Current()), reloaded).1
      ensures loadRetries == old(loadRetries) && now == old(now)
    {
      if disk.Absent? {
        if lastData.Some? {
          lastData := None;
          ReloadFromFile(reloaded);
          return Changed;
        }
        return Unchanged;
      }
      if disk.Unreadable? {
        return Error;
      }
      if disk.Garbled? {
        return ParseError;
      }
      var json := disk.json;
      if lastData == Some(json) {
        return Unchanged;
      }
      pendingWrite := None;
      lastData := Some(json);
      ReloadFromFile(reloaded);
      return Changed;
    }

    /** Tells of a change, upon which the tree is loaded from the file. */
    method ReloadFromFile(reloaded: Json)
      modifies this
      ensures Current() == Reloaded(old(Current()), reloaded)
    {
      tree := reloaded;
      notices, edited, touched, loaded := notices + 1, false, false, lastData;
    }

    method Elapse(ms: nat)
      requires Valid()
      modifies this
      ensures Valid() && Current() == Step(old(Current()), Event.Elapse(ms))
    {
      StepKeeps(Current(), Event.Elapse(ms));
      now := now + ms;
    }

    method EditExternally(disk: Disk)
      requires Valid()
      modifies this
      ensures Valid() && Current() == Step(old(Current()), Event.ExternalEdit(disk))
    {
      StepKeeps(Current(), Event.ExternalEdit(disk));
      this.disk := disk;
      edited := true;
    }
  }
}
