/** The locker's socket: who is connected, who waits for the lock, and who holds back unlocking
    (locker/main.cpp:20-21, 112-232). Sockets are numbers never used twice. Credentials, what a read yields, whether an
    answer gets out and whether a socket closes at once are step inputs. */
module LockerEndpoint {

  const MAXIMUM_CLIENTS: nat := 16

  type Socket = nat

  /** What the bytes available come to: too many for any request, no line yet, a line with more behind it, or a line. */
  datatype Reading = TooLong | NoLine | Trailing | Line(request: string)

  /** How telling a client that the screen is locked goes: whether the answer got out and its channel was shut, and
      whether the socket, if it is closed, is gone at once. */
  datatype Outcome = Outcome(delivered: bool, closesNow: bool)

  /** What happened to clients: told that the screen is locked, or gone. */
  datatype Sight =
    | Locked(socket: Socket, suspend: bool, delivered: bool, secure: bool)
    | Gone(socket: Socket)

  datatype State = State(
    clients: seq<Socket>, pending: seq<Socket>, suspendHolds: seq<Socket>, secure: bool,
    /** Sockets that are still read, sockets whose request was to suspend, and all sockets there ever were. */
    reading: set<Socket>, suspending: set<Socket>, used: set<Socket>,
    /** What happened so far, and after how much of it the signal came that unlocking is allowed or not any more. */
    history: seq<Sight>, signals: seq<nat>)

  function Without(s: seq<Socket>, x: Socket): (r: seq<Socket>)
    ensures |r| <= |s| && forall y :: y in r <==> y in s && y != x
  {
    if s == [] then [] else (if s[0] == x then [] else [s[0]]) + Without(s[1..], x)
  }

  function Members(s: seq<Socket>): (r: set<Socket>) {
    set x | x in s
  }

  ghost predicate IsDistinct(s: seq<Socket>) {
    forall i, j :: 0 <= i < j < |s| ==> s[i] != s[j]
  }

  lemma {:induction false} WithoutDistinct(s: seq<Socket>, x: Socket)
    requires IsDistinct(s)
    ensures IsDistinct(Without(s, x))
  {
    if s != [] {
      WithoutDistinct(s[1..], x);
      var rest := Without(s[1..], x);
      forall k | 0 <= k < |rest| ensures rest[k] != s[0] {
        assert rest[k] in s[1..];
      }
    }
  }

  // --- What the history says ---

  /** The clients that were told to be safe to suspend and are still connected. */
  function Blocking(history: seq<Sight>): set<Socket> {
    if history == [] then {}
    else
      var before, last := Blocking(history[..|history| - 1]), history[|history| - 1];
      match last
      case Locked(x, suspend, delivered, _) => if suspend && delivered then before + {x} else before
      case Gone(x) => before - {x}
  }

  /** After which happenings unlocking became allowed or not. */
  function FlipsOf(history: seq<Sight>): seq<nat> {
    if history == [] then []
    else
      var front := history[..|history| - 1];
      FlipsOf(front) + if (Blocking(front) == {}) != (Blocking(history) == {}) then [|history|] else []
  }

  /** Every client is told at most once, and only while the screen is secure. */
  ghost predicate AnswersOnce(history: seq<Sight>) {
    && (forall i :: 0 <= i < |history| && history[i].Locked? ==> history[i].secure)
    && (forall i, j :: 0 <= i < j < |history| && history[i].Locked? && history[j].Locked? ==>
          history[i].socket != history[j].socket)
  }

  ghost predicate WasAnswered(history: seq<Sight>, x: Socket) {
    exists i :: 0 <= i < |history| && history[i].Locked? && history[i].socket == x
  }

  // --- The invariant ---

  ghost predicate HasLists(s: State) {
    && |s.clients| <= MAXIMUM_CLIENTS && IsDistinct(s.clients) && IsDistinct(s.pending) && IsDistinct(s.suspendHolds)
    && (forall x :: x in s.pending ==> x in s.clients && x !in s.suspendHolds)
    && (forall x :: x in s.suspendHolds ==> x in s.clients)
  }

  ghost predicate HasHistory(s: State) {
    && Members(s.suspendHolds) == Blocking(s.history) && s.signals == FlipsOf(s.history) && AnswersOnce(s.history)
    && (forall x :: x in s.clients || WasAnswered(s.history, x) ==> x in s.used)
    && (forall x :: x in s.pending || x in s.reading ==> !WasAnswered(s.history, x))
    && (forall x :: x in s.pending ==> x !in s.reading)
  }

  ghost predicate Invariant(s: State) {
    HasLists(s) && HasHistory(s) && (s.secure ==> s.pending == [])
  }

  // --- Steps ---

  /** A client is gone. */
  function Leave(s: State, x: Socket): State {
    var holds := Without(s.suspendHolds, x);
    s.(clients := Without(s.clients, x), pending := Without(s.pending, x), suspendHolds := holds,
       history := s.history + [Gone(x)],
       signals := s.signals + if (s.suspendHolds == []) != (holds == []) then [|s.history| + 1] else [])
  }

  /** A waiting client is told that the screen is locked, and holds back unlocking if it is to suspend and heard it. */
  function Tell(s: State, x: Socket, delivered: bool): State {
    var suspend := x in s.suspending;
    var holds := if suspend && delivered then s.suspendHolds + [x] else s.suspendHolds;
    s.(pending := Without(s.pending, x), suspendHolds := holds,
       history := s.history + [Locked(x, suspend, delivered, s.secure)],
       signals := s.signals + if (s.suspendHolds == []) != (holds == []) then [|s.history| + 1] else [])
  }

  /** A socket is closed, and is gone at once or later. */
  function Closed(s: State, x: Socket, closesNow: bool): State {
    if closesNow && x in s.clients then Leave(s, x) else s
  }

  /** Who is to suspend keeps its connection, if it heard; everybody else is told and closed. */
  function TellTo(s: State, x: Socket, outcome: Outcome): State {
    var told := Tell(s, x, outcome.delivered);
    if x in s.suspending && outcome.delivered then told else Closed(told, x, outcome.closesNow)
  }

  function TellAll(s: State, waiting: seq<Socket>, outcomes: map<Socket, Outcome>): State
    requires forall x :: x in waiting ==> x in outcomes
    decreases |waiting|
  {
    if waiting == [] then s else TellAll(TellTo(s, waiting[0], outcomes[waiting[0]]), waiting[1..], outcomes)
  }

  function Secured(s: State, secure: bool, outcomes: map<Socket, Outcome>): State
    requires forall x :: x in s.pending ==> x in outcomes
  {
    if s.secure == secure then s
    else if secure then TellAll(s.(secure := true), s.pending, outcomes)
    else s.(secure := false)
  }

  /** What a reading of a client's bytes does. A client has one request, and is not read after it. */
  function Read(s: State, x: Socket, input: Reading, closesNow: bool, outcome: Outcome): State {
    match input
    case NoLine => s
    case TooLong => Closed(s, x, closesNow)
    case Trailing => Closed(s, x, closesNow)
    case Line(request) =>
      if request == "lock\n" || request == "suspend\n" then
        var asked := Ask(s, x, request == "suspend\n");
        if s.secure then TellTo(asked, x, outcome) else asked
      else Closed(s.(reading := s.reading - {x}), x, closesNow)
  }

  /** What is answered at once; who asks to lock or to suspend is told when the screen is locked. */
  function ReplyTo(input: Reading, secure: bool): string {
    match input
    case Trailing => "error\n"
    case Line(request) =>
      if request == "status\n" then if secure then "locked\n" else "unlocked\n"
      else if request == "lock\n" || request == "suspend\n" then "" else "error\n"
    case _ => ""
  }

  lemma HoldsNothing(s: seq<Socket>)
    ensures s == [] <==> Members(s) == {}
  {
    if s != [] {
      assert s[0] in Members(s);
    }
  }

  lemma LeaveKeeps(s: State, x: Socket)
    requires HasLists(s) && HasHistory(s)
    ensures HasLists(Leave(s, x)) && HasHistory(Leave(s, x))
  {
    WithoutDistinct(s.clients, x);
    WithoutDistinct(s.pending, x);
    WithoutDistinct(s.suspendHolds, x);
    var t := Leave(s, x);
    assert t.history[..|t.history| - 1] == s.history;
    assert Members(t.suspendHolds) == Members(s.suspendHolds) - {x};
    HoldsNothing(s.suspendHolds);
    HoldsNothing(t.suspendHolds);
    forall y ensures WasAnswered(t.history, y) <==> WasAnswered(s.history, y) {
      AnsweredMore(s.history, Gone(x), y);
    }
  }

  lemma AnsweredMore(history: seq<Sight>, sight: Sight, y: Socket)
    ensures WasAnswered(history + [sight], y) <==> WasAnswered(history, y) || (sight.Locked? && sight.socket == y)
  {
    var t := history + [sight];
    if WasAnswered(history, y) {
      var i :| 0 <= i < |history| && history[i].Locked? && history[i].socket == y;
      assert t[i] == history[i];
    }
    if sight.Locked? && sight.socket == y {
      assert t[|history|] == sight;
    }
  }

  lemma TellKeeps(s: State, x: Socket, delivered: bool)
    requires HasLists(s) && HasHistory(s) && s.secure && x in s.pending
    ensures HasLists(Tell(s, x, delivered)) && HasHistory(Tell(s, x, delivered))
  {
    WithoutDistinct(s.pending, x);
    TellKeepsAnswers(s, x, delivered);
    var t := Tell(s, x, delivered);
    assert t.history[..|t.history| - 1] == s.history;
    assert Members(t.suspendHolds) == Members(s.suspendHolds) + if x in s.suspending && delivered then {x} else {};
    HoldsNothing(s.suspendHolds);
    HoldsNothing(t.suspendHolds);
    hide AnswersOnce, WasAnswered, IsDistinct;
    assert HasHistory(t);
  }

  lemma TellKeepsAnswers(s: State, x: Socket, delivered: bool)
    requires s.secure && AnswersOnce(s.history) && !WasAnswered(s.history, x)
    ensures var t := Tell(s, x, delivered);
      AnswersOnce(t.history) && forall y :: WasAnswered(t.history, y) <==> WasAnswered(s.history, y) || y == x
  {
    var sight := Locked(x, x in s.suspending, delivered, true);
    forall y ensures WasAnswered(s.history + [sight], y) <==> WasAnswered(s.history, y) || y == x {
      AnsweredMore(s.history, sight, y);
    }
    forall i | 0 <= i < |s.history| && s.history[i].Locked? ensures s.history[i].socket != x {
      assert !WasAnswered(s.history, x);
    }
  }

  lemma TellToKeeps(s: State, x: Socket, outcome: Outcome)
    requires HasLists(s) && HasHistory(s) && s.secure && x in s.pending
    ensures var t := TellTo(s, x, outcome);
      && HasLists(t) && HasHistory(t) && t.secure && t.pending == Without(s.pending, x) && t.reading == s.reading
      && t.used == s.used
      && s.history <= t.history && WasAnswered(t.history, x)
  {
    hide HasHistory, HasLists;
    var sight := Locked(x, x in s.suspending, outcome.delivered, true);
    TellKeeps(s, x, outcome.delivered);
    LeaveKeeps(Tell(s, x, outcome.delivered), x);
    AnsweredMore(s.history, sight, x);
    AnsweredMore(s.history + [sight], Gone(x), x);
    WithoutAgain(s.pending, x);
  }

  lemma {:induction false} BlockingWereAnswered(history: seq<Sight>, x: Socket)
    requires x in Blocking(history)
    ensures WasAnswered(history, x)
  {
    var front, last := history[..|history| - 1], history[|history| - 1];
    assert history == front + [last];
    AnsweredMore(front, last, x);
    if x in Blocking(front) {
      BlockingWereAnswered(front, x);
    }
  }

  /** A request to lock or to suspend. */
  function Ask(s: State, x: Socket, suspend: bool): State {
    s.(pending := s.pending + [x], reading := s.reading - {x},
       suspending := if suspend then s.suspending + {x} else s.suspending - {x})
  }

  lemma AskKeeps(s: State, x: Socket, suspend: bool)
    requires HasLists(s) && HasHistory(s) && x in s.clients && x in s.reading
    ensures HasLists(Ask(s, x, suspend)) && HasHistory(Ask(s, x, suspend))
  {
    if x in s.suspendHolds {
      assert x in Members(s.suspendHolds);
      BlockingWereAnswered(s.history, x);
    }
  }

  function Connect(s: State, x: Socket): State {
    s.(clients := s.clients + [x], reading := s.reading + {x}, used := s.used + {x})
  }

  lemma ConnectKeeps(s: State, x: Socket)
    requires Invariant(s) && x !in s.used && |s.clients| < MAXIMUM_CLIENTS
    ensures Invariant(Connect(s, x))
  {
  }

  ghost predicate AllLaterDistinct(s: seq<Socket>) {
    forall i :: 0 <= i < |s| ==> IsDistinct(s[i..])
  }

  lemma WithoutFirst(s: seq<Socket>)
    requires s != [] && IsDistinct(s)
    ensures Without(s, s[0]) == s[1..]
  {
    WithoutNone(s[1..], s[0]);
  }

  lemma {:induction false} WithoutNone(s: seq<Socket>, x: Socket)
    requires x !in s
    ensures Without(s, x) == s
  {
    if s != [] {
      WithoutNone(s[1..], x);
    }
  }

  lemma WithoutAgain(s: seq<Socket>, x: Socket)
    ensures Without(Without(s, x), x) == Without(s, x)
  {
    WithoutNone(Without(s, x), x);
  }

  lemma StillAnswered(before: seq<Sight>, history: seq<Sight>, x: Socket)
    requires before <= history && WasAnswered(before, x)
    ensures WasAnswered(history, x)
  {
  }

  class Endpoint {
    var clients: seq<Socket>
    var pending: seq<Socket>
    var suspendHolds: seq<Socket>
    var secure: bool
    /** Sockets whose readyRead is connected, and those whose request was to suspend. */
    var reading: set<Socket>
    var suspending: set<Socket>
    ghost var used: set<Socket>
    ghost var history: seq<Sight>
    ghost var signals: seq<nat>

    ghost function Current(): State
      reads this
    {
      State(clients, pending, suspendHolds, secure, reading, suspending, used, history, signals)
    }

    ghost predicate Valid()
      reads this
    {
      Invariant(Current())
    }

    constructor ()
      ensures Valid() && clients == [] && !secure && history == [] && signals == []
    {
      clients, pending, suspendHolds, secure := [], [], [], false;
      reading, suspending, used, history, signals := {}, {}, {}, [], [];
    }

    predicate UnlockAllowed()
      reads this
    {
      suspendHolds == []
    }

    /** In every state between events: at most sixteen clients, whoever waits or holds is one of them and not both,
        nobody waits while the screen is secure, and unlocking is allowed unless a client that was told to be safe to
        suspend is connected. */
    lemma ValidMeans()
      requires Valid()
      ensures |clients| <= 16 && (secure ==> pending == [])
      ensures forall x :: x in pending ==> x in clients && x !in suspendHolds
      ensures forall x :: x in suspendHolds ==> x in clients
      ensures UnlockAllowed() <==> Blocking(history) == {}
      ensures signals == FlipsOf(history) && AnswersOnce(history)
    {
      HoldsNothing(suspendHolds);
    }

    /** A client is gone: it no longer waits for anything or holds anything back. */
    method OnDisconnected(x: Socket)
      requires HasLists(Current()) && HasHistory(Current())
      modifies this
      ensures Current() == Leave(old(Current()), x) && HasLists(Current()) && HasHistory(Current())
      ensures old(Valid()) ==> Valid()
    {
      hide HasHistory, HasLists;
      LeaveKeeps(Current(), x);
      var wasAllowed := UnlockAllowed();
      clients := Without(clients, x);
      pending := Without(pending, x);
      suspendHolds := Without(suspendHolds, x);
      history := history + [Gone(x)];
      if wasAllowed != UnlockAllowed() {
        signals := signals + [|history|];
      }
    }

    /** Closes a socket, which may be gone at once or later. */
    method DisconnectFromServer(x: Socket, closesNow: bool)
      requires HasLists(Current()) && HasHistory(Current())
      modifies this
      ensures HasLists(Current()) && HasHistory(Current())
      ensures Current() == Closed(old(Current()), x, closesNow)
      ensures secure == old(secure) && old(history) <= history && (old(Valid()) ==> Valid())
    {
      if closesNow && x in clients {
        OnDisconnected(x);
      }
    }

    /** Tells one of those waiting. Who is to suspend keeps its connection, if it heard, and holds back unlocking. */
    method TellOne(x: Socket, outcome: Outcome)
      requires HasLists(Current()) && HasHistory(Current()) && secure && x in pending
      modifies this
      ensures HasLists(Current()) && HasHistory(Current())
      ensures Current() == TellTo(old(Current()), x, outcome)
      ensures pending == Without(old(pending), x) && secure && reading == old(reading) && used == old(used)
      ensures old(history) <= history && WasAnswered(history, x)
    {
      hide HasHistory, HasLists, Leave, WasAnswered;
      ghost var was := Current();
      TellKeeps(was, x, outcome.delivered);
      TellToKeeps(was, x, outcome);
      pending := Without(pending, x);
      var suspend := x in suspending;
      history := history + [Locked(x, suspend, outcome.delivered, secure)];
      if suspend {
        if !outcome.delivered {
          assert signals + [] == signals;
          DisconnectFromServer(x, outcome.closesNow);
          return;
        }
        var wasAllowed := UnlockAllowed();
        suspendHolds := suspendHolds + [x];
        if wasAllowed != UnlockAllowed() {
          signals := signals + [|history|];
        }
        assert signals == Tell(was, x, true).signals;
      } else {
        assert signals + [] == signals;
        DisconnectFromServer(x, outcome.closesNow);
      }
    }

    lemma PendingDistinct()
      requires HasLists(Current())
      ensures AllLaterDistinct(pending)
    {
    }

    /** Tells everybody waiting that the screen is locked. */
    method AcknowledgePending(outcomes: map<Socket, Outcome>)
      requires HasLists(Current()) && HasHistory(Current()) && secure
      requires forall x :: x in pending ==> x in outcomes
      modifies this
      ensures Valid() && Current() == TellAll(old(Current()), old(pending), outcomes)
      ensures secure && pending == [] && old(history) <= history && reading == old(reading) && used == old(used)
      ensures forall x :: x in old(pending) ==> WasAnswered(history, x)
    {
      hide HasHistory, HasLists, TellTo;
      ghost var was, start := history, Current();
      PendingDistinct();
      var waiting := pending;
      assert waiting[0..] == waiting;
      for i := 0 to |waiting|
        invariant HasLists(Current()) && HasHistory(Current()) && secure && was <= history
        invariant reading == old(reading) && used == old(used) && pending == waiting[i..]
        invariant TellAll(Current(), waiting[i..], outcomes) == TellAll(start, waiting, outcomes)
        invariant forall k :: 0 <= k < i ==> WasAnswered(history, waiting[k])
      {
        ghost var before := history;
        WithoutFirst(waiting[i..]);
        assert waiting[i..][1..] == waiting[i + 1..];
        TellOne(waiting[i], outcomes[waiting[i]]);
        forall k | 0 <= k < i ensures WasAnswered(history, waiting[k]) {
          StillAnswered(before, history, waiting[k]);
        }
      }
    }

    /** The screen becomes secure, or no longer is. */
    method SetSecure(secure: bool, outcomes: map<Socket, Outcome>)
      requires Valid() && forall x :: x in pending ==> x in outcomes
      modifies this
      ensures Valid() && Current() == Secured(old(Current()), secure, outcomes)
      ensures this.secure == secure && old(history) <= history && used == old(used)
      ensures secure && !old(this.secure) ==> forall x :: x in old(pending) ==> WasAnswered(history, x)
    {
      hide HasHistory, HasLists;
      if this.secure == secure {
        return;
      }
      SecureChanges(Current(), secure);
      this.secure := secure;
      if this.secure {
        AcknowledgePending(outcomes);
      }
    }

    /** Somebody connects: strangers and those above the limit are turned away. */
    method AcceptConnection(x: Socket, isCurrentUser: bool, input: Reading, closesNow: bool, outcome: Outcome)
      returns (reply: string)
      requires Valid() && x !in used
      modifies this
      ensures Valid() && secure == old(secure) && old(history) <= history
      ensures if isCurrentUser && |old(clients)| < 16
        then Current() == Read(Connect(old(Current()), x), x, input, closesNow, outcome)
        && reply == ReplyTo(input, secure)
        else Current() == old(Current()).(used := old(used) + {x}) && reply == ""
    {
      hide HasHistory, HasLists, Connect;
      if !isCurrentUser || |clients| >= MAXIMUM_CLIENTS {
        UseKeeps(Current(), x);
        used := used + {x};
        return "";
      }
      ConnectKeeps(Current(), x);
      ConnectParts(Current(), x);
      clients := clients + [x];
      reading := reading + {x};
      used := used + {x};
      reply := ReadRequest(x, input, closesNow, outcome);
    }

    /** Bytes are there to read. A client has one request: once it is accepted, nothing more is read. */
    method ReadRequest(x: Socket, input: Reading, closesNow: bool, outcome: Outcome) returns (reply: string)
      requires Valid() && x in clients && x in reading
      modifies this
      ensures Valid() && secure == old(secure) && old(history) <= history
      ensures Current() == Read(old(Current()), x, input, closesNow, outcome) && reply == ReplyTo(input, secure)
    {
      hide HasHistory, HasLists, Leave, TellTo;
      if input.TooLong? {
        DisconnectFromServer(x, closesNow);
        return "";
      }
      if input.NoLine? {
        return "";
      }
      if input.Trailing? {
        DisconnectFromServer(x, closesNow);
        return "error\n";
      }
      var request := input.request;
      if request == "status\n" {
        StopReadingKeeps(Current(), x);
        reading := reading - {x};
        DisconnectFromServer(x, closesNow);
        return if secure then "locked\n" else "unlocked\n";
      }
      if request != "lock\n" && request != "suspend\n" {
        StopReadingKeeps(Current(), x);
        reading := reading - {x};
        DisconnectFromServer(x, closesNow);
        return "error\n";
      }
      AskKeeps(Current(), x, request == "suspend\n");
      reading := reading - {x};
      suspending := if request == "suspend\n" then suspending + {x} else suspending - {x};
      pending := pending + [x];
      if secure {
        AcknowledgePending(map[x := outcome]);
      }
      return "";
    }

    /** Two seconds after a client connected: it goes unless its request was read. */
    method RequestTimeout(x: Socket, closesNow: bool)
      requires Valid()
      modifies this
      ensures Valid() && Current() == if x in old(reading) then Closed(old(Current()), x, closesNow) else old(Current())
    {
      if x in reading {
        DisconnectFromServer(x, closesNow);
      }
    }

    /** Five seconds after a client asked to lock or suspend: it goes if it still waits. */
    method AnswerTimeout(x: Socket, closesNow: bool)
      requires Valid()
      modifies this
      ensures Valid() && Current() == if x in old(pending) then Closed(old(Current()), x, closesNow) else old(Current())
    {
      if x in pending {
        DisconnectFromServer(x, closesNow);
      }
    }
  }

  /** The guarantees that a reading gives to the client and takes from nobody else. */
  lemma ReadAnswers(s: State, x: Socket, input: Reading, closesNow: bool, outcome: Outcome, y: Socket)
    requires Invariant(s) && x in s.clients && x in s.reading
    ensures var t, asks := Read(s, x, input, closesNow, outcome), input == Line("lock\n") || input == Line("suspend\n");
      && (WasAnswered(t.history, y) <==> WasAnswered(s.history, y) || (y == x && asks && s.secure))
      && (x in t.pending <==> asks && !s.secure)
      && (y != x ==> (y in t.pending <==> y in s.pending) && (y in t.clients <==> y in s.clients)
                     && (y in t.suspendHolds <==> y in s.suspendHolds))
  {
    hide HasLists, Blocking, FlipsOf, AnswersOnce, WasAnswered;
    AnsweredMore(s.history, Gone(x), y);
    var sight := Locked(x, input == Line("suspend\n"), outcome.delivered, s.secure);
    AnsweredMore(s.history, sight, y);
    AnsweredMore(s.history + [sight], Gone(x), y);
  }

  /** The answers: whether the screen is locked to who asks for the status, an error to anything unknown and to
      whoever sends more than a line, and nothing yet to who asks to lock or suspend, to half a line and to too many
      bytes. */
  lemma Replies(secure: bool, request: string)
    ensures ReplyTo(Line("status\n"), secure) == if secure then "locked\n" else "unlocked\n"
    ensures ReplyTo(Line("lock\n"), secure) == ReplyTo(Line("suspend\n"), secure) == ""
    ensures request != "status\n" && request != "lock\n" && request != "suspend\n" ==>
      ReplyTo(Line(request), secure) == "error\n"
    ensures ReplyTo(Trailing, secure) == "error\n" && ReplyTo(NoLine, secure) == ReplyTo(TooLong, secure) == ""
  {
  }

  /** Who asks to suspend while the screen is locked keeps its connection and holds back unlocking, if it hears the
      answer; who asks to lock never does. While it is not locked, the kind of request is remembered. */
  lemma ReadHolds(s: State, x: Socket, closesNow: bool, outcome: Outcome)
    requires Invariant(s) && x in s.clients && x in s.reading
    ensures var t := Read(s, x, Line("suspend\n"), closesNow, outcome);
      if !s.secure then x in t.pending && x in t.suspending && x in t.clients
      else (x in t.suspendHolds <==> outcome.delivered) && (outcome.delivered || !outcome.closesNow <==> x in t.clients)
    ensures var t := Read(s, x, Line("lock\n"), closesNow, outcome);
      if !s.secure then x in t.pending && x !in t.suspending && x in t.clients
      else x !in t.suspendHolds && (x in t.clients <==> !outcome.closesNow)
  {
    hide Blocking, FlipsOf, AnswersOnce;
    if x in s.suspendHolds {
      assert x in Members(s.suspendHolds);
      BlockingWereAnswered(s.history, x);
    }
  }

  /** Any other request ends the connection, half a line changes nothing. */
  lemma ReadCloses(s: State, x: Socket, input: Reading, outcome: Outcome)
    requires x in s.clients && input != Line("lock\n") && input != Line("suspend\n")
    ensures input.NoLine? ==> Read(s, x, input, true, outcome) == s
    ensures !input.NoLine? ==> x !in Read(s, x, input, true, outcome).clients
    ensures input.Line? ==> x !in Read(s, x, input, false, outcome).reading
  {
  }

  /** When the screen becomes locked, those hold back unlocking that asked to suspend and hear the answer. */
  lemma {:induction false} ToldHold(s: State, waiting: seq<Socket>, outcomes: map<Socket, Outcome>, x: Socket)
    requires (forall y :: y in waiting ==> y in outcomes) && IsDistinct(waiting) && x in waiting
    requires x !in s.suspendHolds
    ensures var t := TellAll(s, waiting, outcomes);
      x in t.suspendHolds <==> x in s.suspending && outcomes[x].delivered
    decreases |waiting|
  {
    var first := TellTo(s, waiting[0], outcomes[waiting[0]]);
    if x == waiting[0] {
      HoldsStay(first, waiting[1..], outcomes, x);
    } else {
      ToldHold(first, waiting[1..], outcomes, x);
    }
  }

  lemma {:induction false} HoldsStay(s: State, waiting: seq<Socket>, outcomes: map<Socket, Outcome>, x: Socket)
    requires (forall y :: y in waiting ==> y in outcomes) && x !in waiting
    ensures x in TellAll(s, waiting, outcomes).suspendHolds <==> x in s.suspendHolds
    decreases |waiting|
  {
    if waiting != [] {
      HoldsStay(TellTo(s, waiting[0], outcomes[waiting[0]]), waiting[1..], outcomes, x);
    }
  }

  lemma SecuredHolds(s: State, outcomes: map<Socket, Outcome>, x: Socket)
    requires Invariant(s) && !s.secure && x in s.pending && forall y :: y in s.pending ==> y in outcomes
    ensures x in Secured(s, true, outcomes).suspendHolds <==> x in s.suspending && outcomes[x].delivered
  {
    hide Blocking, FlipsOf, AnswersOnce;
    ToldHold(s.(secure := true), s.pending, outcomes, x);
  }

  /** A client holds back unlocking exactly if it asked to suspend, heard that the screen is locked, and is not gone
      since. */
  lemma {:induction false} BlockingAre(history: seq<Sight>, x: Socket)
    ensures x in Blocking(history) <==>
      exists i {:trigger history[i]} :: 0 <= i < |history| && HoldsBack(history[i], x)
        && forall k :: i < k < |history| ==> history[k] != Gone(x)
  {
    if history != [] {
      var n := |history| - 1;
      BlockingAre(history[..n], x);
      if i :| 0 <= i < n && HoldsBack(history[..n][i], x) && forall k :: i < k < n ==> history[..n][k] != Gone(x) {
        assert history[..n][i] == history[i];
        assert history[n] != Gone(x) ==> forall k :: i < k < |history| ==> history[k] != Gone(x);
      }
      if i :| 0 <= i < n && HoldsBack(history[i], x) && forall k :: i < k < |history| ==> history[k] != Gone(x) {
        assert history[..n][i] == history[i];
      }
    }
  }

  predicate HoldsBack(sight: Sight, x: Socket) {
    sight.Locked? && sight.socket == x && sight.suspend && sight.delivered
  }

  /** The signal comes exactly after those happenings that make unlocking allowed or not any more. */
  lemma {:induction false} FlipsAre(history: seq<Sight>, n: nat)
    ensures n in FlipsOf(history) <==>
      0 < n <= |history| && (Blocking(history[..n - 1]) == {}) != (Blocking(history[..n]) == {})
  {
    if history != [] {
      var front := history[..|history| - 1];
      FlipsAre(front, n);
      if 0 < n < |history| {
        assert front[..n] == history[..n] && front[..n - 1] == history[..n - 1];
      }
      assert history[..|history|] == history;
    }
  }

  lemma SecureChanges(s: State, secure: bool)
    requires Invariant(s)
    ensures HasLists(s.(secure := secure)) && HasHistory(s.(secure := secure))
  {
  }

  lemma UseKeeps(s: State, x: Socket)
    requires Invariant(s)
    ensures Invariant(s.(used := s.used + {x}))
  {
  }

  lemma ConnectParts(s: State, x: Socket)
    ensures Connect(s, x) == s.(clients := s.clients + [x], reading := s.reading + {x}, used := s.used + {x})
  {
  }

  lemma StopReadingKeeps(s: State, x: Socket)
    requires Invariant(s)
    ensures Invariant(s.(reading := s.reading - {x}))
  {
  }
}
