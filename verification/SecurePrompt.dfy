/** The password prompt around the locked buffer (locker/secureprompt.cpp:430-472, 510-575). The authenticator and the
    clock are step inputs: `now` is the time an attempt starts, `after` the time the authenticator comes back. */
module SecurePrompt {
  import opened Utf8
  import opened SecretBuffer

  datatype AuthState = Idle | Authenticating | Accepted | Rejected | Failed

  /** What the authenticator does: it decides, or it throws. */
  datatype Outcome = Accepts | Rejects | Throws

  /** One call of the authenticator. */
  datatype Call = Call(secret: seq<int>, started: int, ended: int, outcome: Outcome)

  /** How many calls were rejected since the last accepted one; a call that throws changes nothing. */
  function Streak(log: seq<Call>): nat {
    if log == [] then 0
    else
      var last := |log| - 1;
      match log[last].outcome
      case Accepts => 0
      case Rejects => Streak(log[..last]) + 1
      case Throws => Streak(log[..last])
  }

  function Pow2(n: nat): nat {
    if n == 0 then 1 else 2 * Pow2(n - 1)
  }

  function Min(a: int, b: int): int {
    if a < b then a else b
  }

  /** The pause after the n-th rejection in a row, in milliseconds. */
  function Delay(n: nat): int {
    Min(8000, 250 * Pow2(if n < 5 then n else 5))
  }

  /** The time before which the last rejection still holds back attempts; an accepted call lifts it. */
  function RetryAfter(log: seq<Call>): int {
    if log == [] then 0
    else
      var last := |log| - 1;
      match log[last].outcome
      case Accepts => 0
      case Rejects => log[last].ended + Delay(Streak(log))
      case Throws => RetryAfter(log[..last])
  }

  /** What a call does to what is held back: an accepted one ends it, a rejected one holds for 500 ms, and for twice
      as long each further time up to 8 seconds, and one that throws changes nothing. */
  lemma HeldBack(log: seq<Call>, call: Call)
    ensures Streak([]) == 0 && RetryAfter([]) == 0
    ensures var (longer, n) := (log + [call], Streak(log));
      match call.outcome
      case Accepts => Streak(longer) == 0 && RetryAfter(longer) == 0
      case Rejects =>
        Streak(longer) == n + 1 && RetryAfter(longer)
        == call.ended + [500, 1000, 2000, 4000, 8000][if n < 4 then n else 4]
      case Throws => Streak(longer) == n && RetryAfter(longer) == RetryAfter(log)
  {
    assert (log + [call])[..|log|] == log;
    assert Pow2(1) == 2 && Pow2(2) == 4 && Pow2(3) == 8 && Pow2(4) == 16 && Pow2(5) == 32;
  }

  /** When a rejection stops holding back attempts. */
  function HeldUntil(log: seq<Call>, i: nat): int
    requires i < |log|
  {
    log[i].ended + Delay(Streak(log[..i + 1]))
  }

  /** No call starts before the pause after any earlier rejection is over. */
  ghost predicate IsSpaced(log: seq<Call>) {
    forall i, j :: 0 <= i < j < |log| && log[i].outcome.Rejects? ==> HeldUntil(log, i) <= log[j].started
  }

  /** The pause after every rejection ends by the retry time or has ended by `clock`. */
  ghost predicate IsHeld(log: seq<Call>, clock: int) {
    forall i :: 0 <= i < |log| && log[i].outcome.Rejects? ==>
      HeldUntil(log, i) <= RetryAfter(log) || HeldUntil(log, i) <= clock
  }

  /** A call made once the retry time has passed keeps the calls spaced. */
  lemma CallKeepsSpacing(log: seq<Call>, clock: int, call: Call)
    requires IsSpaced(log) && IsHeld(log, clock)
    requires clock <= call.started && RetryAfter(log) <= call.started <= call.ended
    ensures IsSpaced(log + [call]) && IsHeld(log + [call], call.ended)
  {
    hide Streak, Delay, HeldUntil;
    var longer := log + [call];
    forall i | 0 <= i < |log| && log[i].outcome.Rejects?
      ensures HeldUntil(longer, i) == HeldUntil(log, i) <= call.started
    {
      LongerLog(log, call, i);
    }
    forall i, j | 0 <= i < j < |longer| && longer[i].outcome.Rejects?
      ensures HeldUntil(longer, i) <= longer[j].started
    {
      assert j < |log| ==> HeldUntil(log, i) <= log[j].started;
    }
    NewestCall(log, call);
  }

  lemma LongerLog(log: seq<Call>, call: Call, i: nat)
    requires i < |log|
    ensures HeldUntil(log + [call], i) == HeldUntil(log, i)
  {
    assert (log + [call])[..i + 1] == log[..i + 1];
  }

  lemma NewestCall(log: seq<Call>, call: Call)
    ensures call.outcome.Rejects? ==> HeldUntil(log + [call], |log|) == RetryAfter(log + [call])
  {
    assert (log + [call])[..|log| + 1] == log + [call];
  }

  /** The n-th rejection in a row holds off every later call for the pause of n rejections, whatever happens in
      between; five rejections or more make it eight seconds. */
  lemma PauseIsKept(log: seq<Call>, i: nat, j: nat)
    requires IsSpaced(log) && i < j < |log| && log[i].outcome.Rejects?
    ensures var n := Streak(log[..i + 1]);
      && n >= 1 && log[j].started >= log[i].ended + Delay(n)
      && Delay(n) == [500, 1000, 2000, 4000, 8000][if n < 5 then n - 1 else 4]
  {
    assert HeldUntil(log, i) <= log[j].started;
    assert log[..i + 1][..i] == log[..i];
    var n := Streak(log[..i + 1]);
    assert Pow2(1) == 2 && Pow2(2) == 4 && Pow2(3) == 8 && Pow2(4) == 16 && Pow2(5) == 32;
  }

  /** The fields that hold back attempts agree with the calls made so far, which are spaced. */
  ghost predicate IsPaced(log: seq<Call>, clock: int, retryAfterMs: int, failureCount: int) {
    && retryAfterMs == RetryAfter(log) && failureCount == Min(Streak(log), 5)
    && IsSpaced(log) && IsHeld(log, clock)
  }

  /** How an attempt that reaches the authenticator updates the fields. */
  lemma CallIsPaced(log: seq<Call>, clock: int, retryAfterMs: int, failureCount: int, call: Call)
    requires IsPaced(log, clock, retryAfterMs, failureCount)
    requires clock <= call.started && retryAfterMs <= call.started <= call.ended
    ensures match call.outcome
      case Accepts => IsPaced(log + [call], call.ended, 0, 0)
      case Rejects =>
        var count := Min(failureCount + 1, 5);
        IsPaced(log + [call], call.ended, call.ended + Min(8000, 250 * Pow2(count)), count)
      case Throws => IsPaced(log + [call], call.ended, retryAfterMs, failureCount)
  {
    hide IsSpaced, IsHeld;
    CallKeepsSpacing(log, clock, call);
    assert (log + [call])[..|log|] == log;
  }

  lemma TimePassesPaced(log: seq<Call>, clock: int, retryAfterMs: int, failureCount: int, now: int)
    requires IsPaced(log, clock, retryAfterMs, failureCount) && clock <= now
    ensures IsPaced(log, now, retryAfterMs, failureCount) && retryAfterMs == RetryAfter(log)
  {
  }

  function DropLast(s: seq<int>): seq<int> {
    if s == [] then [] else s[..|s| - 1]
  }

  datatype Key = Enter | Backspace | Escape | Text(text: seq<int>, modified: bool)

  class Prompt {
    const secret: LockedSecretBuffer
    var retryAfterMs: int
    var failureCount: nat
    var inputLength: int
    var authState: AuthState
    /** The calls of the authenticator so far, and the latest time seen. */
    ghost var log: seq<Call>
    ghost var clock: int

    ghost predicate Valid()
      reads this, secret, secret.bytes
    {
      && secret.Valid() && inputLength == |secret.content| && authState != Authenticating
      && IsPaced(log, clock, retryAfterMs, failureCount)
    }

    ghost function Repr(): set<object> {
      {this, secret, secret.bytes}
    }

    constructor (now: int)
      ensures Valid() && secret.content == [] && log == [] && clock == now && authState == Idle
      ensures fresh(secret) && fresh(secret.bytes)
    {
      secret := new LockedSecretBuffer();
      retryAfterMs, failureCount, inputLength, authState, log, clock := 0, 0, 0, Idle, [], now;
    }

    /** The buffer is wiped whole and nothing is left to show. */
    ghost predicate IsWiped()
      reads this, secret, secret.bytes
    {
      secret.content == [] && secret.bytes[..] == Zeros(CAPACITY) && inputLength == 0
    }

    method ClearSecret()
      requires Valid()
      modifies Repr()
      ensures Valid() && IsWiped() && authState == old(authState) && log == old(log) && clock == old(clock)
    {
      secret.Clear();
      if inputLength != 0 {
        inputLength := 0;
      }
    }

    /** An attempt: refused without a password or too early, otherwise decided by the authenticator. */
    method Authenticate(now: int, outcome: Outcome, after: int) returns (accepted: bool)
      requires Valid() && clock <= now <= after
      modifies Repr()
      ensures Valid() && IsWiped()
      ensures var called := old(secret.content) != [] && now >= old(RetryAfter(log));
        && log == old(log) + (if called then [Call(EncodeAll(old(secret.content)), now, after, outcome)] else [])
        && clock == (if called then after else now)
        && accepted == (called && outcome.Accepts?)
        && authState == if called && outcome.Accepts? then Accepted
                        else if called && outcome.Throws? then Failed else Rejected
    {
      hide IsPaced, Zeros, Represents, RetryAfter, Pow2;
      EmptyText(secret.bytes[..], secret.size, secret.codePoints, secret.utf16Units, secret.content);
      TimePassesPaced(log, clock, retryAfterMs, failureCount, now);
      if secret.size == 0 {
        clock := now;
        ClearSecret();
        authState := Rejected;
        return false;
      }
      if now < retryAfterMs {
        clock := now;
        ClearSecret();
        authState := Rejected;
        return false;
      }
      ghost var call := Call(secret.bytes[..secret.size], now, after, outcome);
      CallIsPaced(log, clock, retryAfterMs, failureCount, call);
      secret.Clear();
      inputLength := 0;
      log, clock := log + [call], after;
      if outcome.Throws? {
        authState := Failed;
        return false;
      }
      accepted := outcome.Accepts?;
      authState := if accepted then Accepted else Rejected;
      if accepted {
        failureCount, retryAfterMs := 0, 0;
      } else {
        failureCount := Min(failureCount + 1, 5);
        retryAfterMs := after + Min(8000, 250 * Pow2(failureCount));
      }
    }

    /** Typed or pasted text goes to the end, as far as it fits. */
    method AppendText(text: seq<int>)
      requires Valid() && AllUnits(text)
      modifies Repr()
      ensures Valid() && log == old(log) && clock == old(clock)
      ensures secret.content == old(secret.content) + FitPrefix(Scalars(text), CAPACITY - old(secret.size))
      ensures authState == if |secret.content| != old(|secret.content|) then Idle else old(authState)
    {
      hide IsPaced;
      var previous := secret.codePoints;
      secret.Append(text);
      inputLength := secret.codePoints;
      if inputLength != previous {
        authState := Idle;
      }
    }

    method RemoveLastCodePoint()
      requires Valid()
      modifies Repr()
      ensures Valid() && log == old(log) && clock == old(clock)
      ensures secret.content == old(DropLast(secret.content))
      ensures authState == if old(secret.content) != [] then Idle else old(authState)
    {
      hide IsPaced;
      var previous := inputLength;
      secret.RemoveLast();
      inputLength := secret.codePoints;
      if inputLength != previous {
        authState := Idle;
      }
    }

    /** Text committed by an input method, replacing a range counted back from the end. */
    method InputMethod(start: int, length: int, commit: seq<int>)
      requires Valid() && AllUnits(commit)
      modifies Repr()
      ensures Valid() && log == old(log) && clock == old(clock)
      ensures secret.content ==
        if (commit != [] || length != 0) && old(CanReplace(secret.content, start, length))
        then old(Replaced(secret.content, start, length, commit)) else old(secret.content)
      ensures authState == if |secret.content| != old(|secret.content|) then Idle else old(authState)
    {
      hide IsPaced, CanReplace;
      if commit != [] || length != 0 {
        var previous := secret.codePoints;
        var replaced := secret.Replace(start, length, commit);
        if replaced {
          inputLength := secret.codePoints;
          if inputLength != previous {
            authState := Idle;
          }
        }
      }
    }

    method KeyPress(key: Key, now: int, outcome: Outcome, after: int)
      requires Valid() && clock <= now <= after && (key.Text? ==> AllUnits(key.text))
      modifies Repr()
      ensures Valid() && clock >= old(clock)
      ensures var called := key.Enter? && old(secret.content) != [] && now >= old(RetryAfter(log));
        log == old(log) + if called then [Call(EncodeAll(old(secret.content)), now, after, outcome)] else []
      ensures key.Enter? || key.Escape? ==> IsWiped()
      ensures key.Enter? ==>
        var called := old(secret.content) != [] && now >= old(RetryAfter(log));
        authState == if called && outcome.Accepts? then Accepted
                     else if called && outcome.Throws? then Failed else Rejected
      ensures key.Escape? ==> authState == Idle
      ensures key.Backspace? || key.Text? ==>
        authState == if |secret.content| != old(|secret.content|) then Idle else old(authState)
      ensures key.Backspace? ==> secret.content == old(DropLast(secret.content))
      ensures key.Text? && key.modified ==> secret.content == old(secret.content)
      ensures key.Text? && !key.modified ==>
        secret.content == old(secret.content) + FitPrefix(Scalars(key.text), CAPACITY - old(secret.size))
    {
      hide IsPaced, Zeros, Represents;
      match key
      case Enter =>
        var _ := Authenticate(now, outcome, after);
      case Backspace =>
        RemoveLastCodePoint();
      case Escape =>
        ClearSecret();
        authState := Idle;
      case Text(text, modified) =>
        if text != [] && !modified {
          AppendText(text);
        } else {
          EmptyFits(CAPACITY - secret.size);
        }
    }
  }

  /** There is a password exactly when there are bytes, and the used bytes are its encoding. */
  lemma EmptyText(a: seq<int>, size: int, codePoints: int, units: int, content: seq<int>)
    requires Represents(a, size, codePoints, units, content)
    ensures 0 <= size <= |a| && a[..size] == EncodeAll(content) && (size == 0 <==> content == [])
  {
  }
}
