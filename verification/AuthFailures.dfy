/** The login failure tracker: five failures put a key into a cooldown. */
module AuthFailures {
  import opened KeyWindows
  import opened Text

  const THRESHOLD: nat := 5
  const COOLDOWN: nat := 60 * SECOND

  datatype Window = Window(failures: nat, cooldownUntil: Option<int>, lastSeenAt: int) {
    predicate CoolingAt(now: int) {
      cooldownUntil.Some? && now < cooldownUntil.value
    }

    /** A cooldown that is over is cleared, together with the count. */
    function Thawed(now: int): Window {
      if cooldownUntil.Some? then Window(0, None, now) else Window(failures, None, now)
    }
  }

  datatype State = State(windows: map<string, Window>, lastCleanupAt: int)

  function LastSeenAt(window: Window): int {
    window.lastSeenAt
  }

  predicate Keeps(window: Window, now: int) {
    window.CoolingAt(now) || Since(now, window.lastSeenAt) < STALE
  }

  function Cleanup(s: State, now: int): State {
    if Since(now, s.lastCleanupAt) < CLEANUP_INTERVAL && |s.windows| < MAX_TRACKED_KEYS then s
    else State(map k | k in s.windows && Keeps(s.windows[k], now) :: s.windows[k], now)
  }

  /**
   The public operations. `Fail` reads the clock twice (`now`, and `later` for the deadline);
   `victim` is the key that the hash map's order would give up for room.
   */
  datatype Op =
    | Check(key: string, now: int)
    | Fail(key: string, now: int, later: int, victim: string)
    | Reset(key: string)
    | ResetAll

  /** `is_in_cooldown` on the key's own window */
  function CheckWindow(window: Window, now: int): (Window, bool) {
    if window.CoolingAt(now) then (window.(lastSeenAt := now), true) else (window.Thawed(now), false)
  }

  /** `record_failure` on the key's own window */
  function FailWindow(window: Window, now: int, later: int): (Window, bool) {
    if window.CoolingAt(now) then (window.(lastSeenAt := now), true)
    else
      var failures := window.Thawed(now).failures + 1;
      if failures >= THRESHOLD then (Window(0, Some(later + COOLDOWN), now), true)
      else (Window(failures, None, now), false)
  }

  function Step(s: State, op: Op): (State, bool) {
    match op
    case Check(key, now) =>
      var cleaned := Cleanup(s, now);
      if key !in cleaned.windows then (cleaned, false)
      else
        var (window, answer) := CheckWindow(cleaned.windows[key], now);
        (cleaned.(windows := cleaned.windows[key := window]), answer)
    case Fail(key, now, later, victim) =>
      var cleaned := Cleanup(s, now);
      var room := if Evicts(cleaned.windows, key) then cleaned.windows - {victim} else cleaned.windows;
      var (window, answer) := FailWindow(if key in room then room[key] else Window(0, None, now), now, later);
      (cleaned.(windows := room[key := window]), answer)
    case Reset(key) => (s.(windows := s.windows - {key}), false)
    case ResetAll => (s.(windows := map[]), false)
  }

  class Tracker {
    var windows: map<string, Window>
    var lastCleanupAt: int

    function Abstract(): State
      reads this
    {
      State(windows, lastCleanupAt)
    }

    constructor (now: int)
      ensures Abstract() == State(map[], now)
    {
      windows, lastCleanupAt := map[], now;
    }

    /** `maybe_cleanup_auth_windows` */
    method MaybeCleanup(now: int)
      modifies this
      ensures Abstract() == Cleanup(old(Abstract()), now)
    {
      if Since(now, lastCleanupAt) < CLEANUP_INTERVAL && |windows| < MAX_TRACKED_KEYS {
        return;
      }
      lastCleanupAt := now;
      windows := map k | k in windows && Keeps(windows[k], now) :: windows[k];
    }

    /** `is_in_cooldown` */
    method IsInCooldown(key: string, now: int) returns (answer: bool)
      modifies this
      ensures (Abstract(), answer) == Step(old(Abstract()), Check(key, now))
    {
      MaybeCleanup(now);
      if key in windows {
        var window := windows[key].(lastSeenAt := now);
        if window.cooldownUntil.Some? {
          if now < window.cooldownUntil.value {
            windows := windows[key := window];
            return true;
          }
          window := window.(cooldownUntil := None, failures := 0);
        }
        windows := windows[key := window];
      }
      answer := false;
    }

    /** `record_failure` */
    method RecordFailure(key: string, now: int, later: int) returns (answer: bool, ghost victim: string)
      modifies this
      ensures (Abstract(), answer) == Step(old(Abstract()), Fail(key, now, later, victim))
      ensures var cleaned := Cleanup(old(Abstract()), now).windows;
              Evicts(cleaned, key) ==> IsOldest(cleaned, LastSeenAt, victim)
    {
      victim := key;
      MaybeCleanup(now);
      if key !in windows && |windows| >= MAX_TRACKED_KEYS {
        var oldest := FindOldest(windows, LastSeenAt);
        victim := oldest;
        windows := windows - {oldest};
      }
      var window := if key in windows then windows[key] else Window(0, None, now);
      window := window.(lastSeenAt := now);
      if window.cooldownUntil.Some? {
        if now < window.cooldownUntil.value {
          windows := windows[key := window];
          return true, victim;
        }
        window := window.(cooldownUntil := None, failures := 0);
      }
      window := window.(failures := window.failures + 1);
      if window.failures >= THRESHOLD {
        window := window.(failures := 0, cooldownUntil := Some(later + COOLDOWN));
        windows := windows[key := window];
        return true, victim;
      }
      windows := windows[key := window];
      answer := false;
    }

    /** `reset` */
    method ResetKey(key: string)
      modifies this
      ensures Abstract() == Step(old(Abstract()), Reset(key)).0
    {
      windows := windows - {key};
    }

    /** `reset_all` */
    method ResetEverything()
      modifies this
      ensures Abstract() == Step(old(Abstract()), ResetAll).0
    {
      windows := map[];
    }
  }

  // ---------------------------------------------------------------- runs

  function Run(s: State, ops: seq<Op>): State
    decreases |ops|
  {
    if ops == [] then s else Run(Step(s, ops[0]).0, ops[1..])
  }

  /** The answers that the operations on one key give. */
  function AnswersOn(s: State, ops: seq<Op>, key: string): seq<bool>
    decreases |ops|
  {
    if ops == [] then []
    else
      var (next, answer) := Step(s, ops[0]);
      (if (ops[0].Check? || ops[0].Fail?) && ops[0].key == key then [answer] else [])
      + AnswersOn(next, ops[1..], key)
  }

  /** Stored counts stay below the threshold, and a key in cooldown has no count. */
  predicate Valid(s: State) {
    forall k :: k in s.windows ==>
      s.windows[k].failures < THRESHOLD && (s.windows[k].cooldownUntil.Some? ==> s.windows[k].failures == 0)
  }

  lemma StepKeepsValid(s: State, op: Op)
    requires Valid(s)
    ensures Valid(Step(s, op).0)
  {
  }

  lemma {:induction false} ReachableIsValid(s: State, ops: seq<Op>)
    requires Valid(s)
    ensures Valid(Run(s, ops))
    decreases |ops|
  {
    if ops != [] {
      StepKeepsValid(s, ops[0]);
      ReachableIsValid(Step(s, ops[0]).0, ops[1..]);
    }
  }

  /** The operation leaves `key` alone: no reset of it, no eviction of it. */
  predicate Spares(s: State, op: Op, key: string) {
    match op
    case Check(_, _) => true
    case Fail(other, now, _, victim) => Evicts(Cleanup(s, now).windows, other) ==> victim != key
    case Reset(other) => other != key
    case ResetAll => false
  }

  predicate AllSpare(s: State, ops: seq<Op>, key: string)
    decreases |ops|
  {
    ops != [] ==> Spares(s, ops[0], key) && AllSpare(Step(s, ops[0]).0, ops[1..], key)
  }

  predicate Timed(op: Op) {
    op.Check? || op.Fail?
  }

  predicate AllBefore(ops: seq<Op>, deadline: int) {
    forall i :: 0 <= i < |ops| && Timed(ops[i]) ==> ops[i].now < deadline
  }

  predicate CoolingUntil(s: State, key: string, deadline: int) {
    key in s.windows && s.windows[key].cooldownUntil == Some(deadline)
  }

  lemma StepKeepsCooldown(s: State, op: Op, key: string, deadline: int)
    requires CoolingUntil(s, key, deadline) && Spares(s, op, key)
    requires Timed(op) ==> op.now < deadline
    ensures CoolingUntil(Step(s, op).0, key, deadline)
    ensures Timed(op) && op.key == key ==> Step(s, op).1
  {
    if Timed(op) {
      assert CoolingUntil(Cleanup(s, op.now), key, deadline);
    }
  }

  /** Until the deadline every check and failure on the key answers true, whatever else happens. */
  lemma {:induction false} CooldownHolds(s: State, ops: seq<Op>, key: string, deadline: int)
    requires CoolingUntil(s, key, deadline) && AllSpare(s, ops, key) && AllBefore(ops, deadline)
    ensures CoolingUntil(Run(s, ops), key, deadline)
    ensures forall i :: 0 <= i < |AnswersOn(s, ops, key)| ==> AnswersOn(s, ops, key)[i]
    decreases |ops|
  {
    hide CoolingUntil, Spares, Step;
    if ops != [] {
      StepKeepsCooldown(s, ops[0], key, deadline);
      assert AllBefore(ops[1..], deadline) by {
        assert forall i :: 0 <= i < |ops| - 1 ==> ops[1..][i] == ops[i + 1];
      }
      CooldownHolds(Step(s, ops[0]).0, ops[1..], key, deadline);
    }
  }

  /** A failure that answers true leaves its key in a cooldown that is not over. */
  lemma TrueMeansCooling(s: State, op: Op) returns (deadline: int)
    requires op.Fail? && op.now <= op.later && Step(s, op).1
    ensures CoolingUntil(Step(s, op).0, op.key, deadline) && op.now < deadline
  {
    deadline := Step(s, op).0.windows[op.key].cooldownUntil.value;
  }

  /** Once a failure reaches the threshold, the key stays refused until its deadline, over any run that spares it. */
  lemma ThresholdRefuses(s: State, op: Op, ops: seq<Op>) returns (deadline: int)
    requires op.Fail? && op.now <= op.later && Step(s, op).1
    ensures op.now < deadline
    ensures var after := Step(s, op).0;
            AllSpare(after, ops, op.key) && AllBefore(ops, deadline) ==>
              forall i :: 0 <= i < |AnswersOn(after, ops, op.key)| ==> AnswersOn(after, ops, op.key)[i]
  {
    deadline := TrueMeansCooling(s, op);
    var after := Step(s, op).0;
    if AllSpare(after, ops, op.key) && AllBefore(ops, deadline) {
      CooldownHolds(after, ops, op.key, deadline);
    }
  }

  // ---------------------------------------------------------------- a cooldown that is over

  /** A check answers true exactly while its key is cooling down. */
  lemma CheckExactly(s: State, key: string, now: int)
    ensures Step(s, Check(key, now)).1 <==> exists d :: CoolingUntil(s, key, d) && now < d
  {
    if key in s.windows && s.windows[key].cooldownUntil.Some? {
      assert CoolingUntil(s, key, s.windows[key].cooldownUntil.value);
    }
  }

  /** Nothing is held against the key at `now`: it is unknown, has no failures, or its cooldown is over. */
  ghost predicate Clear(s: State, key: string, now: int) {
    key !in s.windows || Counting(s, key, 0) || exists d :: CoolingUntil(s, key, d) && d <= now
  }

  /** From the deadline on a check answers false and clears the key. */
  lemma OverAtDeadline(s: State, key: string, deadline: int, now: int)
    requires CoolingUntil(s, key, deadline) && deadline <= now
    ensures var (after, answer) := Step(s, Check(key, now));
      !answer && (key !in after.windows || Counting(after, key, 0))
  {
  }

  lemma StepStaysClear(s: State, op: Op, key: string, deadline: int)
    requires Clear(s, key, deadline) && !(op.Fail? && op.key == key) && (Timed(op) ==> deadline <= op.now)
    ensures Clear(Step(s, op).0, key, deadline)
    ensures op.Check? && op.key == key ==> !Step(s, op).1
  {
    if exists d :: CoolingUntil(s, key, d) && d <= deadline {
      var d :| CoolingUntil(s, key, d) && d <= deadline;
      assert key in Step(s, op).0.windows ==> CoolingUntil(Step(s, op).0, key, d) || Counting(Step(s, op).0, key, 0);
    }
  }

  /** Once the deadline has passed, every check on the key answers false until there are new failures. */
  lemma {:induction false} OverForGood(s: State, ops: seq<Op>, key: string, deadline: int)
    requires Clear(s, key, deadline)
    requires forall i :: 0 <= i < |ops| ==> !(ops[i].Fail? && ops[i].key == key) && (Timed(ops[i]) ==> deadline <= ops[i].now)
    ensures Clear(Run(s, ops), key, deadline)
    ensures forall i :: 0 <= i < |AnswersOn(s, ops, key)| ==> !AnswersOn(s, ops, key)[i]
    decreases |ops|
  {
    hide Clear, Step;
    if ops != [] {
      StepStaysClear(s, ops[0], key, deadline);
      assert forall i :: 0 <= i < |ops| - 1 ==> ops[1..][i] == ops[i + 1];
      OverForGood(Step(s, ops[0]).0, ops[1..], key, deadline);
    }
  }

  // ---------------------------------------------------------------- exactly five failures

  function FailCount(ops: seq<Op>, key: string): nat {
    if ops == [] then 0
    else (if ops[0].Fail? && ops[0].key == key then 1 else 0) + FailCount(ops[1..], key)
  }

  /** The key is touched often enough that no cleanup finds it stale. */
  predicate StaysFresh(s: State, ops: seq<Op>, key: string)
    decreases |ops|
  {
    ops != [] ==>
      && (key in s.windows && Timed(ops[0]) ==> Since(ops[0].now, s.windows[key].lastSeenAt) < STALE)
      && StaysFresh(Step(s, ops[0]).0, ops[1..], key)
  }

  predicate Counting(s: State, key: string, failures: nat) {
    key in s.windows && s.windows[key].cooldownUntil == None && s.windows[key].failures == failures
  }

  lemma StepCounts(s: State, op: Op, key: string, failures: nat)
    requires Counting(s, key, failures) && Spares(s, op, key)
    requires Timed(op) ==> Since(op.now, s.windows[key].lastSeenAt) < STALE
    ensures var (after, answer) := Step(s, op);
      if op.Fail? && op.key == key then
        if failures + 1 >= THRESHOLD then answer && CoolingUntil(after, key, op.later + COOLDOWN)
        else !answer && Counting(after, key, failures + 1)
      else
        Counting(after, key, failures) && (Timed(op) && op.key == key ==> !answer)
  {
    if Timed(op) {
      assert Counting(Cleanup(s, op.now), key, failures);
    }
  }

  /** Below the threshold the count is exact and nothing is refused. */
  lemma {:induction false} FailuresCounted(s: State, ops: seq<Op>, key: string, failures: nat)
    requires Counting(s, key, failures) && AllSpare(s, ops, key) && StaysFresh(s, ops, key)
    requires failures + FailCount(ops, key) < THRESHOLD
    ensures Counting(Run(s, ops), key, failures + FailCount(ops, key))
    ensures forall i :: 0 <= i < |AnswersOn(s, ops, key)| ==> !AnswersOn(s, ops, key)[i]
    decreases |ops|
  {
    hide Spares, Step, CoolingUntil;
    if ops != [] {
      StepCounts(s, ops[0], key, failures);
      var next := if ops[0].Fail? && ops[0].key == key then failures + 1 else failures;
      FailuresCounted(Step(s, ops[0]).0, ops[1..], key, next);
    }
  }

  /** A failure on a clear key, an expired cooldown included, is the first of a new count. */
  lemma FirstFailureCounts(s: State, first: Op)
    requires first.Fail? && Clear(s, first.key, first.now) && Spares(s, first, first.key)
    ensures !Step(s, first).1 && Counting(Step(s, first).0, first.key, 1)
  {
    var cleaned := Cleanup(s, first.now);
    assert first.key in cleaned.windows ==> cleaned.windows[first.key] == s.windows[first.key];
  }

  /**
   The next failure after a counted run is refused exactly when it is the fifth, and then for 60
   seconds: `first` opens the count on a clear key, `ops` is any sparing run that keeps the key fresh.
   */
  lemma FifthFailureRefused(s: State, first: Op, ops: seq<Op>, last: Op)
    requires first.Fail? && last.Fail? && first.key == last.key
    requires Clear(s, first.key, first.now) && Spares(s, first, first.key)
    requires var after := Step(s, first).0;
      && AllSpare(after, ops, first.key) && StaysFresh(after, ops, first.key)
      && 1 + FailCount(ops, first.key) < THRESHOLD
      && Spares(Run(after, ops), last, first.key)
      && (first.key in Run(after, ops).windows ==> Since(last.now, Run(after, ops).windows[first.key].lastSeenAt) < STALE)
    ensures !Step(s, first).1
    ensures var (end, answer) := Step(Run(Step(s, first).0, ops), last);
      && (answer <==> FailCount(ops, first.key) == 5 - 2)
      && (answer ==> CoolingUntil(end, first.key, last.later + 60 * SECOND))
  {
    hide Step, Spares, Clear;
    var after := Step(s, first).0;
    FirstFailureCounts(s, first);
    FailuresCounted(after, ops, first.key, 1);
    StepCounts(Run(after, ops), last, first.key, 1 + FailCount(ops, first.key));
  }

  // ---------------------------------------------------------------- resets and the table

  /** A reset clears its key and no other; a full reset clears all. */
  lemma ResetClears(s: State, key: string, other: string)
    ensures key !in Step(s, Reset(key)).0.windows && other !in Step(s, ResetAll).0.windows
    ensures other != key ==> Lookup(Step(s, Reset(key)).0, other) == Lookup(s, other)
  {
  }

  function Lookup(s: State, key: string): Option<Window> {
    if key in s.windows then Some(s.windows[key]) else None
  }

  /** A cleanup that is due forgets every key not seen for 300 seconds unless it is cooling down, and no other. */
  lemma CleanupForgetsStale(s: State, now: int, key: string)
    requires key in s.windows && (now >= s.lastCleanupAt + 30 * SECOND || |s.windows| >= 8192) && s.windows[key].lastSeenAt <= now
    ensures key in Cleanup(s, now).windows <==>
      now < s.windows[key].lastSeenAt + 300 * SECOND || exists d :: CoolingUntil(s, key, d) && now < d
    ensures Cleanup(s, now).lastCleanupAt == now
  {
    if s.windows[key].cooldownUntil.Some? {
      assert CoolingUntil(s, key, s.windows[key].cooldownUntil.value);
    }
  }

  lemma CleanupShrinks(s: State, now: int)
    ensures |Cleanup(s, now).windows| <= |s.windows|
  {
    SmallerKeys(Cleanup(s, now).windows, s.windows);
  }

  /** The tracker never holds more than 8192 keys. */
  lemma StepStaysSmall(s: State, op: Op)
    requires |s.windows| <= MAX_TRACKED_KEYS
    requires op.Fail? && Evicts(Cleanup(s, op.now).windows, op.key) ==> op.victim in Cleanup(s, op.now).windows
    ensures |Step(s, op).0.windows| <= MAX_TRACKED_KEYS
  {
    hide Cleanup, CheckWindow, FailWindow, Evicts;
    var after := Step(s, op).0.windows;
    match op
    case Check(key, now) =>
      CleanupShrinks(s, now);
      assert after.Keys == Cleanup(s, now).windows.Keys;
      SmallerKeys(after, Cleanup(s, now).windows);
    case Fail(key, now, later, victim) =>
      CleanupShrinks(s, now);
      AddStaysSmall(Cleanup(s, now).windows, key, victim, after[key]);
    case Reset(key) => SmallerKeys(after, s.windows);
    case ResetAll =>
  }

  /** An operation marks its key as seen if it is known then, whatever the answer, and the other keys stay, but for cleanup and eviction. */
  lemma OperationIsSeen(s: State, op: Op, other: string)
    requires op.Check? || op.Fail?
    ensures var (next, cleaned) := (Step(s, op).0, Cleanup(s, op.now).windows);
      && (op.key in next.windows <==> op.Fail? || op.key in cleaned)
      && (op.key in next.windows ==> next.windows[op.key].lastSeenAt == op.now)
      && (other in cleaned && other != op.key && !(op.Fail? && Evicts(cleaned, op.key) && other == op.victim) ==>
           other in next.windows && next.windows[other] == cleaned[other])
      && (other in next.windows && other != op.key ==> other in cleaned)
  {
  }
}
