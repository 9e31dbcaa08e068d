/** The request rate limiter: fixed windows per key, periodic cleanup and oldest-first eviction. */
module RateLimiter {
  import opened KeyWindows
  import opened Text

  datatype Window = Window(startedAt: int, lastSeenAt: int, count: nat)

  datatype State = State(windows: map<string, Window>, lastCleanupAt: int)

  function LastSeenAt(window: Window): int {
    window.lastSeenAt
  }

  function Cleanup(s: State, now: int): State {
    if Since(now, s.lastCleanupAt) < CLEANUP_INTERVAL && |s.windows| < MAX_TRACKED_KEYS then s
    else
      State(map k | k in s.windows && Since(now, s.windows[k].lastSeenAt) < STALE :: s.windows[k], now)
  }

  /** One call to `is_allowed`; `victim` is the key that the hash map's order would give up for room. */
  datatype Call = Call(key: string, limit: nat, window: nat, now: int, victim: string)

  function Room(windows: map<string, Window>, call: Call): map<string, Window> {
    if Evicts(windows, call.key) then windows - {call.victim} else windows
  }

  function EntryFor(windows: map<string, Window>, call: Call): Window {
    if call.key in windows then windows[call.key] else Window(call.now, call.now, 0)
  }

  function Touch(entry: Window, limit: nat, window: nat, now: int): (Window, bool) {
    var current := if Since(now, entry.startedAt) >= window then Window(now, entry.lastSeenAt, 0) else entry;
    if current.count >= limit then (current.(lastSeenAt := now), false)
    else (Window(current.startedAt, now, current.count + 1), true)
  }

  function Step(s: State, call: Call): (State, bool) {
    var cleaned := Cleanup(s, call.now);
    var room := Room(cleaned.windows, call);
    var (entry, allowed) := Touch(EntryFor(room, call), call.limit, call.window, call.now);
    (State(room[call.key := entry], cleaned.lastCleanupAt), allowed)
  }

  class Limiter {
    var windows: map<string, Window>
    var lastCleanupAt: int

    function Abstract(): State
      reads this
    {
      State(windows, lastCleanupAt)
    }

    constructor (now: int)
      ensures Abstract() == State(map[], now)
    {
      windows, lastCleanupAt := map[], now;
    }

    /** `maybe_cleanup_rate_windows` */
    method MaybeCleanup(now: int)
      modifies this
      ensures Abstract() == Cleanup(old(Abstract()), now)
    {
      if Since(now, lastCleanupAt) < CLEANUP_INTERVAL && |windows| < MAX_TRACKED_KEYS {
        return;
      }
      lastCleanupAt := now;
      windows := map k | k in windows && Since(now, windows[k].lastSeenAt) < STALE :: windows[k];
    }

    /** `is_allowed` */
    method IsAllowed(key: string, limit: nat, window: nat, now: int) returns (allowed: bool, ghost victim: string)
      modifies this
      ensures (Abstract(), allowed) == Step(old(Abstract()), Call(key, limit, window, now, victim))
      ensures var cleaned := Cleanup(old(Abstract()), now).windows;
              Evicts(cleaned, key) ==> IsOldest(cleaned, LastSeenAt, victim)
    {
      victim := key;
      MaybeCleanup(now);
      if key !in windows && |windows| >= MAX_TRACKED_KEYS {
        var oldest := FindOldest(windows, LastSeenAt);
        victim := oldest;
        windows := windows - {oldest};
      }
      var entry := if key in windows then windows[key] else Window(now, now, 0);
      if Since(now, entry.startedAt) >= window {
        entry := entry.(startedAt := now, count := 0);
      }
      if entry.count >= limit {
        entry := entry.(lastSeenAt := now);
        windows := windows[key := entry];
        return false, victim;
      }
      entry := entry.(count := entry.count + 1);
      entry := entry.(lastSeenAt := now);
      windows := windows[key := entry];
      allowed := true;
    }
  }

  // ---------------------------------------------------------------- runs

  predicate Monotone(clock: int, calls: seq<Call>)
    decreases |calls|
  {
    calls == [] || (clock <= calls[0].now && Monotone(calls[0].now, calls[1..]))
  }

  function Answers(s: State, calls: seq<Call>): seq<bool>
    decreases |calls|
  {
    if calls == [] then []
    else
      var (next, allowed) := Step(s, calls[0]);
      [allowed] + Answers(next, calls[1..])
  }

  /** The times of the allowed calls to `key`, after those in `times`. */
  function AllowedTimes(s: State, times: seq<int>, calls: seq<Call>, key: string): seq<int>
    decreases |calls|
  {
    if calls == [] then times
    else
      var (next, allowed) := Step(s, calls[0]);
      AllowedTimes(next, if allowed && calls[0].key == key then times + [calls[0].now] else times, calls[1..], key)
  }

  predicate NeverEvicted(s: State, calls: seq<Call>, key: string)
    decreases |calls|
  {
    calls != [] ==>
      && (Evicts(Cleanup(s, calls[0].now).windows, calls[0].key) ==> calls[0].victim != key)
      && NeverEvicted(Step(s, calls[0]).0, calls[1..], key)
  }

  predicate FixedPolicy(calls: seq<Call>, key: string, limit: nat, window: nat) {
    forall i :: 0 <= i < |calls| && calls[i].key == key ==> calls[i].limit == limit && calls[i].window == window
  }

  // ---------------------------------------------------------------- the bound over any window-long interval

  /** How many times lie in the half-open interval from `a` to `b`. */
  function CountIn(times: seq<int>, a: int, b: int): nat {
    if times == [] then 0
    else CountIn(times[..|times| - 1], a, b) + (if a <= times[|times| - 1] < b then 1 else 0)
  }

  lemma CountSnoc(times: seq<int>, t: int, a: int, b: int)
    ensures CountIn(times + [t], a, b) == CountIn(times, a, b) + (if a <= t < b then 1 else 0)
  {
    assert (times + [t])[..|times|] == times;
  }

  lemma {:induction false} CountWidens(times: seq<int>, a: int, b: int, c: int)
    requires b <= c
    ensures CountIn(times, a, b) <= CountIn(times, a, c)
    decreases |times|
  {
    if times != [] {
      CountWidens(times[..|times| - 1], a, b, c);
    }
  }

  lemma {:induction false} CountZero(times: seq<int>, a: int, b: int)
    requires forall i :: 0 <= i < |times| ==> times[i] < a
    ensures CountIn(times, a, b) == 0
    decreases |times|
  {
    if times != [] {
      CountZero(times[..|times| - 1], a, b);
    }
  }

  /** What is known about one key: `times` are its allowed calls, all at or before `clock`. */
  ghost predicate KeyInv(entry: Window, times: seq<int>, clock: int, limit: nat, window: nat) {
    && entry.startedAt <= entry.lastSeenAt <= clock
    && 1 <= entry.count <= limit
    && (forall i :: 0 <= i < |times| ==> times[i] <= entry.lastSeenAt && times[i] < entry.startedAt + window)
    && (forall a, b :: a > entry.startedAt ==> CountIn(times, a, b) <= entry.count - 1)
    && (forall a, b :: a > entry.startedAt - window ==> CountIn(times, a, b) <= limit - 1 + entry.count)
  }

  ghost predicate Bounded(times: seq<int>, limit: nat, window: nat) {
    forall a, b :: b - a <= window ==> CountIn(times, a, b) <= 2 * limit - 1
  }

  ghost predicate RunInv(s: State, times: seq<int>, clock: int, key: string, limit: nat, window: nat) {
    && Bounded(times, limit, window)
    && if key in s.windows then KeyInv(s.windows[key], times, clock, limit, window)
       else forall i :: 0 <= i < |times| ==> times[i] + window <= clock
  }

  lemma TouchOpen(entry: Window, times: seq<int>, clock: int, limit: nat, window: nat, now: int)
    requires KeyInv(entry, times, clock, limit, window) && Bounded(times, limit, window)
    requires clock <= now < entry.startedAt + window
    ensures var (after, allowed) := Touch(entry, limit, window, now);
            var times' := if allowed then times + [now] else times;
            KeyInv(after, times', now, limit, window) && Bounded(times', limit, window)
  {
    forall a, b ensures CountIn(times + [now], a, b) == CountIn(times, a, b) + (if a <= now < b then 1 else 0) {
      CountSnoc(times, now, a, b);
    }
  }

  lemma TouchFresh(entry: Window, times: seq<int>, limit: nat, window: nat, now: int)
    requires 1 <= limit && 0 < window && Bounded(times, limit, window)
    requires Since(now, entry.startedAt) >= window || (entry.startedAt == now && entry.count == 0)
    requires forall i :: 0 <= i < |times| ==> times[i] < now
    requires forall a, b :: a > now - window ==> CountIn(times, a, b) <= limit - 1
    ensures var (after, allowed) := Touch(entry, limit, window, now);
            allowed && KeyInv(after, times + [now], now, limit, window) && Bounded(times + [now], limit, window)
  {
    forall a, b ensures CountIn(times + [now], a, b) == CountIn(times, a, b) + (if a <= now < b then 1 else 0) {
      CountSnoc(times, now, a, b);
    }
    forall a, b | a > now ensures CountIn(times, a, b) == 0 {
      CountZero(times, a, b);
    }
  }

  lemma CleanupKeeps(s: State, now: int, key: string)
    ensures var after := Cleanup(s, now).windows;
            && (key in after ==> key in s.windows && after[key] == s.windows[key])
            && (key in s.windows && key !in after ==> Since(now, s.windows[key].lastSeenAt) >= STALE)
  {
  }

  lemma StepOther(s: State, call: Call, key: string)
    requires call.key != key
    requires Evicts(Cleanup(s, call.now).windows, call.key) ==> call.victim != key
    ensures var (cleaned, after) := (Cleanup(s, call.now).windows, Step(s, call).0.windows);
            (key in after <==> key in cleaned) && (key in after ==> after[key] == cleaned[key])
  {
  }

  lemma StepSame(s: State, call: Call)
    ensures var cleaned := Cleanup(s, call.now).windows;
            var entry := EntryFor(cleaned, call);
            var (after, allowed) := Step(s, call);
            var (entry', allowed') := Touch(entry, call.limit, call.window, call.now);
            call.key in after.windows && after.windows[call.key] == entry' && allowed == allowed'
  {
  }

  lemma KeyStep(s: State, times: seq<int>, clock: int, call: Call, limit: nat, window: nat)
    requires 1 <= limit && 0 < window <= STALE && call.limit == limit && call.window == window
    requires RunInv(s, times, clock, call.key, limit, window) && clock <= call.now
    ensures var (after, allowed) := Step(s, call);
            RunInv(after, if allowed then times + [call.now] else times, call.now, call.key, limit, window)
  {
    var key := call.key;
    CleanupKeeps(s, call.now, key);
    StepSame(s, call);
    var cleaned := Cleanup(s, call.now).windows;
    hide Cleanup, Step;
    if key in cleaned && call.now < s.windows[key].startedAt + window {
      TouchOpen(s.windows[key], times, clock, limit, window, call.now);
    } else {
      var entry := EntryFor(cleaned, call);
      forall a, b | a > call.now - window ensures CountIn(times, a, b) <= limit - 1 {
        if key !in cleaned {
          CountZero(times, a, b);
        }
      }
      TouchFresh(entry, times, limit, window, call.now);
    }
  }

  lemma OtherStep(s: State, times: seq<int>, clock: int, call: Call, key: string, limit: nat, window: nat)
    requires 0 < window <= STALE && call.key != key
    requires RunInv(s, times, clock, key, limit, window) && clock <= call.now
    requires Evicts(Cleanup(s, call.now).windows, call.key) ==> call.victim != key
    ensures RunInv(Step(s, call).0, times, call.now, key, limit, window)
  {
    CleanupKeeps(s, call.now, key);
    StepOther(s, call, key);
    hide Cleanup, Step;
  }

  lemma {:induction false} RunKeepsBound(s: State, times: seq<int>, clock: int, calls: seq<Call>, key: string, limit: nat, window: nat)
    requires 1 <= limit && 0 < window <= STALE
    requires RunInv(s, times, clock, key, limit, window)
    requires Monotone(clock, calls) && NeverEvicted(s, calls, key) && FixedPolicy(calls, key, limit, window)
    ensures Bounded(AllowedTimes(s, times, calls, key), limit, window)
    decreases |calls|
  {
    hide RunInv, Bounded, Step;
    if calls == [] {
      assert Bounded(times, limit, window) by { InvIsBounded(s, times, clock, key, limit, window); }
    } else {
      var call := calls[0];
      var (after, allowed) := Step(s, call);
      var times' := if allowed && call.key == key then times + [call.now] else times;
      if call.key == key {
        KeyStep(s, times, clock, call, limit, window);
      } else {
        OtherStep(s, times, clock, call, key, limit, window);
      }
      assert FixedPolicy(calls[1..], key, limit, window) by {
        assert forall i :: 0 <= i < |calls| - 1 ==> calls[1..][i] == calls[i + 1];
      }
      RunKeepsBound(after, times', call.now, calls[1..], key, limit, window);
    }
  }

  lemma InvIsBounded(s: State, times: seq<int>, clock: int, key: string, limit: nat, window: nat)
    requires RunInv(s, times, clock, key, limit, window)
    ensures Bounded(times, limit, window)
  {
  }

  /**
   On every run, with a monotone clock and windows up to the stale time, a key that is never
   evicted gets at most 2 * limit - 1 allowed calls in any half-open interval one window long.
   */
  lemma WindowBound(start: int, calls: seq<Call>, key: string, limit: nat, window: nat, a: int)
    requires 1 <= limit && window <= STALE
    requires Monotone(start, calls)
    requires NeverEvicted(State(map[], start), calls, key) && FixedPolicy(calls, key, limit, window)
    ensures CountIn(AllowedTimes(State(map[], start), [], calls, key), a, a + window) <= 2 * limit - 1
  {
    if window == 0 {
      CountNothing(AllowedTimes(State(map[], start), [], calls, key), a);
    } else {
      forall a, b ensures CountIn([], a, b) == 0 {
      }
      RunKeepsBound(State(map[], start), [], start, calls, key, limit, window);
    }
  }

  lemma {:induction false} CountNothing(times: seq<int>, a: int)
    ensures CountIn(times, a, a) == 0
    decreases |times|
  {
    if times != [] {
      CountNothing(times[..|times| - 1], a);
    }
  }

  /** With limit 0 nothing is ever allowed. */
  lemma {:induction false} ZeroLimitAllowsNothing(s: State, times: seq<int>, calls: seq<Call>, key: string, window: nat)
    requires FixedPolicy(calls, key, 0, window)
    ensures AllowedTimes(s, times, calls, key) == times
    decreases |calls|
  {
    if calls != [] {
      var call := calls[0];
      assert FixedPolicy(calls[1..], key, 0, window) by {
        assert forall i :: 0 <= i < |calls| - 1 ==> calls[1..][i] == calls[i + 1];
      }
      ZeroLimitAllowsNothing(Step(s, call).0, times, calls[1..], key, window);
    }
  }

  // ---------------------------------------------------------------- the bound is met

  /** `n` calls of one key at one time. */
  function Burst(n: nat, limit: nat, window: nat, at: int): seq<Call> {
    if n == 0 then [] else [Call("k", limit, window, at, "")] + Burst(n - 1, limit, window, at)
  }

  function Repeated(n: nat, time: int): seq<int> {
    if n == 0 then [] else [time] + Repeated(n - 1, time)
  }

  function OneKey(entry: Window, lastCleanupAt: int): State {
    State(map["k" := entry], lastCleanupAt)
  }

  function CleanedAt(lastCleanupAt: int, now: int): int {
    if Since(now, lastCleanupAt) < CLEANUP_INTERVAL then lastCleanupAt else now
  }

  /** A table with one key that is not stale keeps it through a cleanup. */
  lemma OneKeyStep(entry: Window, lastCleanupAt: int, call: Call)
    requires call.key == "k" && Since(call.now, entry.lastSeenAt) < STALE
    ensures var (next, allowed) := Touch(entry, call.limit, call.window, call.now);
            Step(OneKey(entry, lastCleanupAt), call) == (OneKey(next, CleanedAt(lastCleanupAt, call.now)), allowed)
    ensures !Evicts(Cleanup(OneKey(entry, lastCleanupAt), call.now).windows, "k")
  {
    var s := OneKey(entry, lastCleanupAt);
    assert |s.windows| == 1;
    assert Cleanup(s, call.now).windows == s.windows;
    var (next, allowed) := Touch(entry, call.limit, call.window, call.now);
    assert s.windows["k" := next] == map["k" := next];
  }

  /** One call, followed by others, on a table with one key. */
  lemma OneKeyRun(entry: Window, lastCleanupAt: int, times: seq<int>, call: Call, rest: seq<Call>)
    requires call.key == "k" && Since(call.now, entry.lastSeenAt) < STALE
    ensures var (next, allowed) := Touch(entry, call.limit, call.window, call.now);
            var after := OneKey(next, CleanedAt(lastCleanupAt, call.now));
      && AllowedTimes(OneKey(entry, lastCleanupAt), times, [call] + rest, "k")
         == AllowedTimes(after, if allowed then times + [call.now] else times, rest, "k")
      && (NeverEvicted(OneKey(entry, lastCleanupAt), [call] + rest, "k") <==> NeverEvicted(after, rest, "k"))
  {
    OneKeyStep(entry, lastCleanupAt, call);
    hide Step, Cleanup, Evicts, Touch, OneKey;
    assert ([call] + rest)[0] == call && ([call] + rest)[1..] == rest;
  }

  lemma BurstHead(n: nat, limit: nat, window: nat, at: int, rest: seq<Call>)
    requires n > 0
    ensures Burst(n, limit, window, at) + rest == [Call("k", limit, window, at, "")] + (Burst(n - 1, limit, window, at) + rest)
  {
  }

  lemma RepeatedHead(times: seq<int>, n: nat, time: int)
    requires n > 0
    ensures times + [time] + Repeated(n - 1, time) == times + Repeated(n, time)
  {
  }

  lemma MonotoneCons(clock: int, call: Call, rest: seq<Call>)
    requires clock <= call.now && Monotone(call.now, rest)
    ensures Monotone(clock, [call] + rest)
  {
    assert ([call] + rest)[1..] == rest;
  }

  /** A burst that the limit admits is allowed in full. */
  lemma {:induction false} BurstRun(n: nat, entry: Window, lastCleanupAt: int, times: seq<int>, limit: nat, window: nat, at: int, rest: seq<Call>)
    returns (cleanedAt: int, lastSeenAt: int)
    requires entry.count + n <= limit && Since(at, entry.startedAt) < window && Since(at, entry.lastSeenAt) < STALE
    ensures var after := OneKey(Window(entry.startedAt, lastSeenAt, entry.count + n), cleanedAt);
      && lastSeenAt == (if n == 0 then entry.lastSeenAt else at)
      && AllowedTimes(OneKey(entry, lastCleanupAt), times, Burst(n, limit, window, at) + rest, "k")
         == AllowedTimes(after, times + Repeated(n, at), rest, "k")
      && (NeverEvicted(OneKey(entry, lastCleanupAt), Burst(n, limit, window, at) + rest, "k") <==> NeverEvicted(after, rest, "k"))
    decreases n
  {
    hide AllowedTimes, NeverEvicted, OneKey, CleanedAt;
    if n == 0 {
      cleanedAt, lastSeenAt := lastCleanupAt, entry.lastSeenAt;
      assert [] + rest == rest && times + [] == times;
    } else {
      var call := Call("k", limit, window, at, "");
      var others := Burst(n - 1, limit, window, at) + rest;
      BurstHead(n, limit, window, at, rest);
      RepeatedHead(times, n, at);
      hide Burst, Repeated;
      OneKeyRun(entry, lastCleanupAt, times, call, others);
      var next := Window(entry.startedAt, at, entry.count + 1);
      assert Touch(entry, limit, window, at) == (next, true);
      cleanedAt, lastSeenAt := BurstRun(n - 1, next, CleanedAt(lastCleanupAt, at), times + [at], limit, window, at, rest);
    }
  }

  /** One call at 0, as many as the limit admits just before the window ends, and a full limit as the next one starts. */
  function TightCalls(limit: nat, window: nat): seq<Call>
    requires limit >= 1 && window >= 1
  {
    [Call("k", limit, window, 0, "")]
    + (Burst(limit - 1, limit, window, window - 1)
       + ([Call("k", limit, window, window, "")]
          + (Burst(limit - 1, limit, window, window) + [])))
  }

  function TightTimes(limit: nat, window: nat): seq<int>
    requires limit >= 1 && window >= 1
  {
    [0] + Repeated(limit - 1, window - 1) + [window] + Repeated(limit - 1, window)
  }

  lemma FirstCall(call: Call, rest: seq<Call>)
    requires call.key == "k" && call.now == 0 && call.limit >= 1 && call.window >= 1
    ensures AllowedTimes(State(map[], 0), [], [call] + rest, "k") == AllowedTimes(OneKey(Window(0, 0, 1), 0), [0], rest, "k")
    ensures NeverEvicted(State(map[], 0), [call] + rest, "k") <==> NeverEvicted(OneKey(Window(0, 0, 1), 0), rest, "k")
  {
    var s := State(map[], 0);
    assert Cleanup(s, 0) == s && !Evicts(s.windows, "k");
    assert s.windows["k" := Window(0, 0, 1)] == map["k" := Window(0, 0, 1)];
    assert Step(s, call) == (OneKey(Window(0, 0, 1), 0), true);
    hide Step, Cleanup, Evicts;
    assert ([call] + rest)[0] == call && ([call] + rest)[1..] == rest;
    assert [] + [0] == [0];
  }

  lemma TightRun(limit: nat, window: nat)
    requires limit >= 2 && 2 <= window <= STALE
    ensures AllowedTimes(State(map[], 0), [], TightCalls(limit, window), "k") == TightTimes(limit, window)
    ensures NeverEvicted(State(map[], 0), TightCalls(limit, window), "k")
  {
    hide AllowedTimes, NeverEvicted, OneKey, CleanedAt, Burst, Repeated;
    var reset := Call("k", limit, window, window, "");
    var second := Burst(limit - 1, limit, window, window) + [];
    FirstCall(Call("k", limit, window, 0, ""), Burst(limit - 1, limit, window, window - 1) + ([reset] + second));
    var cleanedAt, lastSeenAt := BurstRun(limit - 1, Window(0, 0, 1), 0, [0], limit, window, window - 1, [reset] + second);
    var times := [0] + Repeated(limit - 1, window - 1);
    OneKeyRun(Window(0, lastSeenAt, limit), cleanedAt, times, reset, second);
    assert Touch(Window(0, lastSeenAt, limit), limit, window, window) == (Window(window, window, 1), true);
    var _, _ := BurstRun(limit - 1, Window(window, window, 1), CleanedAt(cleanedAt, window), times + [window], limit, window, window, []);
    NothingAllowedByNoCalls();
  }

  lemma NothingAllowedByNoCalls()
    ensures forall s: State, times: seq<int> :: AllowedTimes(s, times, [], "k") == times && NeverEvicted(s, [], "k")
  {
  }

  lemma {:induction false} CountRepeated(times: seq<int>, n: nat, time: int, a: int, b: int)
    requires a <= time < b
    ensures CountIn(times + Repeated(n, time), a, b) == CountIn(times, a, b) + n
    decreases n
  {
    hide CountIn;
    if n == 0 {
      assert times + [] == times;
    } else {
      CountRepeated(times + [time], n - 1, time, a, b);
      CountSnoc(times, time, a, b);
      RepeatedHead(times, n, time);
    }
  }

  lemma {:induction false} BurstMonotone(n: nat, limit: nat, window: nat, clock: int, at: int, rest: seq<Call>)
    requires clock <= at && Monotone(at, rest)
    ensures Monotone(clock, Burst(n, limit, window, at) + rest)
    decreases n
  {
    if n == 0 {
      assert [] + rest == rest;
    } else {
      hide Monotone;
      BurstHead(n, limit, window, at, rest);
      BurstMonotone(n - 1, limit, window, at, at, rest);
      MonotoneCons(clock, Call("k", limit, window, at, ""), Burst(n - 1, limit, window, at) + rest);
    }
  }

  lemma {:induction false} BurstPolicy(n: nat, limit: nat, window: nat, at: int)
    ensures forall call :: call in Burst(n, limit, window, at) ==> call.limit == limit && call.window == window
  {
    if n > 0 {
      BurstPolicy(n - 1, limit, window, at);
    }
  }

  lemma TightCallsMonotone(limit: nat, window: nat)
    requires limit >= 1 && window >= 1
    ensures Monotone(0, TightCalls(limit, window))
  {
    hide Burst;
    var second := Burst(limit - 1, limit, window, window) + [];
    BurstMonotone(limit - 1, limit, window, window, window, []);
    var later := [Call("k", limit, window, window, "")] + second;
    assert later[1..] == second;
    BurstMonotone(limit - 1, limit, window, 0, window - 1, later);
    assert TightCalls(limit, window)[1..] == Burst(limit - 1, limit, window, window - 1) + later;
  }

  lemma TightCallsPolicy(limit: nat, window: nat)
    requires limit >= 1 && window >= 1
    ensures FixedPolicy(TightCalls(limit, window), "k", limit, window)
  {
    BurstPolicy(limit - 1, limit, window, window - 1);
    BurstPolicy(limit - 1, limit, window, window);
    hide Burst;
    var calls := TightCalls(limit, window);
    assert forall call :: call in calls ==> call.limit == limit && call.window == window;
    hide TightCalls;
    forall i | 0 <= i < |calls| ensures calls[i].limit == limit && calls[i].window == window {
      assert calls[i] in calls;
    }
  }

  lemma OneCallRun(window: nat)
    requires window >= 1
    ensures var calls := [Call("k", 1, window, 0, "")];
      && AllowedTimes(State(map[], 0), [], calls, "k") == [0]
      && Monotone(0, calls) && NeverEvicted(State(map[], 0), calls, "k") && FixedPolicy(calls, "k", 1, window)
  {
    var call := Call("k", 1, window, 0, "");
    assert [call] + [] == [call];
    FirstCall(call, []);
    NothingAllowedByNoCalls();
    hide AllowedTimes, NeverEvicted;
  }

  /** For every limit and every window from two nanoseconds to the stale time, some run reaches the bound. */
  lemma WindowBoundIsTight(limit: nat, window: nat) returns (calls: seq<Call>, a: int)
    requires limit >= 1 && 2 <= window <= STALE
    ensures Monotone(0, calls) && NeverEvicted(State(map[], 0), calls, "k") && FixedPolicy(calls, "k", limit, window)
    ensures CountIn(AllowedTimes(State(map[], 0), [], calls, "k"), a, a + window) == 2 * limit - 1
  {
    if limit == 1 {
      calls, a := [Call("k", 1, window, 0, "")], 0;
      OneCallRun(window);
      CountSnoc([], 0, 0, window);
      assert [] + [0] == [0];
    } else {
      calls, a := TightCalls(limit, window), window - 1;
      TightCallsMonotone(limit, window);
      TightCallsPolicy(limit, window);
      TightRun(limit, window);
      TightCount(limit, window);
      hide AllowedTimes, NeverEvicted, TightCalls, TightTimes, Monotone, FixedPolicy, CountIn;
    }
  }

  lemma TightCount(limit: nat, window: nat)
    requires limit >= 2 && window >= 2
    ensures CountIn(TightTimes(limit, window), window - 1, window - 1 + window) == 2 * limit - 1
  {
    hide Repeated;
    var (a, b) := (window - 1, window - 1 + window);
    var before := [0] + Repeated(limit - 1, window - 1);
    CountSnoc([], 0, a, b);
    assert [] + [0] == [0];
    CountRepeated([0], limit - 1, window - 1, a, b);
    CountSnoc(before, window, a, b);
    CountRepeated(before + [window], limit - 1, window, a, b);
  }

  // ---------------------------------------------------------------- the exact answer

  /**
   The reference, in terms of allowed calls alone: the last of them that opened a window, and how
   many there were from then on. A call opens a window when none is open or the open one is over.
   */
  function OpenWindow(times: seq<int>, window: nat): (r: Option<(int, nat)>)
    ensures r.None? <==> times == []
  {
    if times == [] then None
    else
      var (before, last) := (OpenWindow(times[..|times| - 1], window), times[|times| - 1]);
      if before.None? || last >= before.value.0 + window then Some((last, 1))
      else Some((before.value.0, before.value.1 + 1))
  }

  /** A call is admitted when no window is open, or the open one has room. */
  predicate Admits(times: seq<int>, limit: nat, window: nat, now: int) {
    match OpenWindow(times, window)
    case None => true
    case Some((start, count)) => now >= start + window || count < limit
  }

  lemma OpenWindowSnoc(times: seq<int>, last: int, window: nat)
    ensures var before := OpenWindow(times, window);
      OpenWindow(times + [last], window) ==
        if before.None? || last >= before.value.0 + window then Some((last, 1)) else Some((before.value.0, before.value.1 + 1))
  {
    assert (times + [last])[..|times|] == times;
  }

  /** All calls since the opening lie in the open window, and there are as many as counted. */
  lemma {:induction false} OpenWindowCounts(times: seq<int>, window: nat, clock: int)
    requires window > 0 && times != []
    requires forall i, j :: 0 <= i < j < |times| ==> times[i] <= times[j]
    requires times[|times| - 1] <= clock
    ensures var (start, count) := OpenWindow(times, window).value;
      start <= times[|times| - 1] && count <= CountIn(times, start, clock + 1)
    decreases |times|
  {
    var (init, last) := (times[..|times| - 1], times[|times| - 1]);
    if init != [] {
      OpenWindowCounts(init, window, clock);
    }
  }

  /** What the limiter stores for the key agrees with the reference, or is gone with a window that is over. */
  ghost predicate Agrees(s: State, times: seq<int>, clock: int, key: string, window: nat) {
    && (forall i, j :: 0 <= i < j < |times| ==> times[i] <= times[j])
    && (forall i :: 0 <= i < |times| ==> times[i] <= clock)
    && if key in s.windows then
         var entry := s.windows[key];
         && OpenWindow(times, window) == Some((entry.startedAt, entry.count))
         && entry.startedAt <= entry.lastSeenAt <= clock
       else
         times == [] || OpenWindow(times, window).value.0 + window <= clock
  }

  lemma AgreeingStep(s: State, times: seq<int>, clock: int, call: Call)
    requires 1 <= call.limit && 0 < call.window <= STALE
    requires Agrees(s, times, clock, call.key, call.window) && clock <= call.now
    ensures var (after, allowed) := Step(s, call);
      && (allowed <==> Admits(times, call.limit, call.window, call.now))
      && Agrees(after, if allowed then times + [call.now] else times, call.now, call.key, call.window)
  {
    CleanupKeeps(s, call.now, call.key);
    StepSame(s, call);
    OpenWindowSnoc(times, call.now, call.window);
    hide Cleanup, Step, OpenWindow;
  }

  lemma AgreeingOtherStep(s: State, times: seq<int>, clock: int, call: Call, key: string, window: nat)
    requires 0 < window <= STALE && call.key != key
    requires Agrees(s, times, clock, key, window) && clock <= call.now
    requires Evicts(Cleanup(s, call.now).windows, call.key) ==> call.victim != key
    ensures Agrees(Step(s, call).0, times, call.now, key, window)
  {
    CleanupKeeps(s, call.now, key);
    StepOther(s, call, key);
    hide Cleanup, Step, OpenWindow;
  }

  lemma StartAgrees(start: int, key: string, window: nat)
    ensures Agrees(State(map[], start), [], start, key, window)
  {
  }

  function StateAfter(s: State, calls: seq<Call>): State
    decreases |calls|
  {
    if calls == [] then s else StateAfter(Step(s, calls[0]).0, calls[1..])
  }

  lemma {:induction false} RunAgrees(s: State, times: seq<int>, clock: int, calls: seq<Call>, key: string, limit: nat, window: nat)
    requires 1 <= limit && 0 < window <= STALE && Agrees(s, times, clock, key, window)
    requires Monotone(clock, calls) && NeverEvicted(s, calls, key) && FixedPolicy(calls, key, limit, window)
    ensures Agrees(StateAfter(s, calls), AllowedTimes(s, times, calls, key), LastTime(clock, calls), key, window)
    decreases |calls|
  {
    hide Agrees, Step, Admits;
    if calls != [] {
      var call := calls[0];
      var (after, allowed) := Step(s, call);
      if call.key == key {
        AgreeingStep(s, times, clock, call);
      } else {
        AgreeingOtherStep(s, times, clock, call, key, window);
      }
      assert FixedPolicy(calls[1..], key, limit, window) by {
        assert forall i :: 0 <= i < |calls| - 1 ==> calls[1..][i] == calls[i + 1];
      }
      RunAgrees(after, if allowed && call.key == key then times + [call.now] else times, call.now, calls[1..], key, limit, window);
    }
  }

  function LastTime(clock: int, calls: seq<Call>): int
    decreases |calls|
  {
    if calls == [] then clock else LastTime(calls[0].now, calls[1..])
  }

  /**
   On every run the next call on a never-evicted key is answered exactly as the reference says.
   Only allowed calls enter it: a refused call changes no later answer.
   */
  lemma AnswerExactly(start: int, calls: seq<Call>, call: Call)
    requires 1 <= call.limit && 0 < call.window <= STALE
    requires Monotone(start, calls) && LastTime(start, calls) <= call.now
    requires NeverEvicted(State(map[], start), calls, call.key) && FixedPolicy(calls, call.key, call.limit, call.window)
    ensures var times := AllowedTimes(State(map[], start), [], calls, call.key);
      Step(StateAfter(State(map[], start), calls), call).1 <==> Admits(times, call.limit, call.window, call.now)
  {
    StartAgrees(start, call.key, call.window);
    hide *;
    RunAgrees(State(map[], start), [], start, calls, call.key, call.limit, call.window);
    var times := AllowedTimes(State(map[], start), [], calls, call.key);
    AgreeingStep(StateAfter(State(map[], start), calls), times, LastTime(start, calls), call);
  }

  lemma NotAdmittedIsFull(times: seq<int>, limit: nat, window: nat, now: int)
    requires limit >= 1 && window > 0 && !Admits(times, limit, window, now)
    requires (forall i, j :: 0 <= i < j < |times| ==> times[i] <= times[j]) && (forall i :: 0 <= i < |times| ==> times[i] <= now)
    ensures CountIn(times, now - window + 1, now + 1) >= limit
  {
    OpenWindowCounts(times, window, now);
    hide OpenWindow, CountIn;
    var (open, count) := OpenWindow(times, window).value;
    CountReachesBack(times, now - window + 1, open, now + 1);
  }

  lemma AgreesOrdered(s: State, times: seq<int>, clock: int, key: string, window: nat, now: int)
    requires Agrees(s, times, clock, key, window) && clock <= now
    ensures (forall i, j :: 0 <= i < j < |times| ==> times[i] <= times[j]) && (forall i :: 0 <= i < |times| ==> times[i] <= now)
  {
  }

  /** A refused call has seen the full limit of allowed calls within the last window. */
  lemma RefusedMeansFull(start: int, calls: seq<Call>, call: Call)
    requires 1 <= call.limit && 0 < call.window <= STALE
    requires Monotone(start, calls) && LastTime(start, calls) <= call.now
    requires NeverEvicted(State(map[], start), calls, call.key) && FixedPolicy(calls, call.key, call.limit, call.window)
    requires !Step(StateAfter(State(map[], start), calls), call).1
    ensures CountIn(AllowedTimes(State(map[], start), [], calls, call.key), call.now - call.window + 1, call.now + 1) >= call.limit
  {
    StartAgrees(start, call.key, call.window);
    hide *;
    AnswerExactly(start, calls, call);
    var times := AllowedTimes(State(map[], start), [], calls, call.key);
    RunAgrees(State(map[], start), [], start, calls, call.key, call.limit, call.window);
    AgreesOrdered(StateAfter(State(map[], start), calls), times, LastTime(start, calls), call.key, call.window, call.now);
    NotAdmittedIsFull(times, call.limit, call.window, call.now);
  }

  lemma {:induction false} CountReachesBack(times: seq<int>, a: int, b: int, c: int)
    requires a <= b
    ensures CountIn(times, b, c) <= CountIn(times, a, c)
    decreases |times|
  {
    if times != [] {
      CountReachesBack(times[..|times| - 1], a, b, c);
    }
  }

  // ---------------------------------------------------------------- the table stays small

  /** Keys that are given up for room are taken from the table. */
  predicate VictimsFromTable(s: State, calls: seq<Call>)
    decreases |calls|
  {
    calls != [] ==>
      && (Evicts(Cleanup(s, calls[0].now).windows, calls[0].key) ==> calls[0].victim in Cleanup(s, calls[0].now).windows)
      && VictimsFromTable(Step(s, calls[0]).0, calls[1..])
  }

  lemma CleanupShrinks(s: State, now: int)
    ensures |Cleanup(s, now).windows| <= |s.windows|
  {
    var after := Cleanup(s, now).windows;
    SmallerKeys(after, s.windows);
  }

  lemma StepStaysSmall(s: State, call: Call)
    requires |s.windows| <= MAX_TRACKED_KEYS
    requires Evicts(Cleanup(s, call.now).windows, call.key) ==> call.victim in Cleanup(s, call.now).windows
    ensures |Step(s, call).0.windows| <= MAX_TRACKED_KEYS
  {
    CleanupShrinks(s, call.now);
    hide Cleanup, Touch, Evicts;
    AddStaysSmall(Cleanup(s, call.now).windows, call.key, call.victim, Step(s, call).0.windows[call.key]);
  }

  /** The limiter never tracks more than 8192 keys. */
  lemma {:induction false} TableStaysSmall(s: State, calls: seq<Call>)
    requires |s.windows| <= MAX_TRACKED_KEYS && VictimsFromTable(s, calls)
    ensures |StateAfter(s, calls).windows| <= MAX_TRACKED_KEYS
    decreases |calls|
  {
    hide Step;
    if calls != [] {
      StepStaysSmall(s, calls[0]);
      TableStaysSmall(Step(s, calls[0]).0, calls[1..]);
    }
  }

  /** A cleanup that is due forgets every key not seen for the stale time, and no other. */
  lemma CleanupForgetsStale(s: State, now: int, key: string)
    requires key in s.windows && (now >= s.lastCleanupAt + 30 * SECOND || |s.windows| >= 8192) && s.windows[key].lastSeenAt <= now
    ensures key in Cleanup(s, now).windows <==> now < s.windows[key].lastSeenAt + 300 * SECOND
    ensures Cleanup(s, now).lastCleanupAt == now
  {
  }

  // ---------------------------------------------------------------- cleanup is invisible

  /** A limiter that never cleans up and never gives up a key. */
  function UnboundedStep(windows: map<string, Window>, call: Call): (map<string, Window>, bool) {
    var (entry, allowed) := Touch(EntryFor(windows, call), call.limit, call.window, call.now);
    (windows[call.key := entry], allowed)
  }

  function UnboundedAnswers(windows: map<string, Window>, calls: seq<Call>): seq<bool>
    decreases |calls|
  {
    if calls == [] then []
    else
      var (next, allowed) := UnboundedStep(windows, calls[0]);
      [allowed] + UnboundedAnswers(next, calls[1..])
  }

  predicate CapacityNeverFires(s: State, calls: seq<Call>)
    decreases |calls|
  {
    calls != [] ==>
      && !Evicts(Cleanup(s, calls[0].now).windows, calls[0].key)
      && CapacityNeverFires(Step(s, calls[0]).0, calls[1..])
  }

  predicate WindowsUpTo(calls: seq<Call>, longest: nat) {
    forall i :: 0 <= i < |calls| ==> calls[i].window <= longest
  }

  /** The cleaned limiter holds what the unbounded one holds, except entries too old for any window. */
  ghost predicate Related(windows: map<string, Window>, unbounded: map<string, Window>, clock: int) {
    && (forall k :: k in windows ==> k in unbounded && windows[k] == unbounded[k])
    && (forall k :: k in unbounded ==> unbounded[k].startedAt <= unbounded[k].lastSeenAt <= clock)
    && (forall k :: k in unbounded && k !in windows ==> unbounded[k].startedAt + STALE <= clock)
  }

  lemma OldEntryRestarts(entry: Window, call: Call)
    requires entry.startedAt + STALE <= call.now && call.window <= STALE
    ensures Touch(entry, call.limit, call.window, call.now)
         == Touch(Window(call.now, call.now, 0), call.limit, call.window, call.now)
  {
  }

  lemma TouchTimes(entry: Window, call: Call)
    requires entry.startedAt <= call.now
    ensures var after := Touch(entry, call.limit, call.window, call.now).0;
            after.startedAt <= after.lastSeenAt == call.now
  {
  }

  lemma StepWindows(s: State, call: Call)
    requires !Evicts(Cleanup(s, call.now).windows, call.key)
    ensures var cleaned := Cleanup(s, call.now).windows;
            var (entry, allowed) := Touch(EntryFor(cleaned, call), call.limit, call.window, call.now);
            Step(s, call).0.windows == cleaned[call.key := entry] && Step(s, call).1 == allowed
  {
  }

  lemma CleanupRelated(s: State, unbounded: map<string, Window>, clock: int, now: int)
    requires Related(s.windows, unbounded, clock) && clock <= now
    ensures Related(Cleanup(s, now).windows, unbounded, now)
  {
  }

  lemma RelatedStep(s: State, unbounded: map<string, Window>, clock: int, call: Call)
    requires Related(s.windows, unbounded, clock) && clock <= call.now && call.window <= STALE
    requires !Evicts(Cleanup(s, call.now).windows, call.key)
    ensures var (after, allowed) := Step(s, call);
            var (after', allowed') := UnboundedStep(unbounded, call);
            allowed == allowed' && Related(after.windows, after', call.now)
  {
    hide Cleanup, Step, Touch, Evicts;
    var cleaned := Cleanup(s, call.now).windows;
    CleanupRelated(s, unbounded, clock, call.now);
    StepWindows(s, call);
    var (entry, entry') := (EntryFor(cleaned, call), EntryFor(unbounded, call));
    if call.key in unbounded && call.key !in cleaned {
      OldEntryRestarts(entry', call);
    }
    TouchTimes(entry, call);
  }

  /** While capacity never fires, windows up to the stale time make cleanup invisible in every answer. */
  lemma {:induction false} CleanupInvisible(s: State, unbounded: map<string, Window>, clock: int, calls: seq<Call>)
    requires Related(s.windows, unbounded, clock) && Monotone(clock, calls)
    requires WindowsUpTo(calls, STALE) && CapacityNeverFires(s, calls)
    ensures Answers(s, calls) == UnboundedAnswers(unbounded, calls)
    decreases |calls|
  {
    hide Related, Step, UnboundedStep;
    if calls != [] {
      var call := calls[0];
      RelatedStep(s, unbounded, clock, call);
      assert WindowsUpTo(calls[1..], STALE) by {
        assert forall i :: 0 <= i < |calls| - 1 ==> calls[1..][i] == calls[i + 1];
      }
      CleanupInvisible(Step(s, call).0, UnboundedStep(unbounded, call).0, call.now, calls[1..]);
    }
  }

  /** Every run from an empty limiter, on windows up to `longest`, answers as without cleanup. */
  ghost predicate InvisibleUpTo(longest: nat) {
    forall start: int, calls: seq<Call> ::
      Monotone(start, calls) && WindowsUpTo(calls, longest) && CapacityNeverFires(State(map[], start), calls)
      ==> Answers(State(map[], start), calls) == UnboundedAnswers(map[], calls)
  }

  /** A window longer than the stale time is forgotten too early: the second call should have been refused. */
  lemma LongWindowForgotten(window: nat)
    requires window > STALE
    ensures var calls := [Call("k", 1, window, 0, ""), Call("k", 1, window, STALE, "")];
            && Monotone(0, calls) && WindowsUpTo(calls, window) && CapacityNeverFires(State(map[], 0), calls)
            && Answers(State(map[], 0), calls) == [true, true]
            && UnboundedAnswers(map[], calls) == [true, false]
  {
    var (c0, c1) := (Call("k", 1, window, 0, ""), Call("k", 1, window, STALE, ""));
    var calls := [c0, c1];
    var s0 := State(map[], 0);
    var s1 := State(map["k" := Window(0, 0, 1)], 0);
    assert Step(s0, c0) == (s1, true) && UnboundedStep(map[], c0) == (s1.windows, true);
    assert Cleanup(s1, STALE) == State(map[], STALE);
    assert Step(s1, c1).1 && !UnboundedStep(s1.windows, c1).1;
    hide Step, UnboundedStep, Cleanup;
    assert calls[1..] == [c1];
    assert CapacityNeverFires(s1, [c1]) by {
      assert |State(map[], STALE).windows| == 0;
    }
    assert Answers(s1, [c1]) == [true] && UnboundedAnswers(s1.windows, [c1]) == [false];
    assert Monotone(0, [c1]);
  }

  /** Cleanup is invisible on every run exactly for windows up to the stale time. */
  lemma InvisibleExactly(longest: nat)
    ensures InvisibleUpTo(longest) <==> longest <= STALE
  {
    if longest <= STALE {
      forall start: int, calls: seq<Call> |
        Monotone(start, calls) && WindowsUpTo(calls, longest) && CapacityNeverFires(State(map[], start), calls)
        ensures Answers(State(map[], start), calls) == UnboundedAnswers(map[], calls)
      {
        CleanupInvisible(State(map[], start), map[], start, calls);
      }
    } else {
      LongWindowForgotten(longest);
    }
  }

  /** A call marks its key as seen, whatever the answer, and the other keys stay, but for cleanup and eviction. */
  lemma CallIsSeen(s: State, call: Call, other: string)
    ensures var (next, room) := (Step(s, call).0, Cleanup(s, call.now).windows);
      && call.key in next.windows && next.windows[call.key].lastSeenAt == call.now
      && (other in room && other != call.key && !(Evicts(room, call.key) && other == call.victim) ==>
           other in next.windows && next.windows[other] == room[other])
      && (other in next.windows && other != call.key ==> other in room)
  {
  }
}
