/** What the rate limiter and the login failure tracker share: their limits, and giving up the oldest key. */
module KeyWindows {

  // Instants and durations are nanoseconds.
  const SECOND: nat := 1_000_000_000
  const STALE: nat := 300 * SECOND
  const CLEANUP_INTERVAL: nat := 30 * SECOND
  const MAX_TRACKED_KEYS: nat := 8192

  /** `Instant::duration_since` saturates at zero. */
  function Since(now: int, earlier: int): nat {
    if now >= earlier then now - earlier else 0
  }

  ghost predicate IsOldest<W>(windows: map<string, W>, lastSeenAt: W -> int, key: string) {
    key in windows && forall k :: k in windows ==> lastSeenAt(windows[key]) <= lastSeenAt(windows[k])
  }

  /** A new key makes room for itself when the table is full. */
  predicate Evicts<W>(windows: map<string, W>, key: string) {
    key !in windows && |windows| >= MAX_TRACKED_KEYS
  }

  /** The `min_by_key` scan, in whatever order the keys come. */
  method FindOldest<W>(windows: map<string, W>, lastSeenAt: W -> int) returns (oldest: string)
    requires |windows| > 0
    ensures IsOldest(windows, lastSeenAt, oldest)
  {
    var rest := windows.Keys;
    assert |rest| == |windows|;
    oldest :| oldest in rest;
    rest := rest - {oldest};
    while rest != {}
      invariant oldest in windows && rest <= windows.Keys
      invariant forall k :: k in windows && k !in rest ==> lastSeenAt(windows[oldest]) <= lastSeenAt(windows[k])
      decreases |rest|
    {
      var k :| k in rest;
      if lastSeenAt(windows[k]) < lastSeenAt(windows[oldest]) {
        oldest := k;
      }
      rest := rest - {k};
    }
  }

  lemma SmallerKeys<W>(a: map<string, W>, b: map<string, W>)
    requires a.Keys <= b.Keys
    ensures |a| <= |b|
  {
    SmallerSet(a.Keys, b.Keys);
  }

  lemma {:induction false} SmallerSet(a: set<string>, b: set<string>)
    requires a <= b
    ensures |a| <= |b|
  {
    if a != {} {
      var x :| x in a;
      SmallerSet(a - {x}, b - {x});
    }
  }

  /** Adding a key, after making room if need be, keeps the table within its limit. */
  lemma AddStaysSmall<W>(windows: map<string, W>, key: string, victim: string, entry: W)
    requires |windows| <= MAX_TRACKED_KEYS && (Evicts(windows, key) ==> victim in windows)
    ensures |(if Evicts(windows, key) then windows - {victim} else windows)[key := entry]| <= MAX_TRACKED_KEYS
  {
    var room := if Evicts(windows, key) then windows - {victim} else windows;
    assert |windows.Keys| == |windows| && |room.Keys| == |room|;
    if Evicts(windows, key) {
      assert room.Keys == windows.Keys - {victim};
    }
    assert room[key := entry].Keys == room.Keys + {key};
    assert |room[key := entry].Keys| == |room[key := entry]|;
    assert key in windows ==> room.Keys + {key} == windows.Keys;
  }
}
