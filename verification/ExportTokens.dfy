/**
 Export tokens of profiles: the export_tokens table and the three operations that change it.
 Rows are keyed by the token text, which is unique in the table; times are seconds.
 */
module ExportTokens {
  import opened Text

  const GRACE_SECONDS := 600

  datatype Row = Row(profile: string, createdAt: int, expiresAt: Option<int>)

  type Table = map<string, Row>

  /** An operation with the token it would issue: a generated one, or the configured one. */
  datatype Op =
    | Ensure(profile: string, token: string)
    | Rotate(profile: string, token: string)
    | Configure(profile: string, token: string)

  datatype Event = Event(op: Op, now: int)

  predicate IsActive(table: Table, profile: string, token: string) {
    token in table && table[token].profile == profile && table[token].expiresAt == None
  }

  predicate IsValid(table: Table, profile: string, token: string, now: int) {
    token in table && table[token].profile == profile && (table[token].expiresAt.None? || table[token].expiresAt.value > now)
  }

  /** The token that `get_active_token` finds; there is at most one candidate in a reachable table. */
  ghost function Active(table: Table, profile: string): (token: Option<string>)
    ensures token.Some? ==> IsActive(table, profile, token.value)
    ensures token.None? ==> forall t :: !IsActive(table, profile, t)
  {
    if exists t :: IsActive(table, profile, t) then var t :| IsActive(table, profile, t); Some(t) else None
  }

  function Retire(table: Table, profile: string, deadline: int): Table {
    map t | t in table :: if IsActive(table, profile, t) then table[t].(expiresAt := Some(deadline)) else table[t]
  }

  predicate IsExpired(row: Row, profile: string, now: int) {
    row.profile == profile && row.expiresAt.Some? && row.expiresAt.value <= now
  }

  function Purge(table: Table, profile: string, now: int): Table {
    map t | t in table && !IsExpired(table[t], profile, now) :: table[t]
  }

  /** One transaction; a token that is already in the table makes it fail as a whole. */
  function Replace(table: Table, profile: string, token: string, deadline: int, now: int, purging: bool): (Table, Option<string>) {
    if token in table then (table, None)
    else
      var issued := Retire(table, profile, deadline)[token := Row(profile, now, None)];
      (if purging then Purge(issued, profile, now) else issued, Some(token))
  }

  function Issue(table: Table, profile: string, token: string, now: int): (Table, Option<string>) {
    if token in table then (table, None) else (table[token := Row(profile, now, None)], Some(token))
  }

  /** The table after an operation and the token it reports, None for an error; `purging` is false only for comparison. */
  ghost function Step(table: Table, op: Op, now: int, purging: bool): (Table, Option<string>) {
    var active := Active(table, op.profile);
    match op
    case Ensure(profile, token) =>
      if active.Some? then (table, active) else Issue(table, profile, token, now)
    case Rotate(profile, token) =>
      Replace(table, profile, token, now + GRACE_SECONDS, now, purging)
    case Configure(profile, token) =>
      if active.None? then Issue(table, profile, token, now)
      else if active.value == token then (table, active)
      else Replace(table, profile, token, now, now, purging)
  }

  ghost function Run(table: Table, events: seq<Event>, purging: bool): (Table, seq<Option<string>>)
    decreases |events|
  {
    if events == [] then (table, [])
    else
      var (next, reply) := Step(table, events[0].op, events[0].now, purging);
      var (end, replies) := Run(next, events[1..], purging);
      (end, [reply] + replies)
  }

  /** The clock readings never go back. */
  predicate Monotone(start: int, events: seq<Event>)
    decreases |events|
  {
    events == [] || (start <= events[0].now && Monotone(events[0].now, events[1..]))
  }

  function EndTime(start: int, events: seq<Event>): int
    decreases |events|
  {
    if events == [] then start else EndTime(events[0].now, events[1..])
  }

  lemma {:induction false} EndTimeGrows(start: int, events: seq<Event>)
    requires Monotone(start, events)
    ensures start <= EndTime(start, events)
    decreases |events|
  {
    if events == [] {
    } else {
      EndTimeGrows(events[0].now, events[1..]);
    }
  }

  // ---------------------------------------------------------------- the repository

  class TokenTable {
    var rows: Table

    constructor ()
      ensures rows == map[]
    {
      rows := map[];
    }

    method Insert(profile: string, token: string, createdAt: int) returns (ok: bool)
      modifies this
      ensures (rows, if ok then Some(token) else None) == Issue(old(rows), profile, token, createdAt)
    {
      ok := token !in rows;
      if ok {
        rows := rows[token := Row(profile, createdAt, None)];
      }
    }

    /** The newest of the profile's tokens without an expiry. */
    method GetActive(profile: string) returns (token: Option<string>)
      ensures token.None? ==> forall t :: !IsActive(rows, profile, t)
      ensures token.Some? ==> IsActive(rows, profile, token.value)
      ensures token.Some? ==> forall t :: IsActive(rows, profile, t) ==> rows[t].createdAt <= rows[token.value].createdAt
    {
      token := None;
      var rest := rows.Keys;
      while rest != {}
        invariant rest <= rows.Keys
        invariant token.None? ==> forall t :: t !in rest ==> !IsActive(rows, profile, t)
        invariant token.Some? ==> IsActive(rows, profile, token.value)
        invariant token.Some? ==> forall t :: t !in rest && IsActive(rows, profile, t) ==> rows[t].createdAt <= rows[token.value].createdAt
        decreases |rest|
      {
        var t :| t in rest;
        rest := rest - {t};
        if IsActive(rows, profile, t) && (token.None? || rows[token.value].createdAt <= rows[t].createdAt) {
          token := Some(t);
        }
      }
    }

    method IsValidToken(profile: string, token: string, now: int) returns (valid: bool)
      ensures valid <==> IsValid(rows, profile, token, now)
    {
      valid := false;
      if token in rows && rows[token].profile == profile {
        valid := rows[token].expiresAt.None? || rows[token].expiresAt.value > now;
      }
    }

    /** `rotate_primary_token_with_grace`: UPDATE, INSERT, DELETE, and a rollback when INSERT fails. */
    method RotatePrimary(profile: string, token: string, deadline: int, now: int) returns (ok: bool)
      modifies this
      ensures (rows, if ok then Some(token) else None) == Replace(old(rows), profile, token, deadline, now, true)
    {
      var saved := rows;
      rows := map t | t in rows :: if IsActive(rows, profile, t) then rows[t].(expiresAt := Some(deadline)) else rows[t];
      ok := Insert(profile, token, now);
      if !ok {
        rows := saved;
        return;
      }
      rows := map t | t in rows && !IsExpired(rows[t], profile, now) :: rows[t];
    }

    /** `ensure_profile_export_token` with the token it would generate */
    method EnsureToken(profile: string, generated: string, now: int) returns (token: Option<string>)
      requires OneActive(rows)
      modifies this
      ensures (rows, token) == Step(old(rows), Ensure(profile, generated), now, true) && OneActive(rows)
    {
      StepKeepsOneActive(rows, Ensure(profile, generated), now, true);
      token := GetActive(profile);
      if token.Some? {
        return;
      }
      var ok := Insert(profile, generated, now);
      token := if ok then Some(generated) else None;
    }

    /** `rotate_profile_export_token` */
    method RotateToken(profile: string, generated: string, now: int) returns (token: Option<string>)
      requires OneActive(rows)
      modifies this
      ensures (rows, token) == Step(old(rows), Rotate(profile, generated), now, true) && OneActive(rows)
    {
      StepKeepsOneActive(rows, Rotate(profile, generated), now, true);
      var ok := RotatePrimary(profile, generated, now + GRACE_SECONDS, now);
      token := if ok then Some(generated) else None;
    }

    /** The headless `ensure_export_token` for a profile with a configured token */
    method ConfigureToken(profile: string, configured: string, now: int) returns (token: Option<string>)
      requires OneActive(rows)
      modifies this
      ensures (rows, token) == Step(old(rows), Configure(profile, configured), now, true) && OneActive(rows)
    {
      StepKeepsOneActive(rows, Configure(profile, configured), now, true);
      token := GetActive(profile);
      if token.Some? && token.value == configured {
        return;
      }
      var ok;
      if token.Some? {
        ok := RotatePrimary(profile, configured, now, now);
      } else {
        ok := Insert(profile, configured, now);
      }
      token := if ok then Some(configured) else None;
    }
  }

  // ---------------------------------------------------------------- one token without expiry

  ghost predicate OneActive(table: Table) {
    forall profile, s, t :: IsActive(table, profile, s) && IsActive(table, profile, t) ==> s == t
  }

  lemma StepKeepsOneActive(table: Table, op: Op, now: int, purging: bool)
    requires OneActive(table)
    ensures OneActive(Step(table, op, now, purging).0)
  {
    var next := Step(table, op, now, purging).0;
    forall profile, s, t | IsActive(next, profile, s) && IsActive(next, profile, t) ensures s == t {
      assert s == op.token || IsActive(table, profile, s);
      assert t == op.token || IsActive(table, profile, t);
    }
  }

  lemma {:induction false} RunKeepsOneActive(table: Table, events: seq<Event>, purging: bool)
    requires OneActive(table)
    ensures OneActive(Run(table, events, purging).0)
    decreases |events|
  {
    if events == [] {
    } else {
      StepKeepsOneActive(table, events[0].op, events[0].now, purging);
      RunKeepsOneActive(Step(table, events[0].op, events[0].now, purging).0, events[1..], purging);
    }
  }

  /** From an empty table on, a profile never has two tokens without expiry. */
  lemma ReachableHasOneActive(events: seq<Event>, profile: string, s: string, t: string)
    requires IsActive(Run(map[], events, true).0, profile, s)
    requires IsActive(Run(map[], events, true).0, profile, t)
    ensures s == t
  {
    RunKeepsOneActive(map[], events, true);
  }

  /** Configuring succeeds for the active token and for one the table does not know; a token still stored as retired is refused. */
  lemma ConfigureSucceedsExactly(table: Table, profile: string, token: string, now: int)
    requires OneActive(table)
    ensures Step(table, Configure(profile, token), now, true).1.Some? <==> IsActive(table, profile, token) || token !in table
    ensures Step(table, Configure(profile, token), now, true).1.Some? ==>
      IsActive(Step(table, Configure(profile, token), now, true).0, profile, token)
  {
  }

  /** After a rotation at time 0 the old token cannot be configured again, although at 1000 it is long expired. */
  lemma ExpiredTokenRefused()
    ensures var rotated := Step(map["old" := Row("p", 0, None)], Rotate("p", "new"), 0, true).0;
      && !IsValid(rotated, "p", "old", 1000)
      && Step(rotated, Configure("p", "old"), 1000, true).1 == None
  {
    var table := map["old" := Row("p", 0, None)];
    var rotated := Step(table, Rotate("p", "new"), 0, true).0;
    assert IsActive(table, "p", "old");
    assert rotated["old"] == Row("p", 0, Some(GRACE_SECONDS));
    assert OneActive(table);
    StepKeepsOneActive(table, Rotate("p", "new"), 0, true);
    ConfigureSucceedsExactly(rotated, "p", "old", 1000);
  }

  // ---------------------------------------------------------------- a retired token

  predicate IsRetired(table: Table, profile: string, token: string, deadline: int) {
    token in table && table[token].profile == profile && table[token].expiresAt == Some(deadline)
  }

  /** A retired token keeps its first deadline, whatever happens next, until it is purged at or after that deadline. */
  lemma RetiredStep(table: Table, profile: string, token: string, deadline: int, op: Op, now: int)
    requires IsRetired(table, profile, token, deadline)
    ensures var next := Step(table, op, now, true).0;
      IsRetired(next, profile, token, deadline) || (token !in next && deadline <= now)
  {
  }

  lemma UnknownStep(table: Table, token: string, op: Op, now: int)
    requires token !in table && op.token != token
    ensures token !in Step(table, op, now, true).0
  {
  }

  lemma {:induction false} RetiredRun(table: Table, profile: string, token: string, deadline: int, start: int, events: seq<Event>)
    requires IsRetired(table, profile, token, deadline) || (token !in table && deadline <= start)
    requires Monotone(start, events)
    requires forall i :: 0 <= i < |events| ==> events[i].op.token != token
    ensures var end := Run(table, events, true).0;
      IsRetired(end, profile, token, deadline) || (token !in end && deadline <= EndTime(start, events))
    decreases |events|
  {
    if events == [] {
    } else {
      var (op, now) := (events[0].op, events[0].now);
      if token in table {
        RetiredStep(table, profile, token, deadline, op, now);
      } else {
        UnknownStep(table, token, op, now);
      }
      RetiredRun(Step(table, op, now, true).0, profile, token, deadline, now, events[1..]);
    }
  }

  /** Before its deadline a retired token cannot even be issued again: it stays as it is on every run. */
  lemma {:induction false} RetiredUntilDeadline(table: Table, profile: string, token: string, deadline: int, events: seq<Event>)
    requires IsRetired(table, profile, token, deadline)
    requires forall i :: 0 <= i < |events| ==> events[i].now < deadline
    ensures IsRetired(Run(table, events, true).0, profile, token, deadline)
    decreases |events|
  {
    if events == [] {
    } else {
      RetiredStep(table, profile, token, deadline, events[0].op, events[0].now);
      RetiredUntilDeadline(Step(table, events[0].op, events[0].now, true).0, profile, token, deadline, events[1..]);
    }
  }

  /**
   A token replaced by a rotation at `now` stays valid exactly for the grace period, on every
   later run that does not issue it again, and its successor is the active token.
   */
  lemma GraceIsExact(table: Table, profile: string, token: string, successor: string, now: int, events: seq<Event>, query: int)
    requires IsActive(table, profile, token) && successor !in table
    requires Monotone(now, events) && EndTime(now, events) <= query
    requires forall i :: 0 <= i < |events| ==> events[i].op.token != token
    ensures var rotated := Step(table, Rotate(profile, successor), now, true).0;
      IsActive(rotated, profile, successor) &&
      (IsValid(Run(rotated, events, true).0, profile, token, query) <==> query < now + GRACE_SECONDS)
  {
    var rotated := Step(table, Rotate(profile, successor), now, true).0;
    assert IsRetired(rotated, profile, token, now + GRACE_SECONDS);
    RetiredRun(rotated, profile, token, now + GRACE_SECONDS, now, events);
  }

  /** A token replaced by another configured one is invalid at once and for good. */
  lemma ConfiguredAwayAtOnce(table: Table, profile: string, token: string, configured: string, now: int, events: seq<Event>, query: int)
    requires OneActive(table) && IsActive(table, profile, token) && configured !in table
    requires Monotone(now, events) && EndTime(now, events) <= query
    requires forall i :: 0 <= i < |events| ==> events[i].op.token != token
    ensures !IsValid(Run(Step(table, Configure(profile, configured), now, true).0, events, true).0, profile, token, query)
  {
    var replaced := Step(table, Configure(profile, configured), now, true).0;
    assert token !in replaced;
    EndTimeGrows(now, events);
    RetiredRun(replaced, profile, token, now, now, events);
  }

  /** No operation touches the tokens of another profile. */
  lemma OtherProfilesUntouched(table: Table, op: Op, now: int, token: string)
    requires token in table && table[token].profile != op.profile
    ensures var next := Step(table, op, now, true).0; token in next && next[token] == table[token]
  {
  }

  // ---------------------------------------------------------------- the purge is invisible

  /** `kept` is `purged` with tokens that had expired by `clock` still in it. */
  ghost predicate Shadows(kept: Table, purged: Table, clock: int) {
    && (forall t :: t in purged ==> t in kept && kept[t] == purged[t])
    && (forall t :: t in kept && t !in purged ==> kept[t].expiresAt.Some? && kept[t].expiresAt.value <= clock)
  }

  lemma SameActive(kept: Table, purged: Table, clock: int, profile: string)
    requires Shadows(kept, purged, clock) && OneActive(kept)
    ensures Active(kept, profile) == Active(purged, profile)
  {
    assert forall t :: IsActive(kept, profile, t) <==> IsActive(purged, profile, t);
  }

  lemma SameValidity(kept: Table, purged: Table, clock: int, profile: string, token: string, query: int)
    requires Shadows(kept, purged, clock) && clock <= query
    ensures IsValid(kept, profile, token, query) <==> IsValid(purged, profile, token, query)
  {
  }

  /** The operation reaches its INSERT. */
  ghost predicate Issues(table: Table, op: Op) {
    var active := Active(table, op.profile);
    op.Rotate? || active.None? || (op.Configure? && active.value != op.token)
  }

  lemma IssueShadows(kept: Table, purged: Table, clock: int, profile: string, token: string, now: int)
    requires Shadows(kept, purged, clock) && clock <= now
    ensures var (kept', purged') := (Issue(kept, profile, token, now), Issue(purged, profile, token, now));
      && (kept'.1 == purged'.1 <==> !(token in kept && token !in purged))
      && (kept'.1 == purged'.1 ==> Shadows(kept'.0, purged'.0, now))
  {
  }

  lemma ReplaceShadows(kept: Table, purged: Table, clock: int, profile: string, token: string, deadline: int, now: int)
    requires Shadows(kept, purged, clock) && clock <= now
    ensures var (kept', purged') := (Replace(kept, profile, token, deadline, now, false), Replace(purged, profile, token, deadline, now, true));
      && (kept'.1 == purged'.1 <==> !(token in kept && token !in purged))
      && (kept'.1 == purged'.1 ==> Shadows(kept'.0, purged'.0, now))
  {
  }

  /** Keeping expired tokens makes a difference exactly when an operation issues one of them again. */
  lemma PurgeInvisibleInStep(kept: Table, purged: Table, clock: int, op: Op, now: int)
    requires Shadows(kept, purged, clock) && OneActive(kept) && clock <= now
    ensures var (kept', purged') := (Step(kept, op, now, false), Step(purged, op, now, true));
      && (kept'.1 == purged'.1 <==> !(Issues(kept, op) && op.token in kept && op.token !in purged))
      && (kept'.1 == purged'.1 ==> Shadows(kept'.0, purged'.0, now))
  {
    SameActive(kept, purged, clock, op.profile);
    match op
    case Ensure(profile, token) => IssueShadows(kept, purged, clock, profile, token, now);
    case Rotate(profile, token) => ReplaceShadows(kept, purged, clock, profile, token, now + GRACE_SECONDS, now);
    case Configure(profile, token) =>
      IssueShadows(kept, purged, clock, profile, token, now);
      ReplaceShadows(kept, purged, clock, profile, token, now, now);
    hide Active, OneActive, Issue, Replace;
  }

  /** No operation of the run offers a token that has been purged. */
  ghost predicate NeverReissues(kept: Table, purged: Table, events: seq<Event>)
    decreases |events|
  {
    events == [] ||
    (var (op, now) := (events[0].op, events[0].now);
     (op.token in kept ==> op.token in purged)
     && NeverReissues(Step(kept, op, now, false).0, Step(purged, op, now, true).0, events[1..]))
  }

  lemma {:induction false} PurgeInvisible(kept: Table, purged: Table, start: int, events: seq<Event>)
    requires Shadows(kept, purged, start) && OneActive(kept)
    requires Monotone(start, events) && NeverReissues(kept, purged, events)
    ensures Run(kept, events, false).1 == Run(purged, events, true).1
    ensures forall profile, token, query :: EndTime(start, events) <= query ==>
      (IsValid(Run(kept, events, false).0, profile, token, query) <==> IsValid(Run(purged, events, true).0, profile, token, query))
    decreases |events|
  {
    if events == [] {
      forall profile, token, query | start <= query
        ensures IsValid(kept, profile, token, query) <==> IsValid(purged, profile, token, query)
      {
        SameValidity(kept, purged, start, profile, token, query);
      }
    } else {
      var (op, now) := (events[0].op, events[0].now);
      PurgeInvisibleInStep(kept, purged, start, op, now);
      StepKeepsOneActive(kept, op, now, false);
      PurgeInvisible(Step(kept, op, now, false).0, Step(purged, op, now, true).0, now, events[1..]);
      hide Step, Shadows, OneActive, IsValid;
    }
  }

  // ---------------------------------------------------------------- what single operations do, row by row

  /** What is left of a row of the profile when its tokens are replaced: a token without expiry gets the deadline, expired ones go. */
  function Replaced(row: Row, deadline: int, now: int): Option<Row> {
    var retired := if row.expiresAt.None? then row.(expiresAt := Some(deadline)) else row;
    if retired.expiresAt.value <= now then None else Some(retired)
  }

  ghost predicate ReplacedRows(table: Table, next: Table, profile: string, token: string, deadline: int, now: int) {
    && token in next && next[token] == Row(profile, now, None)
    && (forall t :: t in next && t != token ==> t in table)
    && (forall t :: t in table && table[t].profile != profile ==> t in next && next[t] == table[t])
    && (forall t :: t in table && table[t].profile == profile ==>
         (t in next <==> Replaced(table[t], deadline, now).Some?) && (t in next ==> Some(next[t]) == Replaced(table[t], deadline, now)))
  }

  /** A rotation fails, and changes nothing, exactly for a token that is in the table. */
  lemma RotateExactly(table: Table, profile: string, token: string, now: int)
    ensures var (next, reply) := Step(table, Rotate(profile, token), now, true);
      && (token in table ==> reply == None && next == table)
      && (token !in table ==> reply == Some(token) && ReplacedRows(table, next, profile, token, now + 600, now))
  {
  }

  /** An active token is returned as it is; otherwise the generated one is added, unless it is taken. */
  lemma EnsureExactly(table: Table, profile: string, token: string, now: int)
    ensures var (next, reply) := Step(table, Ensure(profile, token), now, true);
      && ((exists t :: IsActive(table, profile, t)) ==> next == table && reply.Some? && IsActive(table, profile, reply.value))
      && ((forall t :: !IsActive(table, profile, t)) && token in table ==> next == table && reply == None)
      && ((forall t :: !IsActive(table, profile, t)) && token !in table ==>
           reply == Some(token) && next == table[token := Row(profile, now, None)])
  {
  }

  /** Configuring the active token changes nothing; another one replaces it without grace; without an active token it is added. */
  lemma ConfigureExactly(table: Table, profile: string, token: string, now: int)
    requires OneActive(table)
    ensures var (next, reply) := Step(table, Configure(profile, token), now, true);
      && (IsActive(table, profile, token) ==> next == table && reply == Some(token))
      && (token in table && !IsActive(table, profile, token) ==> next == table && reply == None)
      && (token !in table && (exists t :: IsActive(table, profile, t)) ==>
           reply == Some(token) && ReplacedRows(table, next, profile, token, now, now))
      && (token !in table && (forall t :: !IsActive(table, profile, t)) ==>
           reply == Some(token) && next == table[token := Row(profile, now, None)])
  {
  }
}
