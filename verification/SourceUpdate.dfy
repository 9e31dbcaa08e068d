/**
 Updating and deleting a source: database transactions and secret-store writes with
 compensation. Any step may fail; a failed secret write may or may not have reached its key.
 */
module SourceUpdate {
  import opened Text

  datatype Row = Row(name: string, updatedAt: int, details: string)

  /** A validated configuration, split into stored fields and secrets. */
  datatype Prepared = Prepared(plain: map<string, string>, secret: map<string, string>)

  /** The configuration part of an update; Rejected when it does not validate. */
  datatype Change = Keep | Replace(prepared: Prepared) | Rejected

  ghost predicate SameOutside(a: map<string, string>, b: map<string, string>, keys: seq<string>) {
    forall k :: k !in keys ==> Lookup(a, k) == Lookup(b, k)
  }

  ghost predicate AgreesOn(a: map<string, string>, b: map<string, string>, keys: seq<string>) {
    forall k :: k in keys ==> Lookup(a, k) == Lookup(b, k)
  }

  lemma SameEverywhere(a: map<string, string>, b: map<string, string>, keys: seq<string>)
    requires SameOutside(a, b, keys) && AgreesOn(a, b, keys)
    ensures a == b
  {
    forall k ensures (k in a <==> k in b) && (k in a ==> a[k] == b[k]) {
      assert Lookup(a, k) == Lookup(b, k);
    }
  }

  class Store {
    var row: Option<Row>
    var config: map<string, string>
    /** The secrets of the source's own scope. */
    var secrets: map<string, string>
    /** Which steps fail, and which failed secret writes took effect all the same. */
    const fails: nat -> bool
    const leaks: nat -> bool
    var steps: nat
    /** How many of the steps so far have failed. */
    var failures: nat

    constructor (row: Option<Row>, config: map<string, string>, secrets: map<string, string>, fails: nat -> bool, leaks: nat -> bool)
      ensures this.row == row && this.config == config && this.secrets == secrets && failures == 0
    {
      this.row, this.config, this.secrets, this.fails, this.leaks := row, config, secrets, fails, leaks;
      steps, failures := 0, 0;
    }

    /** Counts a step of the database or of the secret store. */
    method Attempt() returns (ok: bool)
      modifies `steps, `failures
      ensures ok <==> !fails(old(steps))
      ensures steps == old(steps) + 1 && failures == old(failures) + (if ok then 0 else 1)
    {
      ok := !fails(steps);
      steps := steps + 1;
      if !ok {
        failures := failures + 1;
      }
    }

    /** Sets or deletes one secret; deleting an absent one succeeds. */
    method WriteSecret(key: string, value: Option<string>) returns (ok: bool)
      modifies `secrets, `steps, `failures
      ensures SameOutside(secrets, old(secrets), [key])
      ensures ok ==> Lookup(secrets, key) == value
      ensures failures == old(failures) + (if ok then 0 else 1)
    {
      var leaked := leaks(steps);
      ok := Attempt();
      if ok || leaked {
        secrets := if value.Some? then secrets[key := value.value] else secrets - {key};
      }
    }

    /** One database transaction: all or nothing */
    method Commit(newRow: Option<Row>, newConfig: map<string, string>) returns (ok: bool)
      modifies `row, `config, `steps, `failures
      ensures ok ==> row == newRow && config == newConfig
      ensures !ok ==> row == old(row) && config == old(config)
      ensures failures == old(failures) + (if ok then 0 else 1)
    {
      ok := Attempt();
      if ok {
        row, config := newRow, newConfig;
      }
    }

    /** That many reads in a row (rows, the plugin, key lists, the clock), up to the first failure. */
    method Read(count: nat) returns (ok: bool)
      modifies `steps, `failures
      ensures failures == old(failures) + (if ok then 0 else 1)
    {
      for i := 0 to count
        invariant failures == old(failures)
      {
        ok := Attempt();
        if !ok {
          return;
        }
      }
      ok := true;
    }

    /** `snapshot_source_secret_values`: a secret that is not in the source's scope is looked up in the plugin's. */
    method ReadEffectiveSecrets(fields: seq<string>) returns (ok: bool)
      modifies `steps, `failures
      ensures failures == old(failures) + (if ok then 0 else 1)
    {
      for i := 0 to |fields|
        invariant failures == old(failures)
      {
        ok := Read(if fields[i] in secrets then 1 else 2);
        if !ok {
          return;
        }
      }
      ok := true;
    }

    /** `snapshot_secret_values`; None when reading fails */
    method Snapshot(fields: seq<string>) returns (snapshot: Option<map<string, string>>)
      modifies `steps, `failures
      ensures snapshot.Some? ==> AgreesOn(snapshot.value, secrets, fields)
      ensures failures == old(failures) + (if snapshot.Some? then 0 else 1)
    {
      var values: map<string, string> := map[];
      for i := 0 to |fields|
        invariant forall k :: k in values ==> k in fields[..i]
        invariant AgreesOn(values, secrets, fields[..i])
        invariant failures == old(failures)
      {
        var read := Attempt();
        if !read {
          return None;
        }
        assert fields[..i + 1] == fields[..i] + [fields[i]];
        if fields[i] in secrets {
          values := values[fields[i] := secrets[fields[i]]];
        }
      }
      assert fields[..|fields|] == fields;
      snapshot := Some(values);
    }

    /** Writes each field to its value in `wanted`, and stops at the first failure. */
    method WriteFields(fields: seq<string>, wanted: map<string, string>) returns (ok: bool)
      modifies `secrets, `steps, `failures
      ensures SameOutside(secrets, old(secrets), fields)
      ensures ok ==> AgreesOn(secrets, wanted, fields)
      ensures failures == old(failures) + (if ok then 0 else 1)
    {
      for i := 0 to |fields|
        invariant SameOutside(secrets, old(secrets), fields[..i])
        invariant AgreesOn(secrets, wanted, fields[..i])
        invariant failures == old(failures)
      {
        label before:
        assert fields[..i + 1] == fields[..i] + [fields[i]];
        ok := WriteSecret(fields[i], Lookup(wanted, fields[i]));
        assert forall k :: k != fields[i] ==> k !in [fields[i]] && Lookup(secrets, k) == Lookup(old@before(secrets), k);
        if !ok {
          assert forall k :: k !in fields ==> k !in fields[..i];
          assert fields[i] in fields;
          return;
        }
      }
      assert fields[..|fields|] == fields;
      ok := true;
    }

    /** `persist_source_secrets` with pruning: sets what is there, then deletes the other secret fields. */
    method PersistSecrets(fields: seq<string>, secret: map<string, string>) returns (ok: bool)
      requires forall k :: k in secret ==> k in fields
      modifies `secrets, `steps, `failures
      ensures SameOutside(secrets, old(secrets), fields)
      ensures ok ==> AgreesOn(secrets, secret, fields)
      ensures failures == old(failures) + (if ok then 0 else 1)
    {
      var rest := secret.Keys;
      while rest != {}
        invariant rest <= secret.Keys
        invariant SameOutside(secrets, old(secrets), fields) && failures == old(failures)
        invariant forall k :: k in secret.Keys - rest ==> Lookup(secrets, k) == Some(secret[k])
        decreases |rest|
      {
        var key :| key in rest;
        rest := rest - {key};
        label before:
        ok := WriteSecret(key, Some(secret[key]));
        assert forall k :: k != key ==> k !in [key] && Lookup(secrets, k) == Lookup(old@before(secrets), k);
        if !ok {
          return;
        }
      }
      for i := 0 to |fields|
        invariant SameOutside(secrets, old(secrets), fields) && failures == old(failures)
        invariant forall k :: k in secret ==> Lookup(secrets, k) == Some(secret[k])
        invariant forall k :: k in fields[..i] && k !in secret ==> Lookup(secrets, k) == None
      {
        assert fields[..i + 1] == fields[..i] + [fields[i]];
        if fields[i] !in secret {
          label pruning:
          ok := WriteSecret(fields[i], None);
          assert forall k :: k != fields[i] ==> k !in [fields[i]] && Lookup(secrets, k) == Lookup(old@pruning(secrets), k);
          if !ok {
            return;
          }
        }
      }
      assert fields[..|fields|] == fields;
      ok := true;
    }

    /** The row that `update_source` writes */
    function Renamed(source: Row, name: Option<string>, now: int): Row {
      source.(name := if name.Some? then Trim(name.value) else source.name, updatedAt := now)
    }

    /** What the request itself must satisfy: the source exists, the configuration is valid, the name is not blank. */
    predicate Acceptable(name: Option<string>, change: Change)
      reads this
    {
      row.Some? && !change.Rejected? && (name.Some? ==> Trim(name.value) != "")
    }

    /**
     `update_source`. It succeeds exactly when the request is acceptable and no step fails, and
     then the row, the configuration and every secret field are the new ones. If one step fails,
     wherever that is, the row, the stored configuration and all secrets equal their values before
     the call; with more failures, that is with failing compensation, the row and configuration
     still belong together and no secret outside the fields is touched.
     */
    method UpdateSource(fields: seq<string>, name: Option<string>, change: Change, now: int) returns (ok: bool)
      requires change.Replace? ==> forall k :: k in change.prepared.secret ==> k in fields
      modifies this
      ensures ok <==> old(Acceptable(name, change)) && failures == old(failures)
      ensures ok ==> row == Some(Renamed(old(row).value, name, now))
      ensures ok ==> row == Some(Row(if name.Some? then Trim(name.value) else old(row).value.name, now, old(row).value.details))
      ensures ok && change.Replace? ==> config == change.prepared.plain && AgreesOn(secrets, change.prepared.secret, fields)
      ensures ok && change.Keep? ==> config == old(config) && secrets == old(secrets)
      ensures !ok && failures <= old(failures) + 1 ==> row == old(row) && config == old(config) && secrets == old(secrets)
      ensures !ok ==> (
          || (row == old(row) && config == old(config))
          || (old(row).Some? && change.Replace? && row == Some(Renamed(old(row).value, name, now)) && config == change.prepared.plain))
      ensures SameOutside(secrets, old(secrets), fields)
    {
      hide Trim;
      ok := Read(1);
      if !ok || row.None? {
        return false;
      }
      // The plugin and the stored configuration
      ok := Read(2);
      if !ok {
        return;
      }
      var (source, storedConfig) := (row.value, config);
      var snapshot := Snapshot(fields);
      if snapshot.None? {
        return false;
      }
      ok := ReadEffectiveSecrets(fields);
      if !ok || change.Rejected? {
        return false;
      }
      if change.Keep? {
        // The two key lists for the masked answer
        ok := Read(2);
        if !ok {
          return;
        }
      }
      var updated := source;
      if name.Some? {
        if Trim(name.value) == "" {
          return false;
        }
        updated := updated.(name := Trim(name.value));
      }
      ok := Read(1);
      if !ok {
        return;
      }
      updated := updated.(updatedAt := now);
      ok := Commit(Some(updated), if change.Replace? then change.prepared.plain else config);
      if !ok {
        return;
      }
      if change.Replace? {
        ok := PersistSecrets(fields, change.prepared.secret);
        if !ok {
          var _ := Commit(Some(source), storedConfig);
          var restored := WriteFields(fields, snapshot.value);
          if restored {
            SameEverywhere(secrets, old(secrets), fields);
          }
        }
      }
    }

    /** `delete_source`, with the same compensation for the secrets. */
    method DeleteSource(fields: seq<string>) returns (ok: bool)
      modifies this
      ensures ok <==> old(row).Some? && failures == old(failures)
      ensures ok ==> row == None && config == map[] && AgreesOn(secrets, map[], fields)
      ensures !ok ==> row == old(row) && config == old(config)
      ensures !ok && failures <= old(failures) + 1 ==> secrets == old(secrets)
      ensures SameOutside(secrets, old(secrets), fields)
    {
      ok := Read(1);
      if !ok || row.None? {
        return false;
      }
      // The plugin
      ok := Read(1);
      if !ok {
        return;
      }
      var snapshot := Snapshot(fields);
      if snapshot.None? {
        return false;
      }
      ok := WriteFields(fields, map[]);
      if ok {
        ok := Commit(None, map[]);
      }
      if !ok {
        var restored := WriteFields(fields, snapshot.value);
        if restored {
          SameEverywhere(secrets, old(secrets), fields);
        }
      }
    }
  }
}
