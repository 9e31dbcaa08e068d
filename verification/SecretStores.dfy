/**
 Two secret stores behind one interface. The memory store nests a map per scope; the keyring
 store has one flat entry per secret and, per scope, an entry that lists the scope's keys.
 */
module SecretStores {
  import opened Text

  const INDEX_KEY := "__keys__"

  predicate IsNameChar(c: char) {
    'a' <= c <= 'z' || 'A' <= c <= 'Z' || '0' <= c <= '9' || c == '.' || c == '_' || c == '-'
  }

  predicate IsName(s: string) {
    s != "" && forall i :: 0 <= i < |s| ==> IsNameChar(s[i])
  }

  predicate ValidScope(scope: string) {
    scope == "system" || ((StartsWith(scope, "plugin:") || StartsWith(scope, "source:")) && IsName(scope[7..]))
  }

  predicate ValidKey(key: string) {
    IsName(key)
  }

  function StorageKey(scope: string, key: string): string {
    "subforge:" + scope + ":" + key
  }

  /** The last colon of a storage key is the separator, as valid keys have none. */
  lemma StorageKeySplits(scope: string, key: string)
    requires ValidKey(key)
    ensures RSplitOnce(StorageKey(scope, key), ':') == Some(("subforge:" + scope, key))
  {
    forall i | 0 <= i < |key| ensures key[i] != ':' {
      assert IsNameChar(key[i]);
    }
    assert StorageKey(scope, key) == ("subforge:" + scope) + [':'] + key;
    RSplitOnceAt("subforge:" + scope, ':', key);
  }

  lemma StorageKeyInjective(s0: string, k0: string, s1: string, k1: string)
    requires ValidKey(k0) && ValidKey(k1)
    ensures StorageKey(s0, k0) == StorageKey(s1, k1) <==> s0 == s1 && k0 == k1
  {
    if StorageKey(s0, k0) == StorageKey(s1, k1) {
      StorageKeySplits(s0, k0);
      StorageKeySplits(s1, k1);
      assert s0 == ("subforge:" + s0)[9..] == ("subforge:" + s1)[9..] == s1;
    }
  }

  datatype Error = InvalidScope(scope: string) | InvalidKey(key: string) | SecretMissing(storage: string) | Serde

  datatype Op =
    | Set(scope: string, key: string, value: string)
    | Get(scope: string, key: string)
    | Delete(scope: string, key: string)
    | ListKeys(scope: string)

  datatype Reply = Done | Secret(value: string) | Names(keys: set<string>) | Failed(error: Error)

  /** Writing a list of keys as text and reading it back, as a JSON library does. */
  datatype Codec = Codec(write: set<string> -> string, read: string -> Option<set<string>>)

  ghost predicate RoundTrips(codec: Codec) {
    forall keys: set<string> :: codec.read(codec.write(keys)) == Some(keys)
  }

  type Entries = map<string, string>
  type Nested = map<string, map<string, string>>

  /** The validation both stores start with: first the scope, then the key. */
  function Refusal(op: Op): Option<Error> {
    if !ValidScope(op.scope) then Some(InvalidScope(op.scope))
    else if !op.ListKeys? && !ValidKey(op.key) then Some(InvalidKey(op.key))
    else None
  }

  // ---------------------------------------------------------------- the keyring store

  /** The keys listed for a scope; None when the index text cannot be read */
  function Index(codec: Codec, entries: Entries, scope: string): Option<set<string>> {
    if StorageKey(scope, INDEX_KEY) in entries then codec.read(entries[StorageKey(scope, INDEX_KEY)]) else Some({})
  }

  function WithIndex(codec: Codec, entries: Entries, scope: string, keys: set<string>): Entries {
    entries[StorageKey(scope, INDEX_KEY) := codec.write(keys)]
  }

  function KeyringStep(codec: Codec, entries: Entries, op: Op): (Entries, Reply) {
    if Refusal(op).Some? then (entries, Failed(Refusal(op).value))
    else
      match op
      case Set(scope, key, value) =>
        var written := entries[StorageKey(scope, key) := value];
        (match Index(codec, written, scope)
         case None => (written, Failed(Serde))
         case Some(keys) => (WithIndex(codec, written, scope, keys + {key}), Done))
      case Get(scope, key) =>
        (entries, if StorageKey(scope, key) in entries then Secret(entries[StorageKey(scope, key)])
                  else Failed(SecretMissing(StorageKey(scope, key))))
      case Delete(scope, key) =>
        var removed := entries - {StorageKey(scope, key)};
        (match Index(codec, removed, scope)
         case None => (removed, Failed(Serde))
         case Some(keys) => (WithIndex(codec, removed, scope, keys - {key}), Done))
      case ListKeys(scope) =>
        (entries, match Index(codec, entries, scope) case None => Failed(Serde) case Some(keys) => Names(keys))
  }

  class KeyringStore {
    const codec: Codec
    var entries: Entries

    constructor (codec: Codec)
      ensures this.codec == codec && entries == map[]
    {
      this.codec, entries := codec, map[];
    }

    method LoadScopeIndex(scope: string) returns (keys: Option<set<string>>)
      ensures keys == Index(codec, entries, scope)
    {
      var name := StorageKey(scope, INDEX_KEY);
      keys := if name in entries then codec.read(entries[name]) else Some({});
    }

    method SaveScopeIndex(scope: string, keys: set<string>)
      modifies this
      ensures entries == WithIndex(codec, old(entries), scope, keys)
    {
      entries := entries[StorageKey(scope, INDEX_KEY) := codec.write(keys)];
    }

    method SetSecret(scope: string, key: string, value: string) returns (reply: Reply)
      modifies this
      ensures (entries, reply) == KeyringStep(codec, old(entries), Set(scope, key, value))
    {
      if !ValidScope(scope) {
        return Failed(InvalidScope(scope));
      }
      if !ValidKey(key) {
        return Failed(InvalidKey(key));
      }
      entries := entries[StorageKey(scope, key) := value];
      var keys := LoadScopeIndex(scope);
      if keys.None? {
        return Failed(Serde);
      }
      SaveScopeIndex(scope, keys.value + {key});
      reply := Done;
    }

    method GetSecret(scope: string, key: string) returns (reply: Reply)
      ensures (entries, reply) == KeyringStep(codec, entries, Get(scope, key))
    {
      if !ValidScope(scope) {
        return Failed(InvalidScope(scope));
      }
      if !ValidKey(key) {
        return Failed(InvalidKey(key));
      }
      if StorageKey(scope, key) in entries {
        reply := Secret(entries[StorageKey(scope, key)]);
      } else {
        reply := Failed(SecretMissing(StorageKey(scope, key)));
      }
    }

    method DeleteSecret(scope: string, key: string) returns (reply: Reply)
      modifies this
      ensures (entries, reply) == KeyringStep(codec, old(entries), Delete(scope, key))
    {
      if !ValidScope(scope) {
        return Failed(InvalidScope(scope));
      }
      if !ValidKey(key) {
        return Failed(InvalidKey(key));
      }
      entries := entries - {StorageKey(scope, key)};
      var keys := LoadScopeIndex(scope);
      if keys.None? {
        return Failed(Serde);
      }
      SaveScopeIndex(scope, keys.value - {key});
      reply := Done;
    }

    method List(scope: string) returns (reply: Reply)
      ensures (entries, reply) == KeyringStep(codec, entries, ListKeys(scope))
    {
      if !ValidScope(scope) {
        return Failed(InvalidScope(scope));
      }
      var keys := LoadScopeIndex(scope);
      reply := if keys.None? then Failed(Serde) else Names(keys.value);
    }
  }

  // ---------------------------------------------------------------- the memory store

  function ScopeMap(data: Nested, scope: string): map<string, string> {
    if scope in data then data[scope] else map[]
  }

  function Find(data: Nested, scope: string, key: string): Option<string> {
    Lookup(ScopeMap(data, scope), key)
  }

  function MemoryStep(data: Nested, op: Op): (Nested, Reply) {
    if Refusal(op).Some? then (data, Failed(Refusal(op).value))
    else
      match op
      case Set(scope, key, value) => (data[scope := ScopeMap(data, scope)[key := value]], Done)
      case Get(scope, key) =>
        (data, match Find(data, scope, key) case Some(value) => Secret(value) case None => Failed(SecretMissing(StorageKey(scope, key))))
      case Delete(scope, key) =>
        var kept := ScopeMap(data, scope) - {key};
        (if kept == map[] then data - {scope} else data[scope := kept], Done)
      case ListKeys(scope) => (data, Names(ScopeMap(data, scope).Keys))
  }

  class MemoryStore {
    var data: Nested

    constructor ()
      ensures data == map[]
    {
      data := map[];
    }

    method SetSecret(scope: string, key: string, value: string) returns (reply: Reply)
      modifies this
      ensures (data, reply) == MemoryStep(old(data), Set(scope, key, value))
    {
      if !ValidScope(scope) {
        return Failed(InvalidScope(scope));
      }
      if !ValidKey(key) {
        return Failed(InvalidKey(key));
      }
      if scope !in data {
        data := data[scope := map[]];
      }
      data := data[scope := data[scope][key := value]];
      assert data == MemoryStep(old(data), Set(scope, key, value)).0;
      reply := Done;
    }

    method GetSecret(scope: string, key: string) returns (reply: Reply)
      ensures (data, reply) == MemoryStep(data, Get(scope, key))
    {
      if !ValidScope(scope) {
        return Failed(InvalidScope(scope));
      }
      if !ValidKey(key) {
        return Failed(InvalidKey(key));
      }
      if scope in data && key in data[scope] {
        reply := Secret(data[scope][key]);
      } else {
        reply := Failed(SecretMissing(StorageKey(scope, key)));
      }
    }

    method DeleteSecret(scope: string, key: string) returns (reply: Reply)
      modifies this
      ensures (data, reply) == MemoryStep(old(data), Delete(scope, key))
    {
      if !ValidScope(scope) {
        return Failed(InvalidScope(scope));
      }
      if !ValidKey(key) {
        return Failed(InvalidKey(key));
      }
      if scope in data {
        data := data[scope := data[scope] - {key}];
        if data[scope] == map[] {
          data := data - {scope};
        }
      }
      assert data == MemoryStep(old(data), Delete(scope, key)).0;
      reply := Done;
    }

    method List(scope: string) returns (reply: Reply)
      ensures (data, reply) == MemoryStep(data, ListKeys(scope))
    {
      if !ValidScope(scope) {
        return Failed(InvalidScope(scope));
      }
      var empty: map<string, string> := map[];
      assert empty.Keys == {};
      reply := Names(if scope in data then data[scope].Keys else {});
    }
  }

  // ---------------------------------------------------------------- what a secret is worth

  /** The plain meaning: the value of the last accepted write to a key, None if it was deleted or never set. */
  function LastWrite(ops: seq<Op>, scope: string, key: string): Option<string> {
    if ops == [] then None
    else
      var op := ops[|ops| - 1];
      if op.Set? && Refusal(op).None? && op.scope == scope && op.key == key then Some(op.value)
      else if op.Delete? && op.scope == scope && op.key == key then None
      else LastWrite(ops[..|ops| - 1], scope, key)
  }

  function MemoryRun(ops: seq<Op>): (Nested, seq<Reply>) {
    if ops == [] then (map[], [])
    else
      var (data, replies) := MemoryRun(ops[..|ops| - 1]);
      var (next, reply) := MemoryStep(data, ops[|ops| - 1]);
      (next, replies + [reply])
  }

  function KeyringRun(codec: Codec, ops: seq<Op>): (Entries, seq<Reply>) {
    if ops == [] then (map[], [])
    else
      var (entries, replies) := KeyringRun(codec, ops[..|ops| - 1]);
      var (next, reply) := KeyringStep(codec, entries, ops[|ops| - 1]);
      (next, replies + [reply])
  }

  lemma {:induction false} MemoryKeepsLastWrite(ops: seq<Op>, scope: string, key: string)
    ensures Find(MemoryRun(ops).0, scope, key) == LastWrite(ops, scope, key)
  {
    if ops == [] {
    } else {
      MemoryKeepsLastWrite(ops[..|ops| - 1], scope, key);
      var op := ops[|ops| - 1];
      if op.Delete? && op.scope == scope && op.key == key && Refusal(op).Some? {
        RefusedIsUnset(ops[..|ops| - 1], scope, key);
      }
    }
  }

  lemma {:induction false} RefusedIsUnset(ops: seq<Op>, scope: string, key: string)
    requires !ValidScope(scope) || !ValidKey(key)
    ensures LastWrite(ops, scope, key) == None
  {
    if ops == [] {
    } else {
      RefusedIsUnset(ops[..|ops| - 1], scope, key);
    }
  }

  // ---------------------------------------------------------------- the two stores agree

  predicate Reserved(op: Op) {
    !op.ListKeys? && op.key == INDEX_KEY
  }

  /** The entries hold the nested map: one entry per secret, and the index lists the scope's keys. */
  ghost predicate Holds(codec: Codec, entries: Entries, data: Nested) {
    && (forall scope, key :: ValidScope(scope) && ValidKey(key) && key != INDEX_KEY ==>
          Entry(entries, scope, key) == Find(data, scope, key))
    && (forall scope :: ValidScope(scope) ==> Index(codec, entries, scope) == Some(ScopeMap(data, scope).Keys))
    && (forall scope :: ValidScope(scope) ==> INDEX_KEY !in ScopeMap(data, scope))
  }

  function Entry(entries: Entries, scope: string, key: string): Option<string> {
    Lookup(entries, StorageKey(scope, key))
  }

  lemma IndexWritten(codec: Codec, entries: Entries, scope: string, keys: set<string>, other: string)
    requires RoundTrips(codec)
    ensures Index(codec, WithIndex(codec, entries, scope, keys), other) == if other == scope then Some(keys) else Index(codec, entries, other)
  {
    assert ValidKey(INDEX_KEY);
    StorageKeyInjective(scope, INDEX_KEY, other, INDEX_KEY);
    hide StorageKey;
  }

  lemma EntryBesideIndex(codec: Codec, entries: Entries, scope: string, keys: set<string>, other: string, key: string)
    requires ValidKey(key) && key != INDEX_KEY
    ensures Entry(WithIndex(codec, entries, scope, keys), other, key) == Entry(entries, other, key)
  {
    assert ValidKey(INDEX_KEY);
    StorageKeyInjective(scope, INDEX_KEY, other, key);
    hide StorageKey;
  }

  lemma IndexBesideEntry(codec: Codec, entries: Entries, scope: string, key: string, value: string, other: string)
    requires ValidKey(key) && key != INDEX_KEY
    ensures Index(codec, entries[StorageKey(scope, key) := value], other) == Index(codec, entries, other)
    ensures Index(codec, entries - {StorageKey(scope, key)}, other) == Index(codec, entries, other)
  {
    assert ValidKey(INDEX_KEY);
    StorageKeyInjective(scope, key, other, INDEX_KEY);
    hide StorageKey;
  }

  lemma SetAgrees(codec: Codec, entries: Entries, data: Nested, scope: string, key: string, value: string)
    requires RoundTrips(codec) && Holds(codec, entries, data) && key != INDEX_KEY && ValidScope(scope) && ValidKey(key)
    ensures KeyringStep(codec, entries, Set(scope, key, value)).1 == Done
    ensures Holds(codec, KeyringStep(codec, entries, Set(scope, key, value)).0, data[scope := ScopeMap(data, scope)[key := value]])
  {
    var written := entries[StorageKey(scope, key) := value];
    var nextData := data[scope := ScopeMap(data, scope)[key := value]];
    IndexBesideEntry(codec, entries, scope, key, value, scope);
    var keys := ScopeMap(data, scope).Keys;
    assert ScopeMap(nextData, scope).Keys == keys + {key};
    var nextEntries := WithIndex(codec, written, scope, keys + {key});
    forall s, k | ValidScope(s) && ValidKey(k) && k != INDEX_KEY
      ensures Entry(nextEntries, s, k) == Find(nextData, s, k)
    {
      EntryBesideIndex(codec, written, scope, keys + {key}, s, k);
      StorageKeyInjective(s, k, scope, key);
      assert Entry(entries, s, k) == Find(data, s, k);
      hide StorageKey, WithIndex, ValidScope, ValidKey;
    }
    forall s | ValidScope(s)
      ensures Index(codec, nextEntries, s) == Some(ScopeMap(nextData, s).Keys)
    {
      IndexWritten(codec, written, scope, keys + {key}, s);
      IndexBesideEntry(codec, entries, scope, key, value, s);
      hide StorageKey, WithIndex, ValidScope, ValidKey;
    }
    hide StorageKey, WithIndex, ValidScope, ValidKey, Index, Entry, Find;
  }

  lemma DeleteAgrees(codec: Codec, entries: Entries, data: Nested, scope: string, key: string)
    requires RoundTrips(codec) && Holds(codec, entries, data) && key != INDEX_KEY && ValidScope(scope) && ValidKey(key)
    ensures KeyringStep(codec, entries, Delete(scope, key)).1 == Done
    ensures Holds(codec, KeyringStep(codec, entries, Delete(scope, key)).0, MemoryStep(data, Delete(scope, key)).0)
  {
    var removed := entries - {StorageKey(scope, key)};
    var nextData := MemoryStep(data, Delete(scope, key)).0;
    IndexBesideEntry(codec, entries, scope, key, "", scope);
    var keys := ScopeMap(data, scope).Keys;
    assert forall s :: ScopeMap(nextData, s) == if s == scope then ScopeMap(data, scope) - {key} else ScopeMap(data, s);
    assert ScopeMap(nextData, scope).Keys == keys - {key};
    var nextEntries := WithIndex(codec, removed, scope, keys - {key});
    forall s, k | ValidScope(s) && ValidKey(k) && k != INDEX_KEY
      ensures Entry(nextEntries, s, k) == Find(nextData, s, k)
    {
      EntryBesideIndex(codec, removed, scope, keys - {key}, s, k);
      StorageKeyInjective(s, k, scope, key);
      assert Entry(entries, s, k) == Find(data, s, k);
      hide StorageKey, WithIndex, ValidScope, ValidKey, MemoryStep;
    }
    forall s | ValidScope(s)
      ensures Index(codec, nextEntries, s) == Some(ScopeMap(nextData, s).Keys)
    {
      IndexWritten(codec, removed, scope, keys - {key}, s);
      IndexBesideEntry(codec, entries, scope, key, "", s);
      hide StorageKey, WithIndex, ValidScope, ValidKey, MemoryStep;
    }
    hide StorageKey, WithIndex, ValidScope, ValidKey, Index, Entry, Find, MemoryStep;
  }

  lemma StepsAgree(codec: Codec, entries: Entries, data: Nested, op: Op)
    requires RoundTrips(codec) && Holds(codec, entries, data) && !Reserved(op)
    ensures KeyringStep(codec, entries, op).1 == MemoryStep(data, op).1
    ensures Holds(codec, KeyringStep(codec, entries, op).0, MemoryStep(data, op).0)
  {
    if Refusal(op).None? {
      match op
      case Set(scope, key, value) => SetAgrees(codec, entries, data, scope, key, value);
      case Delete(scope, key) => DeleteAgrees(codec, entries, data, scope, key);
      case Get(scope, key) => assert Entry(entries, scope, key) == Find(data, scope, key);
      case ListKeys(scope) =>
    }
    hide StorageKey, WithIndex, ValidScope, ValidKey;
  }

  lemma {:induction false} RunsAgree(codec: Codec, ops: seq<Op>)
    requires RoundTrips(codec)
    requires forall i :: 0 <= i < |ops| ==> !Reserved(ops[i])
    ensures KeyringRun(codec, ops).1 == MemoryRun(ops).1
    ensures Holds(codec, KeyringRun(codec, ops).0, MemoryRun(ops).0)
  {
    if ops == [] {
      var empty: map<string, string> := map[];
      assert empty.Keys == {};
    } else {
      var before := ops[..|ops| - 1];
      RunsAgree(codec, before);
      StepsAgree(codec, KeyringRun(codec, before).0, MemoryRun(before).0, ops[|ops| - 1]);
    }
  }

  /** After any run without the reserved key, the keyring answers as the plain meaning says. */
  lemma KeyringKeepsLastWrite(codec: Codec, ops: seq<Op>, scope: string, key: string)
    requires RoundTrips(codec)
    requires forall i :: 0 <= i < |ops| ==> !Reserved(ops[i])
    requires ValidScope(scope) && ValidKey(key) && key != INDEX_KEY
    ensures KeyringStep(codec, KeyringRun(codec, ops).0, Get(scope, key)).1 ==
            match LastWrite(ops, scope, key) { case Some(value) => Secret(value) case None => Failed(SecretMissing(StorageKey(scope, key))) }
    ensures KeyringStep(codec, KeyringRun(codec, ops).0, ListKeys(scope)).1.Names?
    ensures key in KeyringStep(codec, KeyringRun(codec, ops).0, ListKeys(scope)).1.keys <==> LastWrite(ops, scope, key).Some?
  {
    RunsAgree(codec, ops);
    MemoryKeepsLastWrite(ops, scope, key);
    StepsAgree(codec, KeyringRun(codec, ops).0, MemoryRun(ops).0, Get(scope, key));
    StepsAgree(codec, KeyringRun(codec, ops).0, MemoryRun(ops).0, ListKeys(scope));
  }

  // ---------------------------------------------------------------- the reserved key

  /** Reading the reserved key gives away the index as soon as there is one. */
  lemma ReservedGetExactly(codec: Codec, entries: Entries, data: Nested, scope: string)
    requires Holds(codec, entries, data) && ValidScope(scope)
    ensures KeyringStep(codec, entries, Get(scope, INDEX_KEY)).1 == MemoryStep(data, Get(scope, INDEX_KEY)).1
       <==> StorageKey(scope, INDEX_KEY) !in entries
  {
    assert ValidKey(INDEX_KEY);
    assert INDEX_KEY !in ScopeMap(data, scope);
  }

  /** Deleting the reserved key forgets the list of keys, which is harmless exactly for an empty scope. */
  lemma ReservedDeleteExactly(codec: Codec, entries: Entries, data: Nested, scope: string)
    requires RoundTrips(codec) && Holds(codec, entries, data) && ValidScope(scope)
    ensures KeyringStep(codec, KeyringStep(codec, entries, Delete(scope, INDEX_KEY)).0, ListKeys(scope)).1
         == MemoryStep(MemoryStep(data, Delete(scope, INDEX_KEY)).0, ListKeys(scope)).1
       <==> ScopeMap(data, scope) == map[]
  {
    assert ValidKey(INDEX_KEY);
    assert INDEX_KEY !in ScopeMap(data, scope);
    var removed := entries - {StorageKey(scope, INDEX_KEY)};
    assert Index(codec, removed, scope) == Some({});
    assert codec.read(codec.write({} - {INDEX_KEY})) == Some({} - {INDEX_KEY});
    assert ScopeMap(data, scope) - {INDEX_KEY} == ScopeMap(data, scope);
    assert ScopeMap(data, scope).Keys == {} <==> ScopeMap(data, scope) == map[];
  }

  /** What the two stores answer to a set of the reserved key, and then to a get of it. */
  lemma ReservedSetReplies(codec: Codec, entries: Entries, data: Nested, scope: string, value: string)
    requires ValidScope(scope)
    ensures var (keyring, memory) := (KeyringStep(codec, entries, Set(scope, INDEX_KEY, value)), MemoryStep(data, Set(scope, INDEX_KEY, value)));
      && memory == (data[scope := ScopeMap(data, scope)[INDEX_KEY := value]], Done)
      && (codec.read(value).None? ==> keyring.1 == Failed(Serde))
      && (codec.read(value).Some? ==>
            keyring == (entries[StorageKey(scope, INDEX_KEY) := codec.write(codec.read(value).value + {INDEX_KEY})], Done))
  {
    assert ValidKey(INDEX_KEY);
    var written := entries[StorageKey(scope, INDEX_KEY) := value];
    assert Index(codec, written, scope) == codec.read(value);
    hide StorageKey, ValidScope, ValidKey;
    if codec.read(value).Some? {
      var text := codec.write(codec.read(value).value + {INDEX_KEY});
      assert written[StorageKey(scope, INDEX_KEY) := text] == entries[StorageKey(scope, INDEX_KEY) := text];
    }
  }

  /** A value set under the reserved key comes back exactly if it is the text of an index listing that key. */
  lemma ReservedSetComesBackExactly(codec: Codec, entries: Entries, data: Nested, scope: string, value: string)
    requires ValidScope(scope)
    ensures var op := Set(scope, INDEX_KEY, value);
      var (keyring, memory) := (KeyringStep(codec, entries, op), MemoryStep(data, op));
      (keyring.1 == memory.1 && KeyringStep(codec, keyring.0, Get(scope, INDEX_KEY)).1 == MemoryStep(memory.0, Get(scope, INDEX_KEY)).1)
      <==> codec.read(value).Some? && codec.write(codec.read(value).value + {INDEX_KEY}) == value
  {
    assert ValidKey(INDEX_KEY);
    ReservedSetReplies(codec, entries, data, scope, value);
    hide StorageKey, ValidScope, ValidKey;
  }

  /**
   Setting the reserved key goes unnoticed (by the reply, a following get and a following
   listing) exactly if the value is the text of the scope's index with that key added.
   */
  lemma ReservedSetExactly(codec: Codec, entries: Entries, data: Nested, scope: string, value: string)
    requires RoundTrips(codec) && Holds(codec, entries, data) && ValidScope(scope)
    ensures var op := Set(scope, INDEX_KEY, value);
      var (keyring, memory) := (KeyringStep(codec, entries, op), MemoryStep(data, op));
      && (keyring.1 == memory.1
          && KeyringStep(codec, keyring.0, Get(scope, INDEX_KEY)).1 == MemoryStep(memory.0, Get(scope, INDEX_KEY)).1
          && KeyringStep(codec, keyring.0, ListKeys(scope)).1 == MemoryStep(memory.0, ListKeys(scope)).1)
      <==> value == codec.write(ScopeMap(data, scope).Keys + {INDEX_KEY})
  {
    ReservedSetComesBackExactly(codec, entries, data, scope, value);
    var listed := ScopeMap(data, scope).Keys + {INDEX_KEY};
    assert codec.read(codec.write(listed)) == Some(listed) && listed + {INDEX_KEY} == listed;
    hide StorageKey, ValidScope, ValidKey, KeyringStep, MemoryStep;
    if codec.read(value).Some? {
      ListAfterReservedSet(codec, entries, data, scope, value);
    }
  }

  lemma ListAfterReservedSet(codec: Codec, entries: Entries, data: Nested, scope: string, value: string)
    requires RoundTrips(codec) && ValidScope(scope) && codec.read(value).Some?
    ensures var op := Set(scope, INDEX_KEY, value);
      && KeyringStep(codec, KeyringStep(codec, entries, op).0, ListKeys(scope)).1 == Names(codec.read(value).value + {INDEX_KEY})
      && MemoryStep(MemoryStep(data, op).0, ListKeys(scope)).1 == Names(ScopeMap(data, scope).Keys + {INDEX_KEY})
  {
    ReservedSetReplies(codec, entries, data, scope, value);
    var keys := codec.read(value).value + {INDEX_KEY};
    assert codec.read(codec.write(keys)) == Some(keys);
    assert Index(codec, KeyringStep(codec, entries, Set(scope, INDEX_KEY, value)).0, scope) == Some(keys);
    var stored := ScopeMap(data, scope)[INDEX_KEY := value];
    assert stored.Keys == ScopeMap(data, scope).Keys + {INDEX_KEY};
    hide StorageKey, ValidScope, ValidKey;
  }

  /** After a single set of an ordinary key the reserved key reads as the index, where the memory store has nothing. */
  lemma ReservedGetGivesIndexAway(codec: Codec)
    requires RoundTrips(codec)
    ensures var ops := [Set("system", "token", "secret"), Get("system", INDEX_KEY)];
      && KeyringRun(codec, ops).1 == [Done, Secret(codec.write({"token"}))]
      && MemoryRun(ops).1 == [Done, Failed(SecretMissing(StorageKey("system", INDEX_KEY)))]
  {
    assert ValidKey(INDEX_KEY) && ValidKey("token") && ValidScope("system");
    RunOfTwo(codec, Set("system", "token", "secret"), Get("system", INDEX_KEY));
    StorageKeyInjective("system", "token", "system", INDEX_KEY);
    hide StorageKey, ValidKey, ValidScope, KeyringRun, MemoryRun;
    assert {} + {"token"} == {"token"};
    assert INDEX_KEY != "token";
  }

  lemma RunOfTwo(codec: Codec, first: Op, second: Op)
    ensures var (data, reply) := MemoryStep(map[], first);
      MemoryRun([first, second]).1 == [reply, MemoryStep(data, second).1]
    ensures var (entries, reply) := KeyringStep(codec, map[], first);
      KeyringRun(codec, [first, second]).1 == [reply, KeyringStep(codec, entries, second).1]
  {
    var ops := [first, second];
    assert ops[..|ops| - 1] == [first] && [first][..|[first]| - 1] == [];
    var (memory, keyring) := (MemoryStep(map[], first), KeyringStep(codec, map[], first));
    assert [] + [memory.1] == [memory.1] && [] + [keyring.1] == [keyring.1];
    assert MemoryRun([first]) == (memory.0, [memory.1]);
    assert KeyringRun(codec, [first]) == (keyring.0, [keyring.1]);
    hide MemoryStep, KeyringStep;
  }

  // ---------------------------------------------------------------- what is accepted

  lemma Letters(c: char)
    ensures 'a' <= c <= 'z' <==> c in "abcdefghijklmnopqrstuvwxyz"
  {
  }

  lemma Capitals(c: char)
    ensures 'A' <= c <= 'Z' <==> c in "ABCDEFGHIJKLMNOPQRSTUVWXYZ"
  {
  }

  lemma NameCharacters(c: char)
    ensures IsNameChar(c) <==> c in "abcdefghijklmnopqrstuvwxyz" || c in "ABCDEFGHIJKLMNOPQRSTUVWXYZ" || c in "0123456789._-"
  {
    Letters(c);
    Capitals(c);
    assert '0' <= c <= '9' <==> c in "0123456789";
  }

  /** The scopes are the system's, and those of plugins and sources with a name as their id. */
  lemma ValidScopeExactly(scope: string)
    ensures ValidScope(scope) <==>
      scope == "system" || exists id :: IsName(id) && (scope == "plugin:" + id || scope == "source:" + id)
  {
    hide IsName;
    if ValidScope(scope) && scope != "system" {
      var id := scope[7..];
      assert scope == scope[..7] + id;
    }
    if id :| IsName(id) && (scope == "plugin:" + id || scope == "source:" + id) {
      assert scope[7..] == id;
      assert StartsWith(scope, "plugin:") || StartsWith(scope, "source:");
    }
  }

  /** Both stores refuse the same operations, for the scope before the key, and a refused operation changes nothing. */
  lemma RefusedExactly(codec: Codec, entries: Entries, data: Nested, op: Op)
    ensures var (keyring, memory) := (KeyringStep(codec, entries, op), MemoryStep(data, op));
      && (!ValidScope(op.scope) ==>
           keyring == (entries, Failed(InvalidScope(op.scope))) && memory == (data, Failed(InvalidScope(op.scope))))
      && (ValidScope(op.scope) && !op.ListKeys? && !ValidKey(op.key) ==>
           keyring == (entries, Failed(InvalidKey(op.key))) && memory == (data, Failed(InvalidKey(op.key))))
      && (ValidScope(op.scope) && (op.ListKeys? || ValidKey(op.key)) ==>
           !RefusedBy(keyring.1) && !RefusedBy(memory.1))
  {
    hide ValidScope, ValidKey, StorageKey;
  }

  predicate RefusedBy(reply: Reply) {
    reply.Failed? && (reply.error.InvalidScope? || reply.error.InvalidKey?)
  }

  /** The k-th operation writes the value to the key, and no later one writes to it or deletes it. */
  ghost predicate LastWrittenAt(ops: seq<Op>, scope: string, key: string, value: string, k: nat) {
    k < |ops| && ops[k] == Set(scope, key, value) &&
    forall i :: k < i < |ops| && !ops[i].ListKeys? && !ops[i].Get? ==> ops[i].scope != scope || ops[i].key != key
  }

  /** The value of a key is the one last written, if its scope and the key are valid and no deletion followed. */
  lemma {:induction false} LastWriteExactly(ops: seq<Op>, scope: string, key: string, value: string)
    requires ValidScope(scope) && ValidKey(key)
    ensures LastWrite(ops, scope, key) == Some(value) <==> exists k: nat :: LastWrittenAt(ops, scope, key, value, k)
    decreases |ops|
  {
    hide ValidScope, ValidKey;
    if ops != [] {
      var last := |ops| - 1;
      var (init, op) := (ops[..last], ops[last]);
      LastWriteExactly(init, scope, key, value);
      if (op.Set? || op.Delete?) && op.scope == scope && op.key == key {
        assert forall k: nat :: LastWrittenAt(ops, scope, key, value, k) ==> k == last;
        assert op == Set(scope, key, value) ==> LastWrittenAt(ops, scope, key, value, last);
      } else {
        forall k: nat ensures LastWrittenAt(ops, scope, key, value, k) <==> LastWrittenAt(init, scope, key, value, k) {
          LastWrittenLater(ops, scope, key, value, k);
        }
      }
    }
  }

  lemma LastWrittenLater(ops: seq<Op>, scope: string, key: string, value: string, k: nat)
    requires ops != [] && var op := ops[|ops| - 1]; op.Get? || op.ListKeys? || op.scope != scope || op.key != key
    ensures LastWrittenAt(ops, scope, key, value, k) <==> LastWrittenAt(ops[..|ops| - 1], scope, key, value, k)
  {
    var init := ops[..|ops| - 1];
    assert forall i :: 0 <= i < |init| ==> init[i] == ops[i];
  }

  /** With an index that cannot be read, a key is written or deleted all the same before the error; a listing is the error alone. */
  lemma UnreadableIndex(codec: Codec, entries: Entries, scope: string, key: string, value: string)
    requires ValidScope(scope) && ValidKey(key) && key != INDEX_KEY
    requires StorageKey(scope, INDEX_KEY) in entries && codec.read(entries[StorageKey(scope, INDEX_KEY)]) == None
    ensures KeyringStep(codec, entries, Set(scope, key, value)) == (entries[StorageKey(scope, key) := value], Failed(Serde))
    ensures KeyringStep(codec, entries, Delete(scope, key)) == (entries - {StorageKey(scope, key)}, Failed(Serde))
    ensures KeyringStep(codec, entries, ListKeys(scope)) == (entries, Failed(Serde))
  {
    assert ValidKey(INDEX_KEY);
    StorageKeyInjective(scope, key, scope, INDEX_KEY);
    hide ValidScope, ValidKey, StorageKey;
  }

  /** A scope whose last key is deleted goes with it: the memory store never holds an empty one. */
  lemma {:induction false} NoEmptyScopes(ops: seq<Op>, scope: string)
    ensures scope in MemoryRun(ops).0 ==> MemoryRun(ops).0[scope] != map[]
  {
    hide ValidScope, ValidKey;
    if ops != [] {
      var (data, op) := (MemoryRun(ops[..|ops| - 1]).0, ops[|ops| - 1]);
      NoEmptyScopes(ops[..|ops| - 1], scope);
      assert op.Set? ==> op.key in ScopeMap(data, op.scope)[op.key := op.value];
    }
  }
}
