/**
 * The encrypted credential store (backend/python/config/encrypted_credential_store.py):
 * memory, file, authenticated encryption and migration together implement a map
 * from (user, provider) to secret.
 *
 * AES-GCM is an ideal AEAD (section 2 of RFC 5116); nonces, identifiers and clock
 * readings are inputs.  One instance owns the file.
 */
module CredentialStores {
  import opened Common
  import opened Json
  import opened Utf8
  import opened CredentialCodec

  // ---------- authenticated encryption ----------

  // seal(nonce, plaintext, aad), open(nonce, ciphertext, aad), and the associated
  // data of a credential, a user and a provider.
  datatype Aead = Aead(
    seal: (Bytes, Bytes, Bytes) -> Bytes,
    open: (Bytes, Bytes, Bytes) -> Option<Bytes>,
    aad: (string, string, string) -> Bytes)

  // The associated data is formed as the code forms it.
  ghost predicate BindsIdentity(aead: Aead) {
    forall c, u, p :: aead.aad(c, u, p) == Aad(c, u, p)
  }

  // Opening inverts sealing, only sealed messages open, and a ciphertext belongs
  // to one associated data.
  ghost predicate Ideal(aead: Aead) {
    && (forall n, p, a :: aead.seal(n, p, a) != [] && aead.open(n, aead.seal(n, p, a), a) == Some(p))
    && (forall n, c, a :: aead.open(n, c, a).Some? ==> aead.seal(n, aead.open(n, c, a).value, a) == c)
    && (forall n, p, a, p', a' :: aead.seal(n, p, a) == aead.seal(n, p', a') ==> a == a')
  }

  // ---------- records in memory and on disk ----------

  // The dictionary in insertion order.
  type Records = seq<StoredCredential>

  // The text layer of JSON is the library's: a file is missing, unreadable or a document.
  datatype Disk = Missing | Unreadable | Document(doc: Value)

  // How an atomic replacement ends: failed before it, done, or done with a late
  // error while the temporary file is cleaned up.
  datatype SaveOutcome = NotReplaced | Replaced | ReplacedThenRaised

  datatype Error =
    | InvalidIdentity | NotFound | SaveFailed
    | LoadFailed | BadFormat | BadVersion | InvalidRecord | Duplicate | Tampered | Unprotected

  datatype State = State(records: Records, disk: Disk)

  function Doc(records: Records): Value {
    Obj(map[
      "version" := Num(Int(2)),
      "credentials" := Arr(seq(|records|, i requires 0 <= i < |records| => ToDict(records[i])))])
  }

  function IndexOfId(records: Records, id: string): (i: nat)
    ensures i <= |records| && (i < |records| ==> records[i].credentialId == id)
    ensures forall j :: 0 <= j < i ==> records[j].credentialId != id
  {
    if records == [] || records[0].credentialId == id then 0 else 1 + IndexOfId(records[1..], id)
  }

  function IndexOfIdentity(records: Records, user: string, provider: string): (i: nat)
    ensures i <= |records| && (i < |records| ==> records[i].userId == user && records[i].providerId == provider)
    ensures forall j :: 0 <= j < i ==> !(records[j].userId == user && records[j].providerId == provider)
  {
    if records == [] || (records[0].userId == user && records[0].providerId == provider) then 0
    else 1 + IndexOfIdentity(records[1..], user, provider)
  }

  function Encrypt(aead: Aead, c: StoredCredential, plaintext: Bytes, nonce: Bytes): StoredCredential {
    c.(nonce := nonce, encryptedSecret := aead.seal(nonce, plaintext, aead.aad(c.credentialId, c.userId, c.providerId)))
  }

  // Plaintext under the given associated data; it must also be valid UTF-8.
  function Decrypt(aead: Aead, c: StoredCredential, aad: Bytes): Option<Bytes> {
    var p := aead.open(c.nonce, c.encryptedSecret, aad);
    if p.Some? && Strict(p.value).Some? then p else None
  }

  function Secret(aead: Aead, c: StoredCredential): Option<string> {
    var p := Decrypt(aead, c, aead.aad(c.credentialId, c.userId, c.providerId));
    if p.None? then None else Strict(p.value)
  }

  function TimeValue(n: Number): real {
    match n case Int(i) => i as real case Float(v, _) => v
  }

  function Later(a: Number, b: Number): Number {
    if TimeValue(b) > TimeValue(a) then b else a
  }

  // ---------- operations ----------

  // The inputs an operation draws from its surroundings.
  datatype Env = Env(uuid: string, now: Number, nonce: Bytes, outcome: SaveOutcome)

  predicate ValidEnv(env: Env, records: Records) {
    && env.uuid != "" && IndexOfId(records, env.uuid) == |records|
    && Timestamp(env.now) && |env.nonce| == NONCE_LENGTH
  }

  datatype Op =
    | Save(user: string, provider: string, secret: string)
    | Update(id: string, secret: string)
    | Delete(id: string)

  // Memory is assigned only after the replacement reported no error.
  function Publish(s: State, updated: Records, outcome: SaveOutcome): (State, Option<Error>) {
    match outcome
    case NotReplaced => (s, Some(SaveFailed))
    case Replaced => (State(updated, Document(Doc(updated))), None)
    case ReplacedThenRaised => (State(s.records, Document(Doc(updated))), Some(SaveFailed))
  }

  function NewRecord(aead: Aead, user: string, provider: string, secret: string, env: Env): StoredCredential {
    Encrypt(aead, StoredCredential(env.uuid, user, provider, [], [], env.now, env.now), Encode(secret), env.nonce)
  }

  function ChangedRecord(aead: Aead, c: StoredCredential, secret: string, env: Env): StoredCredential {
    Encrypt(aead, c, Encode(secret), env.nonce).(updatedAt := Later(env.now, c.updatedAt))
  }

  function ApplyUpdate(aead: Aead, s: State, id: string, secret: string, env: Env): (State, Option<Error>) {
    var i := IndexOfId(s.records, id);
    if i == |s.records| then (s, Some(NotFound))
    else Publish(s, s.records[i := ChangedRecord(aead, s.records[i], secret, env)], env.outcome)
  }

  function Apply(aead: Aead, s: State, op: Op, env: Env): (State, Option<Error>) {
    match op
    case Save(user, provider, secret) =>
      if user == "" || provider == "" then (s, Some(InvalidIdentity))
      else
        var i := IndexOfIdentity(s.records, user, provider);
        if i < |s.records| then ApplyUpdate(aead, s, s.records[i].credentialId, secret, env)
        else Publish(s, s.records + [NewRecord(aead, user, provider, secret, env)], env.outcome)
    case Update(id, secret) => ApplyUpdate(aead, s, id, secret, env)
    case Delete(id) =>
      var i := IndexOfId(s.records, id);
      if i == |s.records| then (s, Some(NotFound))
      else Publish(s, s.records[..i] + s.records[i+1..], env.outcome)
  }

  // ---------- loading and migration ----------

  function LoadRecords(items: seq<Value>): Result<Records, Error> {
    if items == [] then Ok([])
    else
      var before := LoadRecords(items[..|items|-1]);
      if before.Err? then before
      else
        var c := FromDict(items[|items|-1]);
        if c.None? then Err(InvalidRecord)
        else if IndexOfId(before.value, c.value.credentialId) < |before.value|
             || IndexOfIdentity(before.value, c.value.userId, c.value.providerId) < |before.value|
        then Err(Duplicate)
        else Ok(before.value + [c.value])
  }

  // Plaintexts of version 1 records, which carry no associated data.
  function LegacyPlaintexts(aead: Aead, records: Records): Option<seq<Bytes>> {
    if records == [] then Some([])
    else
      var before := LegacyPlaintexts(aead, records[..|records|-1]);
      var last := Decrypt(aead, records[|records|-1], []);
      if before.None? || last.None? then None else Some(before.value + [last.value])
  }

  function Reencrypted(aead: Aead, records: Records, plaintexts: seq<Bytes>, nonceAt: nat -> Bytes): Records
    requires |records| == |plaintexts|
  {
    seq(|records|, i requires 0 <= i < |records| => Encrypt(aead, records[i], plaintexts[i], nonceAt(i)))
  }

  // The version and the items of a store document.
  function Header(v: Value): Result<(int, seq<Value>), Error> {
    if !v.Obj? || "version" !in v.fields || !v.fields["version"].Num? || !v.fields["version"].number.Int? then Err(BadFormat)
    else
      var version := v.fields["version"].number.n;
      if version != 1 && version != 2 then Err(BadVersion)
      else if "credentials" !in v.fields || !v.fields["credentials"].Arr? then Err(BadFormat)
      else Ok((version, v.fields["credentials"].items))
  }

  datatype LoadEnv = LoadEnv(nonceAt: nat -> Bytes, outcome: SaveOutcome, protects: bool)

  function Migrate(aead: Aead, disk: Disk, records: Records, env: LoadEnv): (Disk, Result<Records, Error>) {
    var plaintexts := LegacyPlaintexts(aead, records);
    if plaintexts.None? || |plaintexts.value| != |records| then (disk, Err(Tampered))
    else
      var migrated := Reencrypted(aead, records, plaintexts.value, env.nonceAt);
      var (s, error) := Publish(State([], disk), migrated, env.outcome);
      (s.disk, if error.Some? then Err(error.value) else Ok(migrated))
  }

  // The file afterwards, and the records or the error.
  function Load(aead: Aead, disk: Disk, env: LoadEnv): (Disk, Result<Records, Error>) {
    match disk
    case Missing => (disk, Ok([]))
    case Unreadable => (disk, Err(LoadFailed))
    case Document(doc) =>
      var header := Header(doc);
      if header.Err? then (disk, Err(header.error))
      else
        var loaded := LoadRecords(header.value.1);
        if loaded.Err? then (disk, loaded)
        else if header.value.0 == 1 then Migrate(aead, disk, loaded.value, env)
        else if !env.protects then (disk, Err(Unprotected))
        else (disk, loaded)
  }

  // ---------- the mutable store ----------

  class CredentialStore {
    const aead: Aead
    var store: Records
    var file: Disk

    function View(): State
      reads this
    {
      State(store, file)
    }

    constructor (aead: Aead, file: Disk)
      ensures this.aead == aead && View() == State([], file)
    {
      this.aead := aead;
      this.store := [];
      this.file := file;
    }

    method SaveStore(records: Records, outcome: SaveOutcome) returns (error: Option<Error>)
      modifies this`file
      ensures file == (if outcome == NotReplaced then old(file) else Document(Doc(records)))
      ensures error == if outcome == Replaced then None else Some(SaveFailed)
    {
      if outcome == NotReplaced {
        return Some(SaveFailed);
      }
      file := Document(Doc(records));
      return if outcome == Replaced then None else Some(SaveFailed);
    }

    method UpdateCredential(id: string, secret: string, env: Env) returns (error: Option<Error>)
      modifies this
      ensures (View(), error) == ApplyUpdate(aead, old(View()), id, secret, env)
    {
      var i := IndexOfId(store, id);
      if i == |store| {
        return Some(NotFound);
      }
      var updated := store[i := ChangedRecord(aead, store[i], secret, env)];
      error := SaveStore(updated, env.outcome);
      if error.None? {
        store := updated;
      }
    }

    method SaveCredential(user: string, provider: string, secret: string, env: Env) returns (error: Option<Error>)
      modifies this
      ensures (View(), error) == Apply(aead, old(View()), Save(user, provider, secret), env)
    {
      if user == "" || provider == "" {
        return Some(InvalidIdentity);
      }
      var i := 0;
      while i < |store|
        invariant i <= |store| && View() == old(View())
        invariant forall j :: 0 <= j < i ==> !(store[j].userId == user && store[j].providerId == provider)
      {
        if store[i].userId == user && store[i].providerId == provider {
          error := UpdateCredential(store[i].credentialId, secret, env);
          return;
        }
        i := i + 1;
      }
      var updated := store + [NewRecord(aead, user, provider, secret, env)];
      error := SaveStore(updated, env.outcome);
      if error.None? {
        store := updated;
      }
    }

    method DeleteCredential(id: string, env: Env) returns (error: Option<Error>)
      modifies this
      ensures (View(), error) == Apply(aead, old(View()), Delete(id), env)
    {
      var i := IndexOfId(store, id);
      if i == |store| {
        return Some(NotFound);
      }
      var updated := store[..i] + store[i+1..];
      error := SaveStore(updated, env.outcome);
      if error.None? {
        store := updated;
      }
    }

    // get_credential_by_provider with decryption.
    method GetSecret(user: string, provider: string) returns (r: Result<string, Error>)
      ensures var i := IndexOfIdentity(store, user, provider);
        r == if i == |store| then Err(NotFound)
             else if Secret(aead, store[i]).None? then Err(Tampered)
             else Ok(Secret(aead, store[i]).value)
    {
      var i := 0;
      while i < |store|
        invariant i <= |store|
        invariant forall j :: 0 <= j < i ==> !(store[j].userId == user && store[j].providerId == provider)
      {
        if store[i].userId == user && store[i].providerId == provider {
          var secret := Secret(aead, store[i]);
          return if secret.None? then Err(Tampered) else Ok(secret.value);
        }
        i := i + 1;
      }
      return Err(NotFound);
    }

    method LoadStore(env: LoadEnv) returns (error: Option<Error>)
      modifies this
      ensures var (disk, r) := Load(aead, old(file), env);
        && file == disk
        && store == (if r.Ok? then r.value else old(store))
        && error == (if r.Ok? then None else Some(r.error))
    {
      match file {
        case Missing =>
          store := [];
          return None;
        case Unreadable =>
          return Some(LoadFailed);
        case Document(doc) =>
          var header := Header(doc);
          if header.Err? {
            return Some(header.error);
          }
          var loaded := ReadItems(header.value.1);
          if loaded.Err? {
            return Some(loaded.error);
          }
          if header.value.0 == 1 {
            error := MigrateLegacy(loaded.value, env);
            return;
          }
          if !env.protects {
            return Some(Unprotected);
          }
          store := loaded.value;
          return None;
      }
    }

    static method ReadItems(items: seq<Value>) returns (r: Result<Records, Error>)
      ensures r == LoadRecords(items)
    {
      var loaded: Records := [];
      var ids: set<string>, identities: set<(string, string)> := {}, {};
      for k := 0 to |items|
        invariant LoadRecords(items[..k]) == Ok(loaded)
        invariant Tracks(ids, identities, loaded)
      {
        LoadStep(items, k, loaded);
        var c := FromDict(items[k]);
        if c.None? {
          LoadFails(items, k + 1);
          return Err(InvalidRecord);
        }
        if c.value.credentialId in ids || (c.value.userId, c.value.providerId) in identities {
          LoadFails(items, k + 1);
          return Err(Duplicate);
        }
        TracksAppend(ids, identities, loaded, c.value);
        loaded := loaded + [c.value];
        ids := ids + {c.value.credentialId};
        identities := identities + {(c.value.userId, c.value.providerId)};
      }
      assert items[..|items|] == items;
      return Ok(loaded);
    }

    // Every legacy record is authenticated before anything is written.
    method MigrateLegacy(records: Records, env: LoadEnv) returns (error: Option<Error>)
      modifies this
      ensures var (disk, r) := Migrate(aead, old(file), records, env);
        && file == disk
        && store == (if r.Ok? then r.value else old(store))
        && error == (if r.Ok? then None else Some(r.error))
    {
      var plaintexts := DecryptAll(aead, records);
      if plaintexts.None? {
        return Some(Tampered);
      }
      var migrated := EncryptAll(aead, records, plaintexts.value, env.nonceAt);
      error := SaveStore(migrated, env.outcome);
      if error.None? {
        store := migrated;
      }
    }

    static method DecryptAll(aead: Aead, records: Records) returns (r: Option<seq<Bytes>>)
      ensures r == LegacyPlaintexts(aead, records)
      ensures r.Some? ==> |r.value| == |records|
    {
      var plaintexts: seq<Bytes> := [];
      for k := 0 to |records|
        invariant |plaintexts| == k && LegacyPlaintexts(aead, records[..k]) == Some(plaintexts)
      {
        assert records[..k+1][..k] == records[..k];
        var p := Decrypt(aead, records[k], []);
        if p.None? {
          LegacyFails(aead, records, k + 1);
          return None;
        }
        plaintexts := plaintexts + [p.value];
      }
      assert records[..|records|] == records;
      return Some(plaintexts);
    }

    static method EncryptAll(aead: Aead, records: Records, plaintexts: seq<Bytes>, nonceAt: nat -> Bytes)
      returns (migrated: Records)
      requires |records| == |plaintexts|
      ensures migrated == Reencrypted(aead, records, plaintexts, nonceAt)
    {
      ghost var all := Reencrypted(aead, records, plaintexts, nonceAt);
      migrated := [];
      for k := 0 to |records|
        invariant migrated == all[..k]
      {
        var c := Encrypt(aead, records[k], plaintexts[k], nonceAt(k));
        assert c == all[k];
        migrated := migrated + [c];
      }
    }
  }

  // The sets the loading loop fills.
  ghost predicate Tracks(ids: set<string>, identities: set<(string, string)>, loaded: Records) {
    && (forall id :: id in ids <==> IndexOfId(loaded, id) < |loaded|)
    && (forall u, p :: (u, p) in identities <==> IndexOfIdentity(loaded, u, p) < |loaded|)
  }

  lemma TracksAppend(ids: set<string>, identities: set<(string, string)>, loaded: Records, c: StoredCredential)
    requires Tracks(ids, identities, loaded)
    ensures Tracks(ids + {c.credentialId}, identities + {(c.userId, c.providerId)}, loaded + [c])
  {
    IndexAppend(loaded, c);
  }

  lemma LoadStep(items: seq<Value>, k: nat, loaded: Records)
    requires k < |items| && LoadRecords(items[..k]) == Ok(loaded)
    ensures var c := FromDict(items[k]);
      LoadRecords(items[..k+1]) ==
        if c.None? then Err(InvalidRecord)
        else if IndexOfId(loaded, c.value.credentialId) < |loaded|
             || IndexOfIdentity(loaded, c.value.userId, c.value.providerId) < |loaded| then Err(Duplicate)
        else Ok(loaded + [c.value])
  {
    assert items[..k+1][..k] == items[..k];
  }

  lemma {:induction false} LoadFails(items: seq<Value>, n: nat)
    requires n <= |items| && LoadRecords(items[..n]).Err?
    ensures LoadRecords(items) == LoadRecords(items[..n])
  {
    if n < |items| {
      assert items[..|items|-1][..n] == items[..n];
      LoadFails(items[..|items|-1], n);
    } else {
      assert items[..n] == items;
    }
  }

  lemma {:induction false} LegacyFails(aead: Aead, records: Records, n: nat)
    requires n <= |records| && LegacyPlaintexts(aead, records[..n]).None?
    ensures LegacyPlaintexts(aead, records).None?
  {
    if n < |records| {
      assert records[..|records|-1][..n] == records[..n];
      LegacyFails(aead, records[..|records|-1], n);
    } else {
      assert records[..n] == records;
    }
  }

  lemma IndexAppend(records: Records, c: StoredCredential)
    ensures forall id :: IndexOfId(records + [c], id) < |records| + 1 <==>
      IndexOfId(records, id) < |records| || id == c.credentialId
    ensures forall u, p :: IndexOfIdentity(records + [c], u, p) < |records| + 1 <==>
      IndexOfIdentity(records, u, p) < |records| || (u == c.userId && p == c.providerId)
  {
    var all := records + [c];
    forall id
      ensures IndexOfId(all, id) < |all| <==> IndexOfId(records, id) < |records| || id == c.credentialId
    {
      var i, j := IndexOfId(records, id), IndexOfId(all, id);
      assert i < |records| ==> all[i] == records[i];
      assert all[|records|] == c;
    }
    forall u, p
      ensures IndexOfIdentity(all, u, p) < |all| <==>
        IndexOfIdentity(records, u, p) < |records| || (u == c.userId && p == c.providerId)
    {
      var i, j := IndexOfIdentity(records, u, p), IndexOfIdentity(all, u, p);
      assert i < |records| ==> all[i] == records[i];
      assert all[|records|] == c;
    }
  }
}
