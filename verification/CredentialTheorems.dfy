/** What the credential store guarantees over whole runs. */
module CredentialTheorems {
  import opened Common
  import opened Json
  import opened Utf8
  import opened CredentialCodec
  import opened CredentialStores

  type Key = (string, string)

  function KeyOf(c: StoredCredential): Key {
    (c.userId, c.providerId)
  }

  ghost predicate Distinct(records: Records) {
    forall i, j :: 0 <= i < j < |records| ==>
      records[i].credentialId != records[j].credentialId && KeyOf(records[i]) != KeyOf(records[j])
  }

  // `decrypts` is what decryption makes of a record.
  type Decrypts = StoredCredential -> Option<string>

  function Decryptor(aead: Aead): Decrypts {
    c => Secret(aead, c)
  }

  // What loading accepts: it checks shapes and duplicates, and authenticates nothing.
  ghost predicate ValidRecords(records: Records) {
    Distinct(records) && forall i :: 0 <= i < |records| ==> WellFormed(records[i])
  }

  // What each pair answers; None is the answer of a record that was tampered with.
  type Contents = map<Key, Option<string>>

  // The map the records stand for.
  function Abs(decrypts: Decrypts, records: Records): Contents {
    if records == [] then map[]
    else
      var last := records[|records|-1];
      Abs(decrypts, records[..|records|-1])[KeyOf(last) := decrypts(last)]
  }

  // Loading the file gives these records and does not write.
  ghost predicate LoadsAs(disk: Disk, records: Records) {
    match disk
    case Missing => records == []
    case Unreadable => false
    case Document(doc) =>
      var header := Header(doc);
      header.Ok? && header.value.0 == 2 && LoadRecords(header.value.1) == Ok(records)
  }

  ghost predicate IsAbs(decrypts: Decrypts, records: Records, m: Contents) {
    && (forall i :: 0 <= i < |records| ==> KeyOf(records[i]) in m && m[KeyOf(records[i])] == decrypts(records[i]))
    && (forall k :: k in m ==> exists i :: 0 <= i < |records| && KeyOf(records[i]) == k)
  }

  lemma {:induction false} AbsSpec(decrypts: Decrypts, records: Records)
    requires Distinct(records)
    ensures IsAbs(decrypts, records, Abs(decrypts, records))
  {
    if records != [] {
      var n := |records| - 1;
      var init, m, m' := records[..n], Abs(decrypts, records[..n]), Abs(decrypts, records);
      AbsSpec(decrypts, init);
      forall i | 0 <= i < |records|
        ensures KeyOf(records[i]) in m' && m'[KeyOf(records[i])] == decrypts(records[i])
      {
        if i < n {
          assert init[i] == records[i];
        }
      }
      forall k | k in m' ensures exists i :: 0 <= i < |records| && KeyOf(records[i]) == k {
        if k in m {
          var i :| 0 <= i < n && KeyOf(init[i]) == k;
          assert records[i] == init[i];
        } else {
          assert KeyOf(records[n]) == k;
        }
      }
    }
  }

  lemma AbsUnique(decrypts: Decrypts, records: Records, m: Contents)
    requires Distinct(records) && IsAbs(decrypts, records, m)
    ensures Abs(decrypts, records) == m
  {
    AbsSpec(decrypts, records);
    var m' := Abs(decrypts, records);
    assert m.Keys == m'.Keys;
    forall k | k in m ensures m[k] == m'[k] {
      var i :| 0 <= i < |records| && KeyOf(records[i]) == k;
    }
  }

  // ---------- effects ----------

  datatype Effect = Put(key: Key, secret: string) | Drop(key: Key)

  function Perform(m: Contents, e: Effect): Contents {
    match e
    case Put(key, secret) => m[key := Some(secret)]
    case Drop(key) => m - {key}
  }

  // The list an operation tries to publish, if it gets that far.
  function Updated(aead: Aead, records: Records, op: Op, env: Env): Option<Records> {
    match op
    case Save(user, provider, secret) =>
      if user == "" || provider == "" then None
      else
        var i := IndexOfIdentity(records, user, provider);
        if i < |records| then
          var j := IndexOfId(records, records[i].credentialId);
          if j < |records| then Some(records[j := ChangedRecord(aead, records[j], secret, env)]) else None
        else Some(records + [NewRecord(aead, user, provider, secret, env)])
    case Update(id, secret) =>
      var i := IndexOfId(records, id);
      if i < |records| then Some(records[i := ChangedRecord(aead, records[i], secret, env)]) else None
    case Delete(id) =>
      var i := IndexOfId(records, id);
      if i < |records| then Some(records[..i] + records[i+1..]) else None
  }

  function EffectOf(records: Records, op: Op): Effect {
    match op
    case Save(user, provider, secret) => Put((user, provider), secret)
    case Update(id, secret) =>
      var i := IndexOfId(records, id);
      Put(if i < |records| then KeyOf(records[i]) else ("", ""), secret)
    case Delete(id) =>
      var i := IndexOfId(records, id);
      Drop(if i < |records| then KeyOf(records[i]) else ("", ""))
  }

  lemma AppendRecord(decrypts: Decrypts, records: Records, c: StoredCredential)
    requires ValidRecords(records) && WellFormed(c)
    requires IndexOfId(records, c.credentialId) == |records| && IndexOfIdentity(records, c.userId, c.providerId) == |records|
    ensures ValidRecords(records + [c])
    ensures Abs(decrypts, records + [c]) == Abs(decrypts, records)[KeyOf(c) := decrypts(c)]
  {
    assert (records + [c])[..|records|] == records;
  }

  lemma ReplaceKeepsValid(records: Records, i: nat, c: StoredCredential)
    requires ValidRecords(records) && WellFormed(c) && i < |records|
    requires c.credentialId == records[i].credentialId && KeyOf(c) == KeyOf(records[i])
    ensures ValidRecords(records[i := c])
  {
    var after := records[i := c];
    forall j, k | 0 <= j < k < |after|
      ensures after[j].credentialId != after[k].credentialId && KeyOf(after[j]) != KeyOf(after[k])
    {
      assert records[j].credentialId != records[k].credentialId && KeyOf(records[j]) != KeyOf(records[k]);
    }
  }

  lemma ReplaceIsAbs(decrypts: Decrypts, records: Records, i: nat, c: StoredCredential, m: Contents)
    requires Distinct(records) && IsAbs(decrypts, records, m) && i < |records| && KeyOf(c) == KeyOf(records[i])
    ensures IsAbs(decrypts, records[i := c], m[KeyOf(c) := decrypts(c)])
  {
    var after, m' := records[i := c], m[KeyOf(c) := decrypts(c)];
    forall j | 0 <= j < |after| ensures KeyOf(after[j]) in m' && m'[KeyOf(after[j])] == decrypts(after[j]) {
      assert j != i ==> KeyOf(records[j]) != KeyOf(records[i]);
    }
    forall k | k in m' ensures exists j :: 0 <= j < |after| && KeyOf(after[j]) == k {
      if k == KeyOf(c) {
        assert KeyOf(after[i]) == k;
      } else {
        var j :| 0 <= j < |records| && KeyOf(records[j]) == k;
        assert KeyOf(after[j]) == k;
      }
    }
  }

  lemma ReplaceRecord(decrypts: Decrypts, records: Records, i: nat, c: StoredCredential)
    requires ValidRecords(records) && WellFormed(c) && i < |records|
    requires c.credentialId == records[i].credentialId && KeyOf(c) == KeyOf(records[i])
    ensures ValidRecords(records[i := c])
    ensures Abs(decrypts, records[i := c]) == Abs(decrypts, records)[KeyOf(c) := decrypts(c)]
  {
    ReplaceKeepsValid(records, i, c);
    AbsSpec(decrypts, records);
    ReplaceIsAbs(decrypts, records, i, c, Abs(decrypts, records));
    AbsUnique(decrypts, records[i := c], Abs(decrypts, records)[KeyOf(c) := decrypts(c)]);
  }

  lemma RemovedShape(records: Records, i: nat, j: nat)
    requires i < |records| && j < |records| - 1
    ensures (records[..i] + records[i+1..])[j] == records[if j < i then j else j + 1]
  {
  }

  lemma RemoveKeepsValid(records: Records, i: nat)
    requires ValidRecords(records) && i < |records|
    ensures ValidRecords(records[..i] + records[i+1..])
  {
    var after := records[..i] + records[i+1..];
    forall j, k | 0 <= j < k < |after|
      ensures after[j].credentialId != after[k].credentialId && KeyOf(after[j]) != KeyOf(after[k])
    {
      RemovedShape(records, i, j);
      RemovedShape(records, i, k);
    }
    forall j | 0 <= j < |after| ensures WellFormed(after[j]) {
      RemovedShape(records, i, j);
    }
  }

  lemma RemoveRecord(decrypts: Decrypts, records: Records, i: nat)
    requires ValidRecords(records) && i < |records|
    ensures ValidRecords(records[..i] + records[i+1..])
    ensures Abs(decrypts, records[..i] + records[i+1..]) == Abs(decrypts, records) - {KeyOf(records[i])}
  {
    var after := records[..i] + records[i+1..];
    var m := Abs(decrypts, records) - {KeyOf(records[i])};
    RemoveKeepsValid(records, i);
    AbsSpec(decrypts, records);
    RemoveIsAbs(decrypts, records, i, Abs(decrypts, records));
    AbsUnique(decrypts, after, m);
  }

  // Each remaining record keeps its key and its value; no key is left without one.
  lemma RemoveIsAbs(decrypts: Decrypts, records: Records, i: nat, m: Contents)
    requires Distinct(records) && IsAbs(decrypts, records, m) && i < |records|
    ensures IsAbs(decrypts, records[..i] + records[i+1..], m - {KeyOf(records[i])})
  {
    var after, m' := records[..i] + records[i+1..], m - {KeyOf(records[i])};
    forall j | 0 <= j < |after|
      ensures KeyOf(after[j]) in m' && m'[KeyOf(after[j])] == decrypts(after[j])
    {
      RemovedShape(records, i, j);
      var k := if j < i then j else j + 1;
      assert KeyOf(records[k]) != KeyOf(records[i]);
    }
    forall k | k in m' ensures exists j :: 0 <= j < |after| && KeyOf(after[j]) == k {
      var j := RemainingIndex(records, i, k);
    }
  }

  lemma RemainingIndex(records: Records, i: nat, k: Key) returns (j: nat)
    requires i < |records| && k != KeyOf(records[i])
    requires exists h :: 0 <= h < |records| && KeyOf(records[h]) == k
    ensures j < |records| - 1 && KeyOf((records[..i] + records[i+1..])[j]) == k
  {
    var h :| 0 <= h < |records| && KeyOf(records[h]) == k;
    j := if h < i then h else h - 1;
    RemovedShape(records, i, j);
  }

  lemma EncryptedOpens(aead: Aead, c: StoredCredential, secret: string, nonce: Bytes)
    requires Ideal(aead)
    ensures Secret(aead, Encrypt(aead, c, Encode(secret), nonce)) == Some(secret)
    ensures Encrypt(aead, c, Encode(secret), nonce).encryptedSecret != []
  {
    StrictInvertsEncode(secret);
    var a := aead.aad(c.credentialId, c.userId, c.providerId);
    assert aead.open(nonce, aead.seal(nonce, Encode(secret), a), a) == Some(Encode(secret));
  }

  lemma NewRecordIsValid(aead: Aead, user: string, provider: string, secret: string, env: Env, records: Records)
    requires Ideal(aead) && ValidEnv(env, records) && user != "" && provider != ""
    ensures var c := NewRecord(aead, user, provider, secret, env);
      && WellFormed(c) && Decryptor(aead)(c) == Some(secret)
      && KeyOf(c) == (user, provider) && c.credentialId == env.uuid
      && c.createdAt == env.now && c.updatedAt == env.now && c.nonce == env.nonce
  {
    EncryptedOpens(aead, StoredCredential(env.uuid, user, provider, [], [], env.now, env.now), secret, env.nonce);
  }

  lemma ChangedRecordIsValid(aead: Aead, c: StoredCredential, secret: string, env: Env, records: Records)
    requires Ideal(aead) && ValidEnv(env, records) && WellFormed(c)
    ensures var c' := ChangedRecord(aead, c, secret, env);
      && WellFormed(c') && Decryptor(aead)(c') == Some(secret)
      && c'.credentialId == c.credentialId && KeyOf(c') == KeyOf(c) && c'.createdAt == c.createdAt
      && TimeValue(c'.updatedAt) >= TimeValue(c.updatedAt) && TimeValue(c'.updatedAt) >= TimeValue(env.now)
      && (c'.updatedAt == c.updatedAt || c'.updatedAt == env.now) && c'.nonce == env.nonce
  {
    EncryptedOpens(aead, c, secret, env.nonce);
  }

  lemma ApplyIsPublish(aead: Aead, s: State, op: Op, env: Env)
    ensures var u := Updated(aead, s.records, op, env);
      if u.Some? then Apply(aead, s, op, env) == Publish(s, u.value, env.outcome)
      else Apply(aead, s, op, env).0 == s && Apply(aead, s, op, env).1.Some?
  {
  }

  // What an operation tries to publish is valid and differs by its effect.
  lemma UpdatedIsEffect(aead: Aead, records: Records, op: Op, env: Env)
    requires Ideal(aead) && ValidRecords(records) && ValidEnv(env, records)
    requires Updated(aead, records, op, env).Some?
    ensures ValidRecords(Updated(aead, records, op, env).value)
    ensures Abs(Decryptor(aead), Updated(aead, records, op, env).value)
         == Perform(Abs(Decryptor(aead), records), EffectOf(records, op))
  {
    match op {
      case Save(user, provider, secret) =>
        SaveIsPut(aead, records, user, provider, secret, env);
      case Update(id, secret) =>
        ChangeIsPut(aead, records, IndexOfId(records, id), secret, env);
      case Delete(id) =>
        RemoveRecord(Decryptor(aead), records, IndexOfId(records, id));
    }
  }

  lemma SaveIsPut(aead: Aead, records: Records, user: string, provider: string, secret: string, env: Env)
    requires Ideal(aead) && ValidRecords(records) && ValidEnv(env, records)
    requires user != "" && provider != ""
    ensures var after := Updated(aead, records, Save(user, provider, secret), env);
      && after.Some? && ValidRecords(after.value)
      && Abs(Decryptor(aead), after.value) == Perform(Abs(Decryptor(aead), records), Put((user, provider), secret))
  {
    var i := IndexOfIdentity(records, user, provider);
    if i < |records| {
      assert IndexOfId(records, records[i].credentialId) == i;
      ChangeIsPut(aead, records, i, secret, env);
    } else {
      NewRecordIsValid(aead, user, provider, secret, env, records);
      AppendRecord(Decryptor(aead), records, NewRecord(aead, user, provider, secret, env));
    }
  }

  lemma ChangeIsPut(aead: Aead, records: Records, i: nat, secret: string, env: Env)
    requires Ideal(aead) && ValidRecords(records) && ValidEnv(env, records) && i < |records|
    ensures var after := records[i := ChangedRecord(aead, records[i], secret, env)];
      && ValidRecords(after)
      && Abs(Decryptor(aead), after) == Perform(Abs(Decryptor(aead), records), Put(KeyOf(records[i]), secret))
  {
    ChangedRecordIsValid(aead, records[i], secret, env, records);
    ReplaceRecord(Decryptor(aead), records, i, ChangedRecord(aead, records[i], secret, env));
  }

  // ---------- runs ----------

  datatype Call = Call(op: Op, env: Env)

  // The state and the effects of the acknowledged operations, oldest first.
  function Run(aead: Aead, start: State, calls: seq<Call>): (State, seq<Effect>) {
    if calls == [] then (start, [])
    else
      var (s, acknowledged) := Run(aead, start, calls[..|calls|-1]);
      var c := calls[|calls|-1];
      var (s', error) := Apply(aead, s, c.op, c.env);
      (s', if error.None? then acknowledged + [EffectOf(s.records, c.op)] else acknowledged)
  }

  // Every identifier drawn is new, every nonce and clock reading is well formed.
  ghost predicate FreshRun(aead: Aead, start: State, calls: seq<Call>) {
    calls != [] ==>
      && FreshRun(aead, start, calls[..|calls|-1])
      && ValidEnv(calls[|calls|-1].env, Run(aead, start, calls[..|calls|-1]).0.records)
  }

  function Replay(start: Contents, effects: seq<Effect>): Contents {
    if effects == [] then start else Perform(Replay(start, effects[..|effects|-1]), effects[|effects|-1])
  }

  // What the last acknowledged operation on a key left, or what was there at the start.
  function LastCommitted(start: Contents, effects: seq<Effect>, key: Key): Option<Option<string>> {
    if effects == [] then (if key in start then Some(start[key]) else None)
    else
      var last := effects[|effects|-1];
      if last.key != key then LastCommitted(start, effects[..|effects|-1], key)
      else if last.Put? then Some(Some(last.secret))
      else None
  }

  lemma {:induction false} ReplayIsLast(start: Contents, effects: seq<Effect>, key: Key)
    ensures LastCommitted(start, effects, key)
         == if key in Replay(start, effects) then Some(Replay(start, effects)[key]) else None
  {
    if effects != [] {
      ReplayIsLast(start, effects[..|effects|-1], key);
    }
  }

  ghost predicate GoodFile(disk: Disk) {
    exists records :: LoadsAs(disk, records)
  }

  ghost predicate StoreInv(aead: Aead, start: Contents, s: State, acknowledged: seq<Effect>) {
    && ValidRecords(s.records)
    && Abs(Decryptor(aead), s.records) == Replay(start, acknowledged)
    && GoodFile(s.disk)
  }

  // One operation, seen as an attempt to publish a list.
  lemma PublishKeepsInv(aead: Aead, start: Contents, s: State, acknowledged: seq<Effect>,
                        updated: Records, e: Effect, outcome: SaveOutcome)
    requires StoreInv(aead, start, s, acknowledged)
    requires ValidRecords(updated)
    requires Abs(Decryptor(aead), updated) == Perform(Abs(Decryptor(aead), s.records), e)
    ensures var (s', error) := Publish(s, updated, outcome);
      && StoreInv(aead, start, s', if error.None? then acknowledged + [e] else acknowledged)
      && (Opened(s) && outcome != ReplacedThenRaised ==> Opened(s'))
  {
    ReplayStep(start, acknowledged, e);
    WrittenLoadsAs(updated);
  }

  lemma ApplyKeepsInv(aead: Aead, start: Contents, s: State, acknowledged: seq<Effect>, c: Call)
    requires Ideal(aead) && StoreInv(aead, start, s, acknowledged) && ValidEnv(c.env, s.records)
    ensures var (s', error) := Apply(aead, s, c.op, c.env);
      && StoreInv(aead, start, s', if error.None? then acknowledged + [EffectOf(s.records, c.op)] else acknowledged)
      && (Opened(s) && c.env.outcome != ReplacedThenRaised ==> Opened(s'))
  {
    ApplyIsPublish(aead, s, c.op, c.env);
    var u := Updated(aead, s.records, c.op, c.env);
    if u.Some? {
      UpdatedIsEffect(aead, s.records, c.op, c.env);
      PublishKeepsInv(aead, start, s, acknowledged, u.value, EffectOf(s.records, c.op), c.env.outcome);
    }
  }

  ghost predicate NoLateErrors(calls: seq<Call>) {
    forall i :: 0 <= i < |calls| ==> calls[i].env.outcome != ReplacedThenRaised
  }

  // A store as a successful load leaves it: memory is what loading the file gives.
  ghost predicate Opened(s: State) {
    LoadsAs(s.disk, s.records)
  }

  lemma OpenedIsValid(s: State)
    requires Opened(s)
    ensures ValidRecords(s.records)
  {
    if s.disk.Document? {
      LoadedAreDistinct(Header(s.disk.doc).value.1);
    }
  }

  lemma {:induction false} RunInvariant(aead: Aead, start: State, calls: seq<Call>)
    requires Ideal(aead) && Opened(start) && FreshRun(aead, start, calls)
    ensures StoreInv(aead, Abs(Decryptor(aead), start.records), Run(aead, start, calls).0, Run(aead, start, calls).1)
    ensures NoLateErrors(calls) ==> Opened(Run(aead, start, calls).0)
  {
    if calls == [] {
      OpenedIsValid(start);
    } else {
      var init := calls[..|calls|-1];
      RunInvariant(aead, start, init);
      var (s, acknowledged) := Run(aead, start, init);
      ApplyKeepsInv(aead, Abs(Decryptor(aead), start.records), s, acknowledged, calls[|calls|-1]);
      assert NoLateErrors(calls) ==> NoLateErrors(init);
    }
  }

  lemma ReplayStep(start: Contents, effects: seq<Effect>, e: Effect)
    ensures Replay(start, effects + [e]) == Perform(Replay(start, effects), e)
  {
    assert (effects + [e])[..|effects|] == effects;
  }

  // A lookup by user and provider answers with the map.
  lemma LookupIsMap(decrypts: Decrypts, records: Records, user: string, provider: string)
    requires ValidRecords(records)
    ensures var i, m := IndexOfIdentity(records, user, provider), Abs(decrypts, records);
      if i < |records| then (user, provider) in m && m[(user, provider)] == decrypts(records[i])
      else (user, provider) !in m
  {
    AbsSpec(decrypts, records);
    var i := IndexOfIdentity(records, user, provider);
    if i < |records| {
      assert KeyOf(records[i]) == (user, provider);
    } else {
      assert forall j :: 0 <= j < |records| ==> KeyOf(records[j]) != (user, provider);
    }
  }

  // After any run on an opened store, and whatever failed in it, every key has a
  // record exactly if the acknowledged operations left one, and decryption returns
  // the last acknowledged secret; a record that was tampered with before the run
  // answers nothing until it is replaced.
  lemma StoreRefinesMap(aead: Aead, start: State, calls: seq<Call>, user: string, provider: string)
    requires Ideal(aead) && Opened(start) && FreshRun(aead, start, calls)
    ensures var (s, acknowledged) := Run(aead, start, calls);
      var i := IndexOfIdentity(s.records, user, provider);
      LastCommitted(Abs(Decryptor(aead), start.records), acknowledged, (user, provider))
        == if i < |s.records| then Some(Secret(aead, s.records[i])) else None
  {
    RunInvariant(aead, start, calls);
    var (s, acknowledged) := Run(aead, start, calls);
    LookupIsMap(Decryptor(aead), s.records, user, provider);
    ReplayIsLast(Abs(Decryptor(aead), start.records), acknowledged, (user, provider));
  }

  // ---------- reopening ----------

  // Items that read as distinct records load as these records.
  lemma {:induction false} LoadWritten(items: seq<Value>, records: Records, n: nat)
    requires Distinct(records) && |items| == |records| && n <= |records|
    requires forall i :: 0 <= i < |records| ==> FromDict(items[i]) == Some(records[i])
    ensures LoadRecords(items[..n]) == Ok(records[..n])
  {
    hide FromDict;
    if n == 0 {
      assert items[..0] == [] && records[..0] == [];
    } else {
      LoadWritten(items, records, n - 1);
      NotAmong(records, n - 1);
      LoadNext(items, n - 1, records[..n-1], records[n-1]);
      assert records[..n] == records[..n-1] + [records[n-1]];
    }
  }

  lemma LoadNext(items: seq<Value>, k: nat, before: Records, c: StoredCredential)
    requires k < |items| && LoadRecords(items[..k]) == Ok(before) && FromDict(items[k]) == Some(c)
    requires IndexOfId(before, c.credentialId) == |before| && IndexOfIdentity(before, c.userId, c.providerId) == |before|
    ensures LoadRecords(items[..k+1]) == Ok(before + [c])
  {
    LoadStep(items, k, before);
  }

  lemma NotAmong(records: Records, n: nat)
    requires Distinct(records) && n < |records|
    ensures IndexOfId(records[..n], records[n].credentialId) == n
    ensures IndexOfIdentity(records[..n], records[n].userId, records[n].providerId) == n
  {
    assert forall k :: 0 <= k < n ==> records[..n][k] == records[k];
    assert forall k :: 0 <= k < n ==>
      records[k].credentialId != records[n].credentialId && KeyOf(records[k]) != KeyOf(records[n]);
  }

  lemma HeaderOfDoc(records: Records)
    ensures Header(Doc(records)) == Ok((2, Doc(records).fields["credentials"].items))
  {
  }

  lemma WrittenLoadsAs(records: Records)
    requires ValidRecords(records)
    ensures LoadsAs(Document(Doc(records)), records)
  {
    WrittenRecordsLoad(records);
    HeaderOfDoc(records);
  }

  lemma WrittenRecordsLoad(records: Records)
    requires Distinct(records) && forall i :: 0 <= i < |records| ==> WellFormed(records[i])
    ensures LoadRecords(Doc(records).fields["credentials"].items) == Ok(records)
  {
    var items := Doc(records).fields["credentials"].items;
    forall i | 0 <= i < |records| ensures FromDict(items[i]) == Some(records[i]) {
      RecordRoundTrip(records[i]);
    }
    LoadWritten(items, records, |records|);
    assert items[..|records|] == items && records[..|records|] == records;
  }

  lemma LoadKeeps(aead: Aead, disk: Disk, records: Records, env: LoadEnv)
    requires LoadsAs(disk, records) && env.protects
    ensures Load(aead, disk, env) == (disk, Ok(records))
  {
  }

  // Reopening the file after a run gives the records that memory had.
  lemma ReopenAfterRun(aead: Aead, start: State, calls: seq<Call>, env: LoadEnv)
    requires Ideal(aead) && Opened(start) && FreshRun(aead, start, calls)
    requires NoLateErrors(calls) && env.protects
    ensures var s := Run(aead, start, calls).0;
      Load(aead, s.disk, env) == (s.disk, Ok(s.records))
  {
    RunInvariant(aead, start, calls);
    var s := Run(aead, start, calls).0;
    LoadKeeps(aead, s.disk, s.records, env);
  }

  // Whatever failed in a run, the file it leaves can be opened again.
  lemma FileAlwaysOpens(aead: Aead, start: State, calls: seq<Call>, env: LoadEnv)
    requires Ideal(aead) && Opened(start) && FreshRun(aead, start, calls) && env.protects
    ensures var (disk, r) := Load(aead, Run(aead, start, calls).0.disk, env);
      r.Ok? && Opened(State(r.value, disk))
  {
    RunInvariant(aead, start, calls);
    var s := Run(aead, start, calls).0;
    var records :| LoadsAs(s.disk, records);
    LoadKeeps(aead, s.disk, records, env);
  }

  // When cleaning up fails after the replacement, the caller gets an error and
  // memory keeps the old map, but the file already holds the new one.
  lemma LateErrorDiverges(aead: Aead, s: State, op: Op, env: Env, open: LoadEnv)
    requires Ideal(aead) && ValidRecords(s.records) && ValidEnv(env, s.records) && open.protects
    requires env.outcome == ReplacedThenRaised && Updated(aead, s.records, op, env).Some?
    ensures var (s', error) := Apply(aead, s, op, env);
      && error == Some(SaveFailed) && s'.records == s.records
      && var r := Load(aead, s'.disk, open).1;
         r.Ok? && Abs(Decryptor(aead), r.value) == Perform(Abs(Decryptor(aead), s.records), EffectOf(s.records, op))
  {
    var updated := Updated(aead, s.records, op, env).value;
    ApplyIsPublish(aead, s, op, env);
    UpdatedIsEffect(aead, s.records, op, env);
    WrittenLoadsAs(updated);
    LoadKeeps(aead, Document(Doc(updated)), updated, open);
  }

  // ---------- authenticity ----------

  ghost predicate AllDecrypt(aead: Aead, records: Records) {
    forall i :: 0 <= i < |records| ==> Secret(aead, records[i]).Some?
  }

  lemma {:induction false} ReplayKeepsAnswers(start: Contents, effects: seq<Effect>)
    requires forall k :: k in start ==> start[k].Some?
    ensures forall k :: k in Replay(start, effects) ==> Replay(start, effects)[k].Some?
  {
    if effects != [] {
      ReplayKeepsAnswers(start, effects[..|effects|-1]);
    }
  }

  // If every record of the opened store decrypts, so does every record after any run.
  lemma RunKeepsAuthenticity(aead: Aead, start: State, calls: seq<Call>)
    requires Ideal(aead) && Opened(start) && FreshRun(aead, start, calls)
    requires AllDecrypt(aead, start.records)
    ensures AllDecrypt(aead, Run(aead, start, calls).0.records)
  {
    var (s, acknowledged) := Run(aead, start, calls);
    var m := Abs(Decryptor(aead), start.records);
    OpenedIsValid(start);
    AbsSpec(Decryptor(aead), start.records);
    forall k | k in m ensures m[k].Some? {
      var i :| 0 <= i < |start.records| && KeyOf(start.records[i]) == k;
    }
    RunInvariant(aead, start, calls);
    ReplayKeepsAnswers(m, acknowledged);
    AbsSpec(Decryptor(aead), s.records);
    forall i | 0 <= i < |s.records| ensures Secret(aead, s.records[i]).Some? {
      assert KeyOf(s.records[i]) in Abs(Decryptor(aead), s.records);
    }
  }

  // ---------- migration ----------

  lemma LoadedLast(items: seq<Value>)
    requires items != [] && LoadRecords(items).Ok?
    ensures var before, c := LoadRecords(items[..|items|-1]), FromDict(items[|items|-1]);
      && before.Ok? && c.Some? && WellFormed(c.value)
      && LoadRecords(items) == Ok(before.value + [c.value])
      && IndexOfId(before.value, c.value.credentialId) == |before.value|
      && IndexOfIdentity(before.value, c.value.userId, c.value.providerId) == |before.value|
  {
    if FromDict(items[|items|-1]).Some? {
      ReadIsWellFormed(items[|items|-1]);
    }
  }

  lemma AppendDistinct(before: Records, c: StoredCredential)
    requires Distinct(before)
    requires IndexOfId(before, c.credentialId) == |before|
    requires IndexOfIdentity(before, c.userId, c.providerId) == |before|
    ensures Distinct(before + [c])
  {
  }

  lemma {:induction false} LoadedAreDistinct(items: seq<Value>)
    requires LoadRecords(items).Ok?
    ensures var rs := LoadRecords(items).value;
      && Distinct(rs) && |rs| == |items|
      && forall i :: 0 <= i < |rs| ==> WellFormed(rs[i]) && FromDict(items[i]) == Some(rs[i])
  {
    hide FromDict, WellFormed;
    if items != [] {
      var init := items[..|items|-1];
      LoadedLast(items);
      LoadedAreDistinct(init);
      AppendDistinct(LoadRecords(init).value, FromDict(items[|items|-1]).value);
      assert forall i :: 0 <= i < |init| ==> init[i] == items[i];
    }
  }

  lemma {:induction false} LegacySpec(aead: Aead, records: Records)
    ensures LegacyPlaintexts(aead, records).Some? <==>
      forall i :: 0 <= i < |records| ==> Decrypt(aead, records[i], []).Some?
    ensures LegacyPlaintexts(aead, records).Some? ==>
      && |LegacyPlaintexts(aead, records).value| == |records|
      && forall i :: 0 <= i < |records| ==>
           Decrypt(aead, records[i], []) == Some(LegacyPlaintexts(aead, records).value[i])
  {
    if records != [] {
      var init := records[..|records|-1];
      LegacySpec(aead, init);
      assert forall i :: 0 <= i < |init| ==> init[i] == records[i];
    }
  }

  // Same identifiers, identity, times and plaintext, now bound to the identity.
  ghost predicate Migrated(aead: Aead, legacy: StoredCredential, c: StoredCredential) {
    && c.credentialId == legacy.credentialId && KeyOf(c) == KeyOf(legacy)
    && c.createdAt == legacy.createdAt && c.updatedAt == legacy.updatedAt
    && Decrypt(aead, c, aead.aad(c.credentialId, c.userId, c.providerId)) == Decrypt(aead, legacy, [])
  }

  lemma ReencryptedIsMigrated(aead: Aead, legacy: StoredCredential, nonce: Bytes)
    requires Ideal(aead) && WellFormed(legacy) && |nonce| == NONCE_LENGTH
    requires Decrypt(aead, legacy, []).Some?
    ensures var c := Encrypt(aead, legacy, Decrypt(aead, legacy, []).value, nonce);
      Migrated(aead, legacy, c) && WellFormed(c) && Secret(aead, c).Some?
  {
    var p, a := Decrypt(aead, legacy, []).value, aead.aad(legacy.credentialId, legacy.userId, legacy.providerId);
    assert aead.open(nonce, aead.seal(nonce, p, a), a) == Some(p);
  }

  ghost predicate AllMigrated(aead: Aead, legacy: Records, records: Records) {
    |records| == |legacy| && forall i :: 0 <= i < |legacy| ==> Migrated(aead, legacy[i], records[i])
  }

  lemma ReencryptedIsValid(aead: Aead, legacy: Records, nonceAt: nat -> Bytes)
    requires Ideal(aead) && Distinct(legacy) && forall i :: 0 <= i < |legacy| ==> WellFormed(legacy[i])
    requires forall i: nat :: |nonceAt(i)| == NONCE_LENGTH
    requires forall i :: 0 <= i < |legacy| ==> Decrypt(aead, legacy[i], []).Some?
    ensures var plaintexts := LegacyPlaintexts(aead, legacy);
      && plaintexts.Some? && |plaintexts.value| == |legacy|
      && ValidRecords(Reencrypted(aead, legacy, plaintexts.value, nonceAt))
      && AllDecrypt(aead, Reencrypted(aead, legacy, plaintexts.value, nonceAt))
      && AllMigrated(aead, legacy, Reencrypted(aead, legacy, plaintexts.value, nonceAt))
  {
    LegacySpec(aead, legacy);
    var plaintexts := LegacyPlaintexts(aead, legacy).value;
    var records := Reencrypted(aead, legacy, plaintexts, nonceAt);
    forall i | 0 <= i < |legacy|
      ensures Migrated(aead, legacy[i], records[i]) && WellFormed(records[i]) && Secret(aead, records[i]).Some?
    {
      ReencryptedIsMigrated(aead, legacy[i], nonceAt(i));
    }
  }

  ghost predicate Authentic(aead: Aead, legacy: Records) {
    forall i :: 0 <= i < |legacy| ==> Decrypt(aead, legacy[i], []).Some?
  }

  // The file is a store as this code writes it, and every record in it decrypts.
  ghost predicate HoldsStore(aead: Aead, disk: Disk, records: Records) {
    ValidRecords(records) && AllDecrypt(aead, records) && disk == Document(Doc(records))
  }

  // The result of migrating a list of authentic records.
  ghost predicate MigrationResult(aead: Aead, legacy: Records, before: Disk, outcome: SaveOutcome,
                                  disk: Disk, r: Result<Records, Error>) {
    match outcome
    case NotReplaced => r == Err(SaveFailed) && disk == before
    case Replaced => r.Ok? && AllMigrated(aead, legacy, r.value) && HoldsStore(aead, disk, r.value)
    case ReplacedThenRaised =>
      r == Err(SaveFailed) && exists records :: AllMigrated(aead, legacy, records) && HoldsStore(aead, disk, records)
  }

  lemma MigrateSpec(aead: Aead, disk: Disk, legacy: Records, env: LoadEnv)
    requires Ideal(aead) && forall i: nat :: |env.nonceAt(i)| == NONCE_LENGTH
    requires Distinct(legacy) && forall i :: 0 <= i < |legacy| ==> WellFormed(legacy[i])
    requires Authentic(aead, legacy)
    ensures var (disk', r) := Migrate(aead, disk, legacy, env);
      MigrationResult(aead, legacy, disk, env.outcome, disk', r)
  {
    ReencryptedIsValid(aead, legacy, env.nonceAt);
    var records := Reencrypted(aead, legacy, LegacyPlaintexts(aead, legacy).value, env.nonceAt);
    assert HoldsStore(aead, Document(Doc(records)), records);
  }

  lemma MigrateRefuses(aead: Aead, disk: Disk, legacy: Records, env: LoadEnv)
    requires !Authentic(aead, legacy)
    ensures Migrate(aead, disk, legacy, env) == (disk, Err(Tampered))
  {
    LegacySpec(aead, legacy);
  }

  // Loading a version 1 file publishes a version 2 store with the same contents,
  // or one record fails authentication and the file stays as it is.
  lemma MigrationAllOrNothing(aead: Aead, doc: Value, env: LoadEnv)
    requires Ideal(aead) && forall i: nat :: |env.nonceAt(i)| == NONCE_LENGTH
    requires Header(doc).Ok? && Header(doc).value.0 == 1
    requires LoadRecords(Header(doc).value.1).Ok?
    ensures var legacy := LoadRecords(Header(doc).value.1).value;
      var (disk, r) := Load(aead, Document(doc), env);
      if Authentic(aead, legacy) then MigrationResult(aead, legacy, Document(doc), env.outcome, disk, r)
      else r == Err(Tampered) && disk == Document(doc)
  {
    var items := Header(doc).value.1;
    var legacy := LoadRecords(items).value;
    LoadedAreDistinct(items);
    if Authentic(aead, legacy) {
      MigrateSpec(aead, Document(doc), legacy, env);
    } else {
      MigrateRefuses(aead, Document(doc), legacy, env);
    }
  }

  // ---------- loading, in terms of the document ----------

  // A store file of some version holding these records, with any further members.
  function StoreFile(version: int, records: Records, others: map<string, Value>): Value {
    Obj(others[
      "version" := Num(Int(version))][
      "credentials" := Arr(seq(|records|, i requires 0 <= i < |records| => ToDict(records[i])))])
  }

  lemma StoreFileLoads(records: Records, version: int, others: map<string, Value>)
    requires ValidRecords(records) && 1 <= version <= 2
    ensures var header := Header(StoreFile(version, records, others));
      header.Ok? && header.value.0 == version && LoadRecords(header.value.1) == Ok(records)
  {
    WrittenRecordsLoad(records);
  }

  // A file of distinct well-formed version 1 records is migrated if they are all
  // authentic, and refused and left alone otherwise.
  lemma LegacyFileMigrates(aead: Aead, records: Records, others: map<string, Value>, env: LoadEnv)
    requires Ideal(aead) && forall i: nat :: |env.nonceAt(i)| == NONCE_LENGTH
    requires ValidRecords(records)
    ensures var disk := Document(StoreFile(1, records, others));
      var (disk', r) := Load(aead, disk, env);
      if forall i :: 0 <= i < |records| ==> Decrypt(aead, records[i], []).Some?
      then MigrationResult(aead, records, disk, env.outcome, disk', r)
      else r == Err(Tampered) && disk' == disk
  {
    StoreFileLoads(records, 1, others);
    MigrationAllOrNothing(aead, StoreFile(1, records, others), env);
  }

  // A file of distinct well-formed version 2 records loads as they are.
  lemma CurrentFileLoads(aead: Aead, records: Records, others: map<string, Value>, env: LoadEnv)
    requires ValidRecords(records)
    ensures var disk := Document(StoreFile(2, records, others));
      Load(aead, disk, env) == (disk, if env.protects then Ok(records) else Err(Unprotected))
  {
    StoreFileLoads(records, 2, others);
  }

  predicate HasVersion(doc: Value) {
    doc.Obj? && "version" in doc.fields && doc.fields["version"].Num? && doc.fields["version"].number.Int?
  }

  predicate KnownVersion(doc: Value) {
    HasVersion(doc) && (doc.fields["version"].number.n == 1 || doc.fields["version"].number.n == 2)
  }

  predicate HasItems(doc: Value) {
    doc.Obj? && "credentials" in doc.fields && doc.fields["credentials"].Arr?
  }

  // Two items give records of the same credential or of the same pair.
  ghost predicate Clash(items: seq<Value>, i: nat, j: nat)
    requires i < j < |items|
  {
    var a, b := FromDict(items[i]), FromDict(items[j]);
    a.Some? && b.Some? && (a.value.credentialId == b.value.credentialId || KeyOf(a.value) == KeyOf(b.value))
  }

  ghost predicate AreRecords(items: seq<Value>) {
    && (forall i :: 0 <= i < |items| ==> FromDict(items[i]).Some?)
    && (forall i: nat, j: nat :: i < j < |items| ==> !Clash(items, i, j))
  }

  // Items load exactly if all of them are records and no two clash.
  lemma ItemsLoadExactlyWhen(items: seq<Value>)
    ensures LoadRecords(items).Ok? <==> AreRecords(items)
  {
    if LoadRecords(items).Ok? {
      LoadedAreDistinct(items);
    }
    if AreRecords(items) {
      var records := seq(|items|, i requires 0 <= i < |items| => FromDict(items[i]).value);
      forall i, j | 0 <= i < j < |records|
        ensures records[i].credentialId != records[j].credentialId && KeyOf(records[i]) != KeyOf(records[j])
      {
        assert !Clash(items, i, j);
      }
      LoadWritten(items, records, |items|);
      assert items[..|items|] == items;
    }
  }

  // Which documents are refused because of their shape, and with which error; the
  // file is never touched then.
  lemma RefusedDocuments(aead: Aead, doc: Value, env: LoadEnv)
    ensures var (disk, r) := Load(aead, Document(doc), env);
      && (r == Err(BadVersion) <==> HasVersion(doc) && !KnownVersion(doc))
      && (r == Err(BadFormat) <==> !HasVersion(doc) || (KnownVersion(doc) && !HasItems(doc)))
      && (r == Err(InvalidRecord) || r == Err(Duplicate) <==>
            KnownVersion(doc) && HasItems(doc) && !AreRecords(doc.fields["credentials"].items))
      && (r.Err? && r.error !in {Tampered, SaveFailed, Unprotected} ==> disk == Document(doc))
  {
    hide LoadRecords, Migrate, AreRecords, FromDict;
    if KnownVersion(doc) && HasItems(doc) {
      var items := doc.fields["credentials"].items;
      ItemsLoadExactlyWhen(items);
      LoadErrors(items);
      if LoadRecords(items).Ok? {
        MigrateErrors(aead, Document(doc), LoadRecords(items).value, env);
      }
    }
  }

  lemma MigrateErrors(aead: Aead, disk: Disk, records: Records, env: LoadEnv)
    ensures var r := Migrate(aead, disk, records, env).1;
      r.Err? ==> r.error in {Tampered, SaveFailed}
  {
  }

  lemma {:induction false} LoadErrors(items: seq<Value>)
    ensures LoadRecords(items).Err? ==> LoadRecords(items).error in {InvalidRecord, Duplicate}
  {
    if items != [] {
      LoadErrors(items[..|items|-1]);
    }
  }

  // Every load that succeeds, of either version, leaves an opened store.
  lemma SuccessfulLoadOpens(aead: Aead, disk: Disk, env: LoadEnv)
    requires Ideal(aead) && forall i: nat :: |env.nonceAt(i)| == NONCE_LENGTH
    requires Load(aead, disk, env).1.Ok?
    ensures var (disk', r) := Load(aead, disk, env);
      Opened(State(r.value, disk'))
  {
    if disk.Document? && Header(disk.doc).value.0 == 1 {
      MigrationAllOrNothing(aead, disk.doc, env);
      WrittenLoadsAs(Load(aead, disk, env).1.value);
    }
  }

  // An error while loading leaves the file alone, unless it came after the replacement.
  lemma FailedLoadKeepsFile(aead: Aead, disk: Disk, env: LoadEnv)
    requires Load(aead, disk, env).1.Err? && env.outcome != ReplacedThenRaised
    ensures Load(aead, disk, env).0 == disk
  {
  }

  // ---------- binding ----------

  // A ciphertext moved to another credential, user or provider does not decrypt,
  // nor does it as a legacy record.
  lemma SplicedRecordFails(aead: Aead, c: StoredCredential, id: string, user: string, provider: string)
    requires Ideal(aead) && BindsIdentity(aead) && Secret(aead, c).Some?
    requires (id, user, provider) != (c.credentialId, c.userId, c.providerId)
    ensures Secret(aead, c.(credentialId := id, userId := user, providerId := provider)).None?
    ensures Decrypt(aead, c, []).None?
  {
    AadInjective(c.credentialId, c.userId, c.providerId, id, user, provider);
    OpensUnderOne(aead, c.nonce, c.encryptedSecret, aead.aad(c.credentialId, c.userId, c.providerId), aead.aad(id, user, provider));
    OpensUnderOne(aead, c.nonce, c.encryptedSecret, aead.aad(c.credentialId, c.userId, c.providerId), []);
  }

  lemma OpensUnderOne(aead: Aead, n: Bytes, c: Bytes, a: Bytes, a': Bytes)
    requires Ideal(aead) && aead.open(n, c, a).Some? && a != a'
    ensures aead.open(n, c, a').None?
  {
    assert aead.seal(n, aead.open(n, c, a).value, a) == c;
  }

  // ---------- the idealisation is consistent ----------

  function Ones(n: nat): Bytes {
    seq(n, _ => 1)
  }

  function ToyPrefix(a: Bytes): Bytes {
    Ones(|a|) + [0] + a
  }

  function ToyOpen(n: Bytes, c: Bytes, a: Bytes): Option<Bytes> {
    if ToyPrefix(a) <= c then Some(c[|ToyPrefix(a)|..]) else None
  }

  lemma ToyPrefixUnique(a: Bytes, x: Bytes, a': Bytes, x': Bytes)
    requires ToyPrefix(a) + x == ToyPrefix(a') + x'
    ensures a == a'
  {
    var c, c' := ToyPrefix(a) + x, ToyPrefix(a') + x';
    assert forall i :: 0 <= i < |a| ==> c[i] == 1;
    assert forall i :: 0 <= i < |a'| ==> c'[i] == 1;
    assert c[|a|] == 0 && c'[|a'|] == 0;
    assert |a| == |a'|;
    assert a == c[|a|+1..2*|a|+1] && a' == c'[|a'|+1..2*|a'|+1];
  }

  // Some scheme meets the assumptions made of AES-GCM (one without any secrecy).
  lemma IdealIsPossible()
    ensures exists aead :: Ideal(aead) && BindsIdentity(aead)
  {
    var aead := Aead((n: Bytes, p: Bytes, a: Bytes) => ToyPrefix(a) + p, ToyOpen, Aad);
    forall n, p, a
      ensures aead.seal(n, p, a) != [] && aead.open(n, aead.seal(n, p, a), a) == Some(p)
    {
      assert (ToyPrefix(a) + p)[|ToyPrefix(a)|..] == p;
    }
    forall n, p, a, p', a' | aead.seal(n, p, a) == aead.seal(n, p', a') ensures a == a' {
      ToyPrefixUnique(a, p, a', p');
    }
    assert Ideal(aead) && BindsIdentity(aead);
  }
}
