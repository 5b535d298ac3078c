# Verified models of the stateful reliability code

Dafny models of the parts of Omni whose guarantees only appear over whole runs,
with proofs about every run, every input or every interleaving. Check all of it
with `dafny verify dfyconfig.toml`.

| file | what it models |
|---|---|
| `PythonCircuit.dfy`, `PythonDispatch.dfy`, `PythonOverlap.dfy`, `PythonService.dfy` | the circuit breaker shared by concurrent requests, each request as an automaton, the interleaved system, what overlapping requests can do to it, and the retry loop with its subprocess fallback on the mutable breaker |
| `RateLimiter.dfy` | the bounded sliding-window table and the never-pruned admission log it must agree with |
| `Utf8.dfy`, `Text.dfy`, `TailReader.dfy` | lossy and strict UTF-8 decoding, line splitting and trimming, and the bounded reader of JSON-lines files |
| `Json.dfy`, `Redactor.dfy` | the recursive telemetry redactor |
| `CredentialCodec.dfy`, `CredentialStore.dfy`, `CredentialTheorems.dfy` | the encrypted credential store: record codec and associated data, the mutable store with its file, and its theorems over runs |
| `LockedFile.dfy` | any number of processes updating a file under a lock, with a crash possible at every step |
| `ProviderHealth.dfy` | the persisted health circuit and the gate in front of a probe |
| `ClientIdentity.dfy` | parsing and walking a forwarding chain behind trusted proxies |
| `DatasetMixer.dfy` | greedy selection under minimums and quotas |
| `ExecutionTree.dfy` | a tree built by mutation of heap nodes |

How the models are set up:

- Code that updates objects is a class whose methods are tied to functions of the
  old state; loops are loops with invariants. The theorems are about those
  functions, over sequences of calls or of interleaved steps.
- Concurrency (dispatch, locked file) is a state machine; an action that is not
  possible in a state changes nothing, so every theorem is about every sequence
  of actions. In dispatch the interleaving points are the lock acquisitions, the
  connection attempt and the exchange. A request that was admitted is never
  cancelled; a dropped future is not modelled.
- Clocks, identifiers, nonces, network outcomes and file-system failures are inputs.
  Clock readings of the limiter calls and of the gated caller are nondecreasing,
  as are those of the cool-down theorem; no other theorem restricts them.
- The cipher is an ideal AEAD (section 2 of RFC 5116): opening inverts sealing,
  only sealed messages open, and a ciphertext belongs to one associated data.
  `IdealIsPossible` shows that these assumptions can be met. A cleanup error after
  the file was replaced is an outcome of its own (`ReplacedThenRaised`).
- Characters are Unicode scalar values and JSON text is represented by its tree.

Where the code does not do what one would expect:

- Redacting twice is not always redacting once. `//` after 1199 leading blanks, and a
  slash followed only by blanks beyond the cut, become paths when they are
  truncated, and a path replaced right above the depth limit is overwritten by the
  depth marker. `RedactTwice` gives the exact condition, and three lemmas give
  inputs, for every depth limit.
- Probes can overlap. A success of any request closes the breaker, and a failure of
  a former probe counts in a later stay in HalfOpen, because the filter accepts
  every report made under HalfOpen. `StaleSuccessOverlaps` and `LateRejectOverlaps`
  are runs for both causes. `NoStrayLeaveSingleProbe` proves that there is at most
  one probe as long as every step that leaves HalfOpen is the current probe's, and
  `ExposedExactlyWhen` with `ExposedCanOverlap` that any other such step leaves a
  probe behind beside which a new one can be admitted.
- A reply that parses but cannot be used reports success and then failure, in two
  critical sections. One request alone opens the breaker only at threshold 1, but
  overlapping requests can report their successes first: `RejectsOpen` says exactly
  when such replies open the breaker, and `TwoRejectsOpen` is a run at threshold 2.
- An error while the temporary file of a locked update is removed after the
  replacement, or while the lock is released, makes the caller fail although the
  update is in the file (`OutcomesAreTrue`, `LateErrorLies`).
- Loading a version 2 credential file authenticates nothing, so an opened store may
  hold records that do not decrypt. The theorems on runs include them.
- A combined header has more bytes than its parts, so it can exceed the byte limit
  where the separate fields do not; `HeaderCombination` states both sides and
  `CombinedIsRefused` is such a header.
- The mixer's minimums ignore quotas and limit. `QuotaExceededExactly`,
  `SourceExceededExactly` and `LimitExceededExactly` say when a quota or the limit is
  exceeded, and two lemmas give inputs. An absent or negative minimum counts as 0.

## Model

| member | source | states |
|---|---|---|
| PythonCircuit.PythonCircuitBreaker.BeforeCall | backend/rust/src/main.rs:784-815 | the mutable breaker after an admission request and the observed state, for every breaker value, configuration and clock reading |
| PythonCircuit.PythonCircuitBreaker.RecordSuccess | backend/rust/src/main.rs:817-822 | success resets all four fields, from every state |
| PythonCircuit.PythonCircuitBreaker.RecordFailure | backend/rust/src/main.rs:824-845 | failure reopens a half-open breaker and otherwise counts with saturation and trips at the threshold |
| PythonCircuit.PythonCircuitBreaker.ReportFailure | backend/rust/src/main.rs:3149-3162 | a failure report is applied only if the breaker is still in the observed state or the reporter was the half-open probe |
| PythonDispatch.AtMostOnce | backend/rust/src/main.rs:3164-3232 | in every interleaving a request is written to the service or given to a fallback process at most once in all, and connects at most `retry_attempts + 1` times |
| PythonDispatch.ClosedIffFewFailures | backend/rust/src/main.rs:784-845 | in every interleaving, with stale reports, the breaker is not Closed iff the last max(1, threshold) reports were failures; while Closed the counter is the number of failures since the last success |
| PythonDispatch.DisabledBreakerStaysClosed | backend/rust/src/main.rs:785-787 | a disabled breaker never leaves its initial state in any run |
| PythonDispatch.AdvanceKeepsCallInv | backend/rust/src/main.rs:3164-3300 | each step of a request keeps it unwritten as long as a replay is still allowed |
| PythonDispatch.AdvanceKeepsHistory | backend/rust/src/main.rs:784-845 | each step of any request keeps the agreement between breaker and report history |
| PythonDispatch.StepKeepsInv | backend/rust/src/main.rs:3172-3225 | every interleaved step keeps the joint invariant of breaker, requests, history and probe |
| PythonDispatch.HalfOpenHasItsProbe | backend/rust/src/main.rs:798-801 | `half_open_in_flight` holds exactly in HalfOpen, and then the request that entered HalfOpen is still in flight |
| PythonDispatch.HalfOpenStep | backend/rust/src/main.rs:806-813 | a step that stays in HalfOpen admits nobody, leaves the probe to itself and brings the probe's report nearer |
| PythonDispatch.OneProbePerEpisode | backend/rust/src/main.rs:798-813 | entering HalfOpen admits one request, which stays the probe and needs at most two steps until its report is due |
| PythonDispatch.NoSecondProbe | backend/rust/src/main.rs:806-813 | no request is admitted between entering and leaving HalfOpen |
| PythonDispatch.ProbeReportLeavesHalfOpen | backend/rust/src/main.rs:817-845 | the probe always has a step to take, and exactly the step that delivers its report leaves HalfOpen |
| PythonDispatch.AdmittedExactlyWhen | backend/rust/src/main.rs:784-815 | in every reachable state a request is admitted iff the breaker is Closed, or Open with the reset time elapsed; counted in nanoseconds up to where 64-bit milliseconds wrap around |
| PythonDispatch.CoolDown | backend/rust/src/main.rs:791-804 | over any run with a clock that never goes back, no request is admitted before the reset time has passed since the breaker opened |
| PythonOverlap.RejectsOpen | backend/rust/src/main.rs:3205-3310 | in every interleaving whose only failures are unusable replies the breaker is not Closed iff at least as many of them as the threshold were rejected since the last success, and those requests were all waiting to be rejected when that success was reported |
| PythonOverlap.FewPendingStayClosed | backend/rust/src/main.rs:3205-3310 | with fewer requests waiting than the threshold such replies never open the breaker; when no two wait at once they open it iff the threshold is 1 and one was rejected |
| PythonOverlap.TwoRejectsOpen | backend/rust/src/main.rs:3205-3310 | two overlapping requests with unusable replies open a breaker with threshold 2 |
| PythonOverlap.WhatLeavesHalfOpen | backend/rust/src/main.rs:3149-3207 | in every reachable state with the breaker HalfOpen a step leaves it iff it reports a success of any request, or a failure of a request that was admitted as a probe, now or earlier |
| PythonOverlap.NoStrayLeaveSingleProbe | backend/rust/src/main.rs:806-813 | in every interleaving in which only the current probe's steps leave HalfOpen, every probe in flight is the current one |
| PythonOverlap.ExposedExactlyWhen | backend/rust/src/main.rs:784-845 | over every run some probe is left in flight outside HalfOpen iff some step that left HalfOpen was not the current probe's; without such a step no two probes are in flight |
| PythonOverlap.ExposedCanOverlap | backend/rust/src/main.rs:784-845 | whenever a probe is in flight outside HalfOpen, new requests alone can bring a second probe beside it |
| PythonOverlap.StaleSuccessOverlaps | backend/rust/src/main.rs:3205-3207 | a success reported late by a request admitted while Closed lets two probes be in flight |
| PythonOverlap.LateRejectOverlaps | backend/rust/src/main.rs:3149-3162 | a failure reported late by a former probe lets two probes be in flight without any late success |
| PythonService.ExecuteWithPolicy | backend/rust/src/main.rs:3164-3232 | the retry loop on the shared breaker does exactly what the request automaton does under the same interference, writes at most once, reports an error as safe to replay only if nothing was written, and returns what the first attempt decides that was not admitted and refused a connection |
| PythonService.RetriesUntilDecided | backend/rust/src/main.rs:3168-3232 | a request is tried `retry_attempts` more times, as long as it is admitted and refused a connection; result, connections and written requests are those of the first other attempt, or of the last one |
| PythonService.CallPythonService | backend/rust/src/main.rs:3250-3321 | the whole request: written requests plus launched fallbacks are at most 1, an answer needs a write, and outcome and writes are determined by the first deciding attempt, the reply and the fallback setting |
| RateLimiter.ChatRateLimiter.PopExpired | backend/rust/src/main.rs:942-947 | the popping loop computes the pruned deque |
| RateLimiter.ChatRateLimiter.Retain | backend/rust/src/main.rs:941-949 | pruning keeps exactly the clients with a young hit, each with its pruned deque |
| RateLimiter.ChatRateLimiter.CheckBucket | backend/rust/src/main.rs:930-965 | table and decision after a call, for every table, limit and time |
| RateLimiter.PruneYoungTimes | backend/rust/src/main.rs:942-947 | pruning the young admission times of an earlier moment gives those of a later one |
| RateLimiter.TableRefinesLog | backend/rust/src/main.rs:930-965 | over every run with nondecreasing time each deque holds the client's admissions younger than 60 s and every decision equals that of the never-pruned log |
| RateLimiter.AdmittedExactlyWhen | backend/rust/src/main.rs:930-965 | over every run with nondecreasing time a call is admitted iff its client has fewer than `limit` admissions less than 60 s old, and has one or fewer than `max_clients` clients do |
| RateLimiter.WindowBound | backend/rust/src/main.rs:954-964 | every half-open 60 s window, wherever placed, holds at most `limit` admissions of a client |
| RateLimiter.WindowBoundOnCalls | backend/rust/src/main.rs:954-964 | the same bound stated on the admitted calls of a run |
| RateLimiter.TableBound | backend/rust/src/main.rs:950-952 | at most `max_clients` clients are tracked after any run |
| RateLimiter.Isolation | backend/rust/src/main.rs:930-965 | if none of a client's calls meets a full table, deleting all other clients' calls leaves its decisions unchanged |
| Utf8.StrictInvertsEncode | backend/python/config/encrypted_credential_store.py:188-190 | strict decoding gives back every encoded string |
| Utf8.EncodeInvertsStrict | backend/rust/src/main.rs:3605-3605 | strict decoding accepts exactly encodings, and lossy decoding agrees with it there |
| Utf8.DecodesFirst | backend/rust/src/main.rs:3605-3605 | lossy decoding takes a character whose encoding comes first |
| Utf8.ReplacesMaximalPrefix | backend/rust/src/main.rs:3605-3605 | where no encoding comes first, lossy decoding puts one U+FFFD for the longest prefix that begins a character, or for one byte |
| Utf8.LossySplitsAtNewline | backend/rust/src/main.rs:3605-3606 | lossy decoding never swallows or moves a newline, even after a truncated character |
| Utf8.LossyWithoutNewline | backend/rust/src/main.rs:3605-3606 | lossy decoding invents no newline |
| Text.LinesSplit | backend/rust/src/main.rs:3606-3606 | the lines of a text are the lines before any of its newlines followed by the lines after it |
| Text.LinesOfRows | backend/rust/src/main.rs:3606-3606 | rows closed by LF or CRLF, and one more that is not closed, come back as the lines |
| Text.TrimExactly | backend/rust/src/main.rs:3613-3613 | trimming takes off exactly the White_Space characters around a text |
| TailReader.ParseLines | backend/rust/src/main.rs:3611-3620 | the parsing loop keeps exactly the lines that are not blank and parse, in order |
| TailReader.DropFirstLine | backend/rust/src/main.rs:3606-3609 | dropping the first decoded line of a tail leaves exactly the lines after its first newline, whose entries end the list of all entries |
| TailReader.ReadRecentJsonl | backend/rust/src/main.rs:3577-3625 | for every file, reported length and limit the result is a suffix, at most `limit` long, of all parsed entries; it is the last `limit` of them when the length is at most 2 MiB, and otherwise of those after the first newline from 2 MiB before the reported end, none without one; an unreadable file gives nothing |
| TailReader.RowsComeBack | backend/rust/src/main.rs:3605-3620 | a file of rows written one by one gives the values of the rows that parse, in order, for both line endings and with the last row closed or not |
| TailReader.EntryExactly | backend/rust/src/main.rs:3613-3619 | blanks around a row do not matter and a blank row holds nothing |
| Redactor.LooksLikePathByChars | backend/rust/src/main.rs:1459-1469 | the byte-level path test equals a test on the characters of the trimmed string |
| Redactor.LooksLikePathByPosition | backend/rust/src/main.rs:1459-1469 | the path test depends only on the first character that is not blank and what follows it |
| Redactor.TruncationMakesPath | backend/rust/src/main.rs:1276-1283 | exactly which long strings look like a path only after truncation |
| Redactor.RedactIsBounded | backend/rust/src/main.rs:1481-1525 | every output has at most `depth` levels, arrays of at most 48, strings of at most 1201 characters and no sensitive name at any level |
| Redactor.RedactPointwise | backend/rust/src/main.rs:1481-1525 | for every document, depth and path: the output has a value there iff the document does, the path is within the depth and passes no sensitive name, no item from the 49th on and nothing below an overwritten member; and the value is determined, constants included |
| Redactor.NothingRemovedIsLeft | backend/rust/src/main.rs:1472-1503 | no output holds a sensitive name at any level |
| Redactor.FixedPoints | backend/rust/src/main.rs:1481-1525 | a document is unchanged by redaction iff it is in the independently defined normal form |
| Redactor.RedactIsNormal | backend/rust/src/main.rs:1481-1525 | the output is in normal form iff the input is settled (no slash at the cut, no path right above the depth limit) |
| Redactor.RedactTwice | backend/rust/src/main.rs:1481-1525 | redacting twice equals redacting once iff the input is settled |
| Redactor.SlashThenBlanksChanges | backend/rust/src/main.rs:1459-1469 | a slash followed by 1200 blanks is redacted differently the second time, at every depth limit |
| Redactor.SlashesAtCutChange | backend/rust/src/main.rs:1276-1283 | 1199 blanks followed by `//` are redacted differently the second time, at every depth limit |
| Redactor.PathAboveDepthLimitChanges | backend/rust/src/main.rs:1511-1515 | for every depth limit a path member nested right above it is redacted differently the second time |
| CredentialCodec.HexRoundTrip | backend/python/config/encrypted_credential_store.py:76-77 | hexadecimal text decodes to the bytes it was made from |
| CredentialCodec.ToHexShape | backend/python/config/encrypted_credential_store.py:76-77 | bytes are written as pairs of lower-case digits |
| CredentialCodec.RecordRoundTrip | backend/python/config/encrypted_credential_store.py:71-113 | `from_dict(to_dict(c))` is `c` for every well-formed record and refused for every other |
| CredentialCodec.AcceptedExactlyWhen | backend/python/config/encrypted_credential_store.py:82-113 | exactly which JSON objects `from_dict` accepts, member by member |
| CredentialCodec.ReadIsWellFormed | backend/python/config/encrypted_credential_store.py:83-113 | whatever `from_dict` accepts is well formed and survives rewriting |
| CredentialCodec.ReadEscaped | backend/python/config/encrypted_credential_store.py:470-480 | a JSON string reader gives back every escaped string and stops at its quote |
| CredentialCodec.EscapeCharShape | backend/python/config/encrypted_credential_store.py:470-480 | every character is spelled in printable ASCII with the length the JSON writer gives it |
| CredentialCodec.AadInjective | backend/python/config/encrypted_credential_store.py:470-480 | the associated data is equal only for equal (credential, user, provider) triples and is never empty |
| CredentialCodec.PlainAad | backend/python/config/encrypted_credential_store.py:470-480 | the bytes of the associated data for identifiers that need no escapes |
| CredentialStores.CredentialStore.SaveStore | backend/python/config/encrypted_credential_store.py:420-457 | a save replaces the file or leaves it alone, and reports late errors |
| CredentialStores.CredentialStore.SaveCredential | backend/python/config/encrypted_credential_store.py:170-211 | memory, file and error after a save, including the update of an existing pair |
| CredentialStores.CredentialStore.UpdateCredential | backend/python/config/encrypted_credential_store.py:228-251 | memory, file and error after an update |
| CredentialStores.CredentialStore.DeleteCredential | backend/python/config/encrypted_credential_store.py:253-261 | memory, file and error after a deletion |
| CredentialStores.CredentialStore.GetSecret | backend/python/config/encrypted_credential_store.py:285-298 | a lookup decrypts the first record of the pair, or reports that there is none or that it was tampered with |
| CredentialStores.CredentialStore.LoadStore | backend/python/config/encrypted_credential_store.py:375-418 | memory, file and error after loading any file content |
| CredentialStores.CredentialStore.ReadItems | backend/python/config/encrypted_credential_store.py:392-400 | the loading loop accepts exactly lists of valid records with distinct ids and identities |
| CredentialStores.CredentialStore.MigrateLegacy | backend/python/config/encrypted_credential_store.py:401-411 | memory, file and error after migrating version 1 records |
| CredentialTheorems.AbsSpec | backend/python/config/encrypted_credential_store.py:263-298 | the abstract map has exactly the stored pairs and gives each what decrypting its record gives, a failure included |
| CredentialTheorems.ChangedRecordIsValid | backend/python/config/encrypted_credential_store.py:228-246 | an update keeps id, identity and creation time, sets the update time to the later of now and the old one, and decrypts to the new secret |
| CredentialTheorems.NewRecordIsValid | backend/python/config/encrypted_credential_store.py:181-201 | a new record has the drawn id and nonce, the given pair, both times now, and decrypts to its secret |
| CredentialTheorems.UpdatedIsEffect | backend/python/config/encrypted_credential_store.py:170-261 | what an operation tries to publish can be loaded and differs from the old map by its effect alone, whatever records were tampered with |
| CredentialTheorems.RunInvariant | backend/python/config/encrypted_credential_store.py:170-261 | over every run from any opened store the records stay well formed with unique pairs, the file can be loaded, and without late errors loading it gives the records in memory |
| CredentialTheorems.StoreRefinesMap | backend/python/config/encrypted_credential_store.py:170-298 | after any run from any opened store, whatever failed, a pair has a record iff the acknowledged operations left one, and decryption returns the last acknowledged secret; a record tampered with before the run fails until it is replaced |
| CredentialTheorems.RunKeepsAuthenticity | backend/python/config/encrypted_credential_store.py:170-261 | if every record of an opened store decrypts, so does every record after any run |
| CredentialTheorems.LookupIsMap | backend/python/config/encrypted_credential_store.py:285-298 | a lookup by user and provider answers with the abstract map, including pairs whose record does not decrypt |
| CredentialTheorems.ReopenAfterRun | backend/python/config/encrypted_credential_store.py:375-418 | reopening the file after a run without late errors gives the same records |
| CredentialTheorems.FileAlwaysOpens | backend/python/config/encrypted_credential_store.py:375-457 | whatever failed in a run, the file can be opened again, and the opened store meets the assumption of these theorems |
| CredentialTheorems.SuccessfulLoadOpens | backend/python/config/encrypted_credential_store.py:375-418 | every load that succeeds, of either version, meets the assumption of these theorems |
| CredentialTheorems.LateErrorDiverges | backend/python/config/encrypted_credential_store.py:437-446 | if cleaning up fails after the replacement, the caller gets an error and memory keeps the old map while the file holds the new one |
| CredentialTheorems.LoadedAreDistinct | backend/python/config/encrypted_credential_store.py:392-400 | accepted items give well-formed records with distinct ids and pairs, in order |
| CredentialTheorems.ItemsLoadExactlyWhen | backend/python/config/encrypted_credential_store.py:392-400 | items load iff all of them are records and no two share a credential id or a pair |
| CredentialTheorems.MigrationAllOrNothing | backend/python/config/encrypted_credential_store.py:401-411 | a version 1 file becomes a version 2 store with the same ids, pairs, times and plaintexts in which every record decrypts, or one record fails authentication and the file stays as it is |
| CredentialTheorems.LegacyFileMigrates | backend/python/config/encrypted_credential_store.py:386-411 | a version 1 file of distinct well-formed records, with any further members, is migrated if all decrypt as legacy records, and is refused as tampered and left alone otherwise |
| CredentialTheorems.CurrentFileLoads | backend/python/config/encrypted_credential_store.py:386-418 | a version 2 file of distinct well-formed records, with any further members, loads as these records without being written |
| CredentialTheorems.RefusedDocuments | backend/python/config/encrypted_credential_store.py:380-400 | exactly which documents are refused because of version, shape or items, with the error; the file is untouched |
| CredentialTheorems.FailedLoadKeepsFile | backend/python/config/encrypted_credential_store.py:375-418 | a load that fails before a replacement leaves the file alone |
| CredentialTheorems.SplicedRecordFails | backend/python/config/encrypted_credential_store.py:352-372 | a ciphertext moved to another credential, user or provider, or to a legacy record, does not decrypt |
| CredentialTheorems.IdealIsPossible | backend/python/config/encrypted_credential_store.py:352-372 | the assumptions made of the cipher are consistent |
| LockedFile.StepKeepsWork | backend/python/brain/persistence.py:58-74 | every step of every process, crashes included, keeps the prepared text equal to what the lock holder's update makes of the current file |
| LockedFile.StepKeepsFile | backend/python/brain/persistence.py:40-74 | every step keeps the file equal to the committed updates run alone in lock order |
| LockedFile.NextSteps | backend/python/brain/persistence.py:13-74 | in every reachable state exactly which steps a process can take next: only a held lock makes it wait, every system call of the holder may succeed or fail, and a crash is always possible |
| LockedFile.FailedCalls | backend/python/brain/persistence.py:40-74 | a system call that fails leaves the file alone, and the process goes on to clean up and report the failure |
| LockedFile.Serializable | backend/python/brain/persistence.py:13-74 | at every moment of every run the file is what the committed updates, in the order in which they got the lock, make of the initial file, and each of them succeeded on its turn |
| LockedFile.OutcomesAreTrue | backend/python/brain/persistence.py:13-74 | success is only reported for committed updates, and a committed update is reported as a failure iff removing its temporary file or unlocking raised |
| LockedFile.LateErrorLies | backend/python/brain/persistence.py:49-51 | an update whose cleanup raises is in the file and its caller is told that it failed |
| LockedFile.NeverPartial | backend/python/brain/persistence.py:40-51 | the path always shows the initial text or one completely serialised payload |
| LockedFile.CrashesDoNotBlock | backend/python/brain/persistence.py:13-51 | only a live process holds the lock, and with the lock free the only temporary files are those of crashed processes and of cleanups that raised |
| LockedFile.CleanRunsLeaveNothing | backend/python/brain/persistence.py:40-51 | without crashes and late errors no temporary file is left once the lock is free, and callers are told success iff their update was committed |
| LockedFile.SerialIsComposition | backend/python/brain/persistence.py:58-74 | with a faithful JSON library the file holds the composed mutations of the first payload, which is the first committed update's default if the file was missing or blank and the parsed text otherwise |
| LockedFile.UpdateExactly | backend/python/brain/persistence.py:64-74 | what one update publishes on a missing, blank, unparsable or other file |
| LockedFile.FirstOnMissingFile | backend/python/brain/persistence.py:64-74 | in every run from a missing file the first committed update publishes its mutation of its own default |
| ProviderHealth.HealthCache.RecordProviderHealth | backend/python/config/provider_health.py:144-185 | the file and the returned snapshot after an outcome, also when the replacement fails |
| ProviderHealth.HealthCache.InvalidateProviderHealth | backend/python/config/provider_health.py:188-193 | invalidation removes the file or, if that fails, keeps it |
| ProviderHealth.HealthCache.TestProvider | backend/python/config/provider_settings_controller.py:200-229 | the gate refuses exactly in the open state and then changes nothing; otherwise the outcome is recorded |
| ProviderHealth.CircuitIsHistory | backend/python/config/provider_health.py:92-192 | the failure count is the trailing run of unhealthy outcomes since the last invalidation; a probe at any time is refused iff that run reaches the threshold before the open time has passed; a snapshot is fresh iff its time to live has not |
| ProviderHealth.SnapshotIsHistory | backend/python/config/provider_health.py:92-185 | every member of the snapshot at any time, from the last event and the trailing failures: results, times, latency bounds, Open and HalfOpen, next probe |
| ProviderHealth.FailuresAreSpaced | backend/python/config/provider_settings_controller.py:200-222 | for one gated caller, failures beyond the threshold are at least the open time apart |
| ProviderHealth.ProbeRateBound | backend/python/config/provider_settings_controller.py:200-222 | within E of reaching the threshold a run has at most threshold + E / open failures |
| ProviderHealth.AttemptsAreHistory | backend/python/config/provider_settings_controller.py:200-222 | the failures bounded above are the trailing failures of the recorded history |
| ClientIdentity.ParseForwardedChain | backend/rust/src/client_identity.rs:109-138 | the nested loops with early exits compute the chain specification |
| ClientIdentity.ChainExactly | backend/rust/src/client_identity.rs:109-138 | a chain is accepted iff there is a field, at most 8192 visible bytes, at most `max_hops` elements, and each is an address between blanks; it holds the normalised addresses |
| ClientIdentity.ListedAddresses | backend/rust/src/client_identity.rs:109-138 | a field that lists addresses gives exactly these, or nothing beyond the limits |
| ClientIdentity.HeaderCombination | backend/rust/src/client_identity.rs:109-138 | several header fields parse like their comma-joined field, up to the byte limit |
| ClientIdentity.CombinedIsRefused | backend/rust/src/client_identity.rs:109-138 | two fields of 4096 bytes are accepted one by one and refused as one combined field |
| ClientIdentity.MappedNormalizes | backend/rust/src/client_identity.rs:153-161 | normalisation undoes the IPv4-mapped form and is idempotent |
| ClientIdentity.NormalizedExactly | backend/rust/src/client_identity.rs:153-161 | exactly the addresses from ::ffff:0.0.0.0 to ::ffff:255.255.255.255 become IPv4 addresses |
| ClientIdentity.TrustedExactly | backend/rust/src/client_identity.rs:103-107 | an address is trusted iff it lies between the first and the last address of a listed network |
| ClientIdentity.PrivateTen | backend/rust/src/client_identity.rs:103-107 | 10.0.0.0/8 trusts 10.0.0.0 to 10.255.255.255 and nothing else |
| ClientIdentity.WalkFindsRightmost | backend/rust/src/client_identity.rs:85-88 | the walk from the right returns the rightmost untrusted address |
| ClientIdentity.ForwardedIdentity | backend/rust/src/client_identity.rs:74-101 | a forwarded identity is used iff the peer is trusted and the valid chain has an untrusted address, and it is the rightmost one; otherwise it is the peer |
| ClientIdentity.SpoofedPrefix | backend/rust/src/client_identity.rs:74-138 | prepending further valid fields within the limits never changes the result |
| ClientIdentity.SpoofedInField | backend/rust/src/client_identity.rs:74-138 | addresses that a client puts in front of the addresses of its own field never change the result |
| ClientIdentity.MappedFormsAreEqual | backend/rust/src/client_identity.rs:74-161 | writing the peer or any address of the chain in IPv4-mapped form never changes the result |
| DatasetMixer.MixDatasetRecords | omni-training/lib/dataset_mixer.py:49-88 | both loops with their counters and the early exit compute the two-pass selection |
| DatasetMixer.DistinctAndBounded | omni-training/lib/dataset_mixer.py:49-88 | output ids are distinct and the size is at most max(limit, sum of positive minimums) |
| DatasetMixer.OnlyInputRecords | omni-training/lib/dataset_mixer.py:49-88 | every selected record is an input record |
| DatasetMixer.QuotasRespected | omni-training/lib/dataset_mixer.py:77-82 | a source count is at most max(quota, minimum); any quota is exceeded only as far as the minimums already did |
| DatasetMixer.QuotaExceededExactly | omni-training/lib/dataset_mixer.py:55-87 | a source, language or family quota is exceeded iff the minimums alone exceed it |
| DatasetMixer.SourceExceededExactly | omni-training/lib/dataset_mixer.py:55-87 | with distinct ids a source quota is exceeded iff the smaller of its minimum and its record count exceeds it |
| DatasetMixer.LimitExceededExactly | omni-training/lib/dataset_mixer.py:55-71 | with distinct ids the record limit is exceeded iff the sum over the minimums of the smaller of minimum and record count exceeds it |
| DatasetMixer.LanguageQuotaExceeded | omni-training/lib/dataset_mixer.py:55-67 | a language quota of one is exceeded by a minimum of two records in that language |
| DatasetMixer.LimitExceeded | omni-training/lib/dataset_mixer.py:55-71 | a limit of one record is exceeded by a minimum of two |
| DatasetMixer.Maximal | omni-training/lib/dataset_mixer.py:69-87 | no record left out could still be added |
| DatasetMixer.FillsUp | omni-training/lib/dataset_mixer.py:69-87 | below max(1, limit) every record left out repeats an id or has a quota used up |
| DatasetMixer.BestFirst | omni-training/lib/dataset_mixer.py:49-88 | without quotas and minimums the result is the best max(1, limit) records |
| DatasetMixer.RespectsRank | omni-training/lib/dataset_mixer.py:49-88 | with distinct ids no record is chosen over a better one of the same source, language and family |
| DatasetMixer.MinimumsMet | omni-training/lib/dataset_mixer.py:55-67 | every source gets its minimum, or all its records if it has fewer |
| ExecutionTree.FindNode | core/planning/executionTree.js:106-106 | the search returns the first node with the id |
| ExecutionTree.AddNode | core/planning/executionTree.js:98-109 | adding a node changes the children of its parent alone |
| ExecutionTree.BuildExecutionTree | core/planning/executionTree.js:27-119 | the heap nodes are the planned nodes in order, and each children list holds the ids of the nodes whose parent it is, in creation order |
| ExecutionTree.GroupNodes | core/planning/executionTree.js:27-86 | ids, parents, types and places of the root and of the subgoal, branch and milestone nodes |
| ExecutionTree.StepNode | core/planning/executionTree.js:88-104 | a step hangs under its branch, without one under its milestone, without either under its goal, and under the root if the one that counts is unknown |
| ExecutionTree.ParentsComeFirst | core/planning/executionTree.js:88-97 | for every input each node but the root names an earlier node as its parent |
| ExecutionTree.OneEntryPerNode | core/planning/executionTree.js:105-109 | the children lists hold nodes - 1 entries in all |
| ExecutionTree.ListedOnce | core/planning/executionTree.js:105-109 | with distinct ids a node stands once in its parent's list and in no other |
| ExecutionTree.EveryNodeReachable | core/planning/executionTree.js:27-119 | with distinct ids every node is reached from the root along children lists |
| ExecutionTree.TreeOfInput | core/planning/executionTree.js:27-119 | all of this for the tree of every input: earlier parents, nodes - 1 entries, and with distinct ids one entry per node and a path to each |

## Left out

- HTTP routing, middleware, process spawning, socket I/O and log text: only their outcomes appear, as inputs.
- The circuit-state label, failure kind and stop reason attached to replies: annotation that no decision depends on.
- A poisoned breaker mutex: no critical section of the breaker can panic.
- Cancellation of an admitted request: it would leave HalfOpen occupied for good.
- Bounds and defaults of environment settings: the settings are inputs.
- The configuration wrappers around the limiter bucket (enabled flag, default limits): constants and pass-through.
- JSON text syntax, except the string escapes of the associated data: the library's.
- Lone surrogates, which Python strings may hold, in identifiers: two of them and the character they spell have the same associated data.
- CredentialTheorems.SplicedRecordFails: rests on the ideal cipher and on the associated data being formed as in the code; computational security is not modelled.
- Credential metadata listing, provider mismatch check and key loading: direct reads of a record or of the environment.
- Several credential store instances on one file: the code does not lock the file.
- The lock file's own creation, `fsync` and permissions: the lock is exclusive and replacement is atomic.
- LockedFile.SerialIsComposition: assumes that dumped payloads load back unchanged; the theorems on the file's text do not.
- Writers that bypass the lock: the protocol is about callers of `locked_json_update`.
- The path of the health cache file and hand-edited cache files: one file per user and provider, written by the code or missing.
- The checks of `test_provider` before the gate (allowed, executable and supported provider): they only read.
- ProviderHealth.ProbeRateBound: is about one gated caller; concurrent callers may all pass the gate in the half-open state.
- Parsing of network lists and of single addresses: the address parser is a parameter, trust is membership in a list of prefixes.
- The priority score and the sort of the mixer: the ranked list is an input.
- The two file-system calls of a read under the lock (exists, then read): one step, as only the lock holder replaces the file.
- Node attributes of the execution tree that are plain copies (owner, labels, goal and step ids): they take no part in its shape.
- Multi-agent specialists, intent matchers, provider routing tables and path policies: keyword tables and record assembly that would only add easy members.
