# Verified model of the KMS platform

A Dafny model of the state machines inside a key-management service, and proofs about every
run of them: the hash-chained audit log and what feeds it, the key table with its RAM cache,
the SPIRE wire decoders, the rate limiters and the replay guard, the virtual HSM's seal
state, credential issuing and the compiled access policy.

Code that changes state step by step is modelled as classes and methods with loops, each
proved against a specification function; the theorems are lemmas about those functions.
Cryptography is a parameter: digests, AEAD, Shamir reconstruction and signatures are
arbitrary functions, and a lemma that needs more of them (opening undoes sealing, no
collision) says so in its `requires`. Clocks, random values, identifiers and the outcomes of
calls to other systems are parameters of the operation that uses them.

| files | modelled |
|---|---|
| `Text`, `ReasonSanitizer`, `JsonRedactor` | redaction of audit reasons and details |
| `AuditPayload`, `AuditChain` | the canonical payload and the chain verifier |
| `AuditRuns`, `AuditInterleaving` | the five writers one after another, and the locked ones interleaved |
| `Varint`, `SvidMessage`, `GrpcStream` | protobuf and gRPC decoding of the Workload API response |
| `TimeSeries`, `Timestamps`, `RateLimiter`, `RedisLimiter`, `ReplayGuard` | the time-window machines |
| `KeyTable`, `KeyLifecycle`, `KeyCache`, `KeyBootstrap`, `PostgresRewrap`, `KeyWorkers` | the key table, its cache, and the use cases and workers over both |
| `VhsmCrypto`, `Vhsm`, `VhsmDaemon` | the virtual HSM between lock acquisitions |
| `Credentials`, `Acl` | credential issuing and the compiled policy |

Where the code does less than one would hope, the model follows the code and the lemma says
exactly when the property holds:

- An instant finer than a microsecond does not survive the store, so the row that hashed it
  does not re-verify, and a repeated credential request shows a shorter expiry
  (`RunVerifiesIff`, `RepeatIdenticalIff`).
- Ceremony, import and provisioning writers fall back to an empty previous hash on an empty
  log; provisioning hashes the credential id and stores another; import takes its time
  before the chain lock (`RunVerifiesIff`).
- Deactivating and saving a key are two statements; a failure in between makes the next key
  of the pair overwrite version 1 (`ConflictIff`, `FailedSaveThenOverwrite`). ECDSA_P256 is
  refused only after the deactivation.
- Bootstrap does the same to a pair that such a failure left without an active key, and its
  local map then holds an id that the table does not (`BootstrapExactIff`,
  `FailedSaveThenBootstrap`).
- Generating a key and signing with a pinned version can leave the cache behind the table
  (`GenerateCoherentIff`, `PinnedCoherentIff`).
- The cleanup worker asks for an active or still valid deprecated key, but its query lists
  active rows only (`CleanupIgnoresGrace`).
- The Postgres adapter ignores the master version when it lists keys to rewrap, so over a
  non-empty table whose keys unwrap the loop does not end (`SucceedsIff`, `NeverEnds`).
- The limiter and the nonce store read the clock before they take their lock, so a late
  call can be judged, and can judge, out of order (`LateCallExceeds`, `OvertakenReuse`).
- A request marked before its own timestamp plus one second, or later by what a repeat waits
  between its two clock readings, can be accepted again (`RepeatPossibleIff`).
- GenerateCeremony checks and installs under different locks, and InitMasterKey does not
  check at all, so a later key can replace the one in force (`EncryptThenDecrypt`,
  `OverlappingCeremonies`).
- An ACL entry stored under a name other than its service id is compiled under the service
  id (`AccessAgreesIff`, `ActionsAgreeIff`).

## Model

| member | source | states |
|---|---|---|
| `ReasonSanitizer.RedactInPlace` | crates/kms-service/src/domain/audit/models.rs:318-326 | The inner loop, which searches the whole string again after every replacement, terminates and leaves exactly what one left-to-right pass over the original leaves |
| `ReasonSanitizer.RedactEach` | crates/kms-service/src/domain/audit/models.rs:316-327 | The outer loop over any list of keywords that a mark cannot complete is the passes one after another |
| `ReasonSanitizer.SanitizeReason` | crates/kms-service/src/domain/audit/models.rs:295-334 | The whole sanitiser: None for a missing or blank reason, otherwise the twelve passes; the final emptiness test never fires |
| `ReasonSanitizer.KeywordRedactable` | crates/kms-service/src/domain/audit/models.rs:301-314 | Each of the twelve keywords shares no letter with either end of the mark and does not occur in it, which is what termination rests on |
| `ReasonSanitizer.FindBeyond` | crates/kms-service/src/domain/audit/models.rs:318-326 | Behind text that ends in a mark, searching from the start finds what searching the rest finds |
| `ReasonSanitizer.RedactClean` | crates/kms-service/src/domain/audit/models.rs:316-327 | One pass removes its keyword in every ASCII case and brings in no other keyword, for all strings |
| `ReasonSanitizer.RedactReplaces` | crates/kms-service/src/domain/audit/models.rs:318-326 | A pass cuts the text at its occurrences of the keyword, leaves every other character where it is and puts "[REDACTED]" at each cut; the parts between hold no occurrence |
| `ReasonSanitizer.RedactAllNotBlank` | crates/kms-service/src/domain/audit/models.rs:329-333 | Redaction never turns a non-blank reason into a blank one |
| `ReasonSanitizer.SanitizedIsClean` | crates/kms-service/src/domain/audit/models.rs:295-334 | A reason is dropped exactly when it is missing or trims to nothing. What is kept has none of the twelve words, each written out here, in any ASCII case, although later passes edit text that earlier ones cleaned |
| `ReasonSanitizer.SanitizedUnchangedIff` | crates/kms-service/src/domain/audit/models.rs:295-334 | A reason is stored as given if and only if it does not trim to nothing and has none of the twelve words |
| `ReasonSanitizer.SanitizedTwice` | crates/kms-service/src/infrastructure/postgres/audit.rs:26-45 | Sanitising in the service and again in the repository stores the same reason as sanitising once |
| `JsonRedactor.JoinedSensitive` | crates/kms-service/src/domain/audit/models.rs:155-170 | Testing the dot-joined path for "secret" is testing its keys one by one: no match spans a dot |
| `JsonRedactor.CanonicalBelow` | crates/kms-service/src/domain/audit/models.rs:155-184 | Below any parent path, every position of the tree exists before and after redaction and holds the leaf or the mask as the keys on the way say |
| `JsonRedactor.CanonicalizedAt` | crates/kms-service/src/domain/audit/models.rs:155-188 | Redaction keeps paths, array lengths and object keys, and replaces a leaf exactly when some object key on its path contains "secret" in any ASCII case |
| `JsonRedactor.CanonicalizedTwice` | crates/kms-service/src/domain/audit/models.rs:155-188 | Redacting twice is redacting once |
| `AuditPayload.ReadEscaped` | crates/kms-core/src/audit.rs:74-157 | Every escaped character can be read back with its length, whatever follows (section 7 of RFC 8259) |
| `AuditPayload.EscapedInjective` | crates/kms-core/src/audit.rs:74-157 | The text up to the first unescaped quote determines the string and what follows it |
| `AuditPayload.ValueInjective` | crates/kms-core/src/audit.rs:121-148 | A null is told apart from every string, the empty one included |
| `AuditPayload.PayloadInjective` | crates/kms-core/src/audit.rs:74-157 | Inputs with the same canonical payload agree in every hashed field |
| `AuditPayload.ObjectTextIsJson` | crates/kms-core/src/audit.rs:74-157 | What the serialiser appends to its buffer is the compact JSON object with those members, in that order |
| `AuditPayload.PayloadIs` | crates/kms-core/src/audit.rs:74-157 | The payload is the JSON object of the thirteen named members, each with the field of that name and null where an optional one is absent |
| `AuditPayload.KeysAscending` | crates/kms-core/src/audit.rs:74-157 | The payload lists its members in ascending key order, as the ordered map writes them |
| `AuditPayload.ComputeAuditHash` | crates/kms-core/src/audit.rs:70-157 | Filling the map field by field and writing it out digests exactly the canonical payload |
| `AuditChain.AnyKeyVerifies` | crates/kms-service/src/handlers/audit.rs:167-173 | The signature loop answers yes exactly when some active key verifies |
| `AuditChain.CheckRow` | crates/kms-service/src/handlers/audit.rs:122-184 | No error exactly when the row names the last hash, carries the digest of its stored fields, and is not signed with 64 bytes that none of the active keys accepts; otherwise the first of these that fails, with the expected and the found value |
| `AuditChain.WalkChain` | crates/kms-service/src/handlers/audit.rs:122-192 | The loop counts the rows up to the first bad one and reports its violation; ok exactly when there is none |
| `AuditChain.VerifyAudit` | crates/kms-service/src/handlers/audit.rs:58-192 | Full or windowed verification of any log: the report is the one the specification of the walk prescribes for the chosen anchor and rows |
| `AuditChain.ReportMeaning` | crates/kms-service/src/handlers/audit.rs:122-192 | The report is determined by the rows, and is positive if and only if every row hashes correctly and names the hash before it |
| `AuditChain.ReportDecides` | crates/kms-service/src/handlers/audit.rs:122-192 | A report is positive if and only if every walked row names the hash before it, carries the digest of its own named fields and, where it has a 64-byte signature and there are keys, some key accepts it. Otherwise it counts the rows before the first that fails and names that one's mismatch with expected and found value, or its signature |
| `AuditChain.ChainedSplit` | crates/kms-service/src/handlers/audit.rs:96-184 | A log verifies exactly when any prefix does and the rest does from the prefix's last hash |
| `AuditChain.SuffixAgrees` | crates/kms-service/src/handlers/audit.rs:96-184 | The report on a whole log is positive exactly when the anchored report on the rest is and the prefix is a chain |
| `AuditChain.WindowAgrees` | crates/kms-service/src/handlers/audit.rs:58-104 | A good log passes at every limit with min(limit, n) rows counted; a limit that covers the log gives the full report; otherwise the log is good exactly when the window and the rows before it are |
| `AuditChain.SameHashSameInput` | crates/kms-core/src/audit.rs:70-157 | Rows with equal hashes have equal hashed fields or exhibit a digest collision |
| `AuditChain.LogDetermined` | crates/kms-service/src/handlers/audit.rs:96-184 | Two verified logs of any length with the same last hash have the same length and agree, row by row, in hash, previous hash and every hashed field, ids and instants by their texts; or their own rows exhibit a digest collision |
| `AuditRuns.AuditLogs.LatestHash` | crates/kms-db/src/repositories.rs:113-129 | The hash of the row that no other row follows in (created_at, id) order; none exactly for an empty table |
| `AuditRuns.AuditLogs.Insert` | crates/kms-db/src/repositories.rs:131-195 | The row is put where the query order has it, and the table stays in that order |
| `AuditRuns.AuditLogs.Write` | crates/kms-service/src/infrastructure/postgres/audit.rs:26-83 | The table gains one row at its place in the query order: with the writer's columns, the given reason cleaned, the id and whole microseconds of the write, the hash that was latest, and the digest over all of it |
| `AuditRuns.LogSorted` | crates/kms-db/src/repositories.rs:113-129 | After any run the log is in strict (created_at, id) order |
| `AuditRuns.LogHasRow` | crates/kms-db/src/repositories.rs:131-195 | No append loses a row of another |
| `AuditRuns.EveryWriteStored` | crates/kms-service/src/infrastructure/postgres/audit.rs:26-83 | For every write of every run of the five writers the log has a row with its id and that writer's columns. The reason of a record has none of the twelve words and is the given one if that had none; the hash is of these columns, the latest hash then and the exact instant |
| `AuditRuns.LogInQueryOrder` | crates/kms-db/src/repositories.rs:113-129 | The log of a run holds one row a write, by creation instant and, among equal instants, by id |
| `AuditRuns.FaithfulRowOk` | crates/kms-core/src/audit.rs:70-157 | A row whose instant and id survive the store re-verifies against the hash it was stored with |
| `AuditRuns.UnfaithfulRow` | crates/kms-service/src/application/use_cases/issue_agent_credential.rs:616-676 | A row whose instant loses digits, or whose stored id is not the hashed one, never re-verifies |
| `AuditRuns.ChainedStart` | crates/kms-service/src/handlers/ceremonies.rs:55-70 | A log that verifies was not started by a writer that falls back to the empty string |
| `AuditRuns.ChainedInOrder` | crates/kms-service/src/application/use_cases/import_bootstrap.rs:322-395 | If the final log verifies, every write was stored behind the one before it |
| `AuditRuns.RunVerifiesIff` | crates/kms-service/src/infrastructure/postgres/audit.rs:26-83 | For every serialised run of all five writers: the log verifies if and only if a zero-fallback writer starts it, no hashed instant is finer than a microsecond, no writer stores another id than it hashed, and (stored instant, id) ascends |
| `AuditRuns.SerialisedRunReport` | crates/kms-service/src/main.rs:67-84 | A run that starts with the startup record and then mixes record, import, ceremony and root-CA appends is reported ok, with ok_count the number of rows |
| `AuditInterleaving.CommitAppends` | crates/kms-service/src/application/use_cases/init_root_ca.rs:116-202 | A commit puts its row at the end of the log, where it continues the chain |
| `AuditInterleaving.CommitKeepsInv` | crates/kms-service/src/application/use_cases/init_root_ca.rs:180-202 | A commit keeps the invariant for every other open transaction and replaces no root CA |
| `AuditInterleaving.CommitStores` | crates/kms-service/src/application/use_cases/init_root_ca.rs:116-202 | In every reachable state a commit appends exactly the row of its job, naming the hash before it, and frees its locks; a root CA also enters the table under its tag, which was free, with its own id |
| `AuditInterleaving.SoloRun` | crates/kms-service/src/application/use_cases/init_root_ca.rs:31-202 | With nobody else at work a transaction runs to its commit, with one more audit row and, for a root CA, one more entry; a root CA whose tag is taken leaves no trace |
| `AuditInterleaving.StepKeepsInv` | crates/kms-service/src/handlers/ceremonies.rs:46-128 | Each of the nine steps keeps the invariant, only extends the log, and leaves every committed root CA with its audit row |
| `AuditInterleaving.EveryInterleavingLinks` | crates/kms-service/src/application/use_cases/init_root_ca.rs:31-202 | Every interleaving of any number of ceremony and root-CA transactions, aborts included and for clocks of any precision, keeps a nonempty log one unforked line in which each row names the hash of the row before it, extending the old one |
| `AuditInterleaving.ChainedIs` | crates/kms-service/src/handlers/audit.rs:122-184 | A log verifies exactly when it is such a line and each row carries the hash of what is stored in it, and an acceptable signature |
| `AuditInterleaving.StepKeepsSealed` | crates/kms-service/src/handlers/ceremonies.rs:46-128 | With instants of whole microseconds each step keeps committed rows, and those about to be committed, re-verifying |
| `AuditInterleaving.EveryInterleavingChains` | crates/kms-service/src/application/use_cases/init_root_ca.rs:31-202 | With instants of whole microseconds the log extended by any interleaving verifies, as the one it started from did |
| `AuditInterleaving.InsertNeverConflicts` | crates/kms-db/src/repositories.rs:792-852 | Under the tag lock the insert of a root CA never meets a row with its tag |
| `AuditInterleaving.SomeoneCanGoOn` | crates/kms-db/src/repositories.rs:61-69 | No deadlock: while a transaction is open, some open transaction can take its next step |
| `Varint.DecodeVarint` | crates/kms-service/src/infrastructure/identity.rs:49-72 | The loop that ors shifted groups into a 64-bit word returns what the base-128 groups stand for modulo 2^64 and the offset behind them, or the truncated or overlong error |
| `Varint.OrIsAdd` | crates/kms-service/src/infrastructure/identity.rs:60-61 | A group shifted above the bits set so far and ored in, upper bits lost, is added modulo 2^64 |
| `Varint.DecodeLengthDelimited` | crates/kms-service/src/infrastructure/identity.rs:74-86 | The bytes behind a length varint, or an error when the data is shorter |
| `Varint.VarintRoundTrip` | crates/kms-service/src/infrastructure/identity.rs:49-72 | Decoding inverts base-128 encoding for every u64, whatever follows, in one to ten bytes |
| `Varint.VarintEndsAt` | crates/kms-service/src/infrastructure/identity.rs:49-72 | A varint ends at its first byte below 128, if that is among the first ten; ten that go on are too long and fewer at the end of the data are cut off |
| `Varint.BytesRoundTrip` | crates/kms-service/src/infrastructure/identity.rs:74-86 | A length-delimited field decodes to its payload and its exact size |
| `Varint.LengthChecked` | crates/kms-service/src/infrastructure/identity.rs:74-86 | A length is accepted exactly when that many bytes follow it |
| `SvidMessage.DecodeSvidField` | crates/kms-service/src/infrastructure/identity.rs:117-144 | One round of the inner loop, with its errors, against the reader specification |
| `SvidMessage.DecodeSvid` | crates/kms-service/src/infrastructure/identity.rs:112-146 | The inner loop reads one record as the recursive reader does |
| `SvidMessage.DecodeField` | crates/kms-service/src/infrastructure/identity.rs:101-156 | One round of the outer loop against the reader specification |
| `SvidMessage.DecodeX509SvidResponse` | crates/kms-service/src/infrastructure/identity.rs:98-159 | The nested loops decode every byte string as the recursive reader does, errors included |
| `SvidMessage.TagRoundTrip` | crates/kms-service/src/infrastructure/identity.rs:101-111 | A tag decodes to its wire type and field number |
| `SvidMessage.OtherWireTypes` | crates/kms-service/src/infrastructure/identity.rs:101-156 | A record refuses every wire type but 0 and 2 with its type and number; a response refuses all but 0, 1, 2 and 5, and skips 1 and 5 as if they had a length |
| `SvidMessage.ReadEncodedSvid` | crates/kms-service/src/infrastructure/identity.rs:112-146 | An encoded record reads back as its fields say, in any order, the last of a repeated field winning |
| `SvidMessage.ReadEncodedResponse` | crates/kms-service/src/infrastructure/identity.rs:98-159 | Every encoded response, with unknown varint and length-delimited fields anywhere, decodes to the records it lists |
| `GrpcStream.GrpcEncodeMessage` | crates/kms-service/src/infrastructure/identity.rs:162-169 | A frame is the flag, the big-endian length and the payload |
| `GrpcStream.DecodeFrame` | crates/kms-service/src/infrastructure/identity.rs:175-200 | One round of the frame loop, with the compressed and truncated errors |
| `GrpcStream.ParseGrpcFrames` | crates/kms-service/src/infrastructure/identity.rs:171-203 | The frame loop returns what the recursive frame reader returns, for all bytes |
| `GrpcStream.FramesRoundTrip` | crates/kms-service/src/infrastructure/identity.rs:162-203 | Any list of payloads written as frames parses back to that list; a tail of fewer than five bytes is ignored |
| `GrpcStream.ParsedIsFramed` | crates/kms-service/src/infrastructure/identity.rs:171-203 | And nothing else parses: accepted data is its payloads written as frames, then such a tail |
| `GrpcStream.BadFrame` | crates/kms-service/src/infrastructure/identity.rs:171-203 | Behind any good frames, a compressed one and one longer than the data are errors of their own kind |
| `GrpcStream.FetchX509SvidResponse` | crates/kms-service/src/infrastructure/identity.rs:270-363 | The first non-empty frame is decoded; no such frame is an error |
| `GrpcStream.NothingFetched` | crates/kms-service/src/infrastructure/identity.rs:339-357 | A stream of empty frames only, or of none, is an error and never an empty list |
| `GrpcStream.RecordOfWriting` | crates/kms-service/src/infrastructure/identity.rs:112-146 | Every writing of a record, its fields in any order, empty ones written or not, unknown ones anywhere, reads back as the record |
| `GrpcStream.RecordRefusedIff` | crates/kms-service/src/infrastructure/identity.rs:112-146 | A record is refused if and only if a SPIFFE id or a hint in it is not UTF-8, wherever it stands |
| `GrpcStream.FetchRoundTrip` | crates/kms-service/src/infrastructure/identity.rs:98-203 | End to end: any non-empty list of SVID records, in any such writing and framed behind any number of empty frames, is fetched as that list |
| `RateLimiter.InMemoryRateLimiter.Check` | crates/kms-service/src/domain/rate_limiter.rs:87-114 | Dropping the instants that are too old from the bucket and perhaps adding the hit gives the new buckets and status of the specification |
| `RateLimiter.BucketIs` | crates/kms-service/src/domain/rate_limiter.rs:92-104 | In every run the bucket holds exactly the allowed hits that have been within the window of every call since |
| `RateLimiter.AllowedIff` | crates/kms-service/src/domain/rate_limiter.rs:87-114 | In every run, in whatever order clock readings get the lock, a hit is allowed if and only if fewer than limit allowed hits have been within the window of every call since, this one included; the reported count is theirs |
| `RateLimiter.InOrderAllowedIff` | crates/kms-service/src/domain/rate_limiter.rs:87-114 | For calls that get the lock in clock order these are the allowed hits of the window that ends with the call |
| `RateLimiter.SlidingBound` | crates/kms-service/src/domain/rate_limiter.rs:87-114 | In every run whose lock order is off the clock by at most d, every closed interval shorter than the window by d holds at most limit allowed hits of a key; with d = 0, every interval as long as the window |
| `RateLimiter.LateCallExceeds` | crates/kms-service/src/domain/rate_limiter.rs:87-114 | For every limit of at least 2, every window and every d from 1 to one nanosecond beyond the window, one late call puts limit + 1 allowed hits into an interval one nanosecond longer than that |
| `RateLimiter.LimitOneApart` | crates/kms-service/src/domain/rate_limiter.rs:87-114 | With a limit of 1 any two allowed hits are more than the window apart, whatever the disorder |
| `RedisLimiter.RedisRateLimiter.RunScript` | crates/kms-service/src/infrastructure/scripts/redis_rate_limit.lua:3-8 | INCR and, on the first count, EXPIRE |
| `RedisLimiter.RedisRateLimiter.Check` | crates/kms-service/src/infrastructure/redis/rate_limiter.rs:53-73 | The answer of the last script execution; a lost EVALSHA reply runs the script twice |
| `RedisLimiter.CountIs` | crates/kms-service/src/infrastructure/scripts/redis_rate_limit.lua:3-8 | In every run the count an execution gets is the number of executions on its key since the one that opened the window, which covers them all |
| `RedisLimiter.OpensIff` | crates/kms-service/src/infrastructure/scripts/redis_rate_limit.lua:3-8 | An execution opens a window if and only if no earlier opener of its key still covers it |
| `RedisLimiter.RunBounded` | crates/kms-service/src/infrastructure/scripts/redis_rate_limit.lua:3-8 | What every run keeps: the hits of the running window are counted and limited, and an interval that reaches its start holds fewer than limit hits from before |
| `RedisLimiter.FixedWindowBound` | crates/kms-service/src/infrastructure/redis/rate_limiter.rs:53-73 | In every run, lost replies included, every interval as long as a window of at least one second holds at most 2 * limit - 1 admitted hits, one fewer than twice the limit |
| `RedisLimiter.BoundReached` | crates/kms-service/src/infrastructure/redis/rate_limiter.rs:53-73 | For every limit and window some run reaches 2 * limit - 1, so no smaller bound holds |
| `RedisLimiter.ZeroWindowNeverLimits` | crates/kms-service/src/infrastructure/scripts/redis_rate_limit.lua:3-8 | With a window of zero seconds every execution counts one |
| `ReplayGuard.InMemoryNonceStore.MarkUsed` | crates/kms-service/src/domain/rate_limiter.rs:67-85 | Expired keys are dropped and a key not in the store is added with its instant |
| `ReplayGuard.FreshIff` | crates/kms-service/src/domain/rate_limiter.rs:67-85 | In every run, in whatever order clock readings get the lock, a key is accepted if and only if each earlier accepted use has been outlived by some call since |
| `ReplayGuard.AcceptedIff` | crates/kms-service/src/server/middleware/security.rs:108-208 | In every run a request is let in if and only if its signature is valid, its timestamp less than 301 seconds from the clock, and every request let in before with its nonce key has been followed by one that reached the store more than 300 seconds after it |
| `ReplayGuard.FreshApart` | crates/kms-service/src/domain/rate_limiter.rs:67-85 | Two accepted uses of a key are more than the ttl less the disorder apart, in every run |
| `ReplayGuard.OvertakenReuse` | crates/kms-service/src/domain/rate_limiter.rs:67-85 | And no more: a call that read the clock later and got the lock earlier lets a key in again at that distance |
| `ReplayGuard.RepeatOnlyIfEarly` | crates/kms-service/src/server/middleware/security.rs:108-118 | In every run a request accepted twice was first marked before its own timestamp plus one second, plus the wait between the two clock readings of the repeat, plus the disorder of the lock |
| `ReplayGuard.RepeatPossibleIff` | crates/kms-service/src/server/middleware/security.rs:198-208 | With waits and disorder bounded, some continuation lets the last request in again if and only if it was marked that early, to the nanosecond, and no mark lies too far ahead |
| `KeyTable.ActiveRow` | crates/kms-db/src/repositories.rs:536-548 | An active row of the pair, or none if there is none |
| `KeyTable.VersionRow` | crates/kms-db/src/repositories.rs:550-564 | A row of the pair with that version, or none if there is none |
| `KeyLifecycle.VersionsGapless` | crates/kms-db/src/repositories.rs:492-534 | All versions from 1 to any key's version are in the table |
| `KeyLifecycle.ConflictIff` | crates/kms-db/src/repositories.rs:492-534 | The upsert's conflict branch fires if and only if the pair has a key newer than its active one |
| `KeyLifecycle.StepConsistent` | crates/kms-db/src/repositories.rs:492-678 | Every operation, failed ones included, keeps versions distinct and gapless and at most one active key per pair |
| `KeyLifecycle.StepCurrent` | crates/kms-service/src/application/use_cases/generate_key_pair.rs:85-135 | An operation that does not fail halfway keeps the newest key active, appends its row and overwrites nothing |
| `KeyLifecycle.RotationIs` | crates/kms-service/src/infrastructure/postgres/keys.rs:185-213 | A rotation sets the active key to Compromised for that reason and to Deprecated for the others, inactive and with the time of retirement as its creation time; the next version is put in with its purpose and the new material; no other row changes |
| `KeyLifecycle.GenerationIs` | crates/kms-service/src/application/use_cases/generate_key_pair.rs:85-135 | Generation revokes the active key even when no new one can be made or saved; otherwise it puts in the next version, or the first, with the given purpose and material; no other row changes |
| `KeyLifecycle.EnsuringIs` | crates/kms-service/src/bootstrap.rs:84-140 | Bootstrap puts in version 1 of a pair without an active key and leaves the table alone otherwise |
| `KeyLifecycle.RunConsistent` | crates/kms-service/src/application/use_cases/rotate_key.rs:84-150 | The same for every run from an empty table |
| `KeyLifecycle.RunCurrent` | crates/kms-service/src/application/use_cases/generate_key_pair.rs:85-135 | In every run without a failure between deactivate and save, the active key of a pair carries its greatest version |
| `KeyLifecycle.NoOverwrite` | crates/kms-db/src/repositories.rs:492-534 | In such runs the conflict branch never fires |
| `KeyLifecycle.FailedSaveThenOverwrite` | crates/kms-service/src/application/use_cases/generate_key_pair.rs:85-135 | One failed save is enough for the next key of the pair to overwrite version 1 |
| `KeyLifecycle.RunForward` | crates/kms-db/src/repositories.rs:582-678 | In such runs a row keeps its id, pair and version, and its status never goes back |
| `KeyLifecycle.GraceKept` | crates/kms-service/src/infrastructure/postgres/keys.rs:335-392 | Along every completed run a key that expires was retired at least 1800 seconds before |
| `KeyCache.HitAnswersAsMiss` | crates/kms-service/src/application/use_cases/get_private_key.rs:87-149 | With a coherent cache a hit answers exactly as a miss would |
| `KeyCache.ReadIs` | crates/kms-service/src/application/use_cases/get_private_key.rs:87-149 | A hit answers from the cache; a miss answers with the active row's version and unwrapped key, or says which of the two failed, and fills the cache exactly for a preloaded pair |
| `KeyCache.ReportedVersionSigned` | crates/kms-service/src/application/use_cases/sign_data.rs:108-203 | The version that signing reports is the version of the key it signed with |
| `KeyCache.SigningIs` | crates/kms-service/src/application/use_cases/sign_data.rs:108-203 | With a coherent cache, signing uses the first 32 bytes of the active row's unwrapped key and reports its version; no key, a failed unwrapping and a key shorter than 32 bytes are its three errors |
| `KeyCache.PinnedCoherentIff` | crates/kms-service/src/application/use_cases/sign_data.rs:108-170 | Version-pinned signing keeps the cache coherent if and only if it caches nothing or pins the active version |
| `KeyCache.GenerateCoherentIff` | crates/kms-service/src/application/use_cases/generate_key_pair.rs:85-135 | Generating a key keeps the cache coherent if and only if the pair is not cached |
| `KeyCache.RotateKeepsCoherent` | crates/kms-service/src/application/use_cases/rotate_key.rs:135-172 | Rotation for any reason keeps the cache coherent |
| `KeyCache.RotateIs` | crates/kms-service/src/application/use_cases/rotate_key.rs:84-172 | Without an active key nothing changes. With one, the table is rotated and the pair is evicted, or every pair of the service if the key was compromised; other cached keys stay as they were |
| `KeyCache.RewrapKeepsCoherent` | crates/kms-service/src/application/use_cases/rewrap_keys.rs:30-56 | Every table that the rewrap loop may leave keeps the cache coherent |
| `KeyCache.CleanupIdle` | crates/kms-service/src/workers/cache_cleanup.rs:24-36 | Over a coherent cache the cleanup worker removes nothing |
| `KeyCache.CleanupIgnoresGrace` | crates/kms-service/src/workers/cache_cleanup.rs:24-36 | After a rotation and a failed save it removes a cached key although its pair has a deprecated key within its grace period |
| `KeyCache.RunStaysCoherent` | crates/kms-service/src/server/state.rs:66-156 | In every serialised run of reads, signings, rotations, preloads, expirations, rewraps and cleanups each cached key is the unwrapped active key of its pair under its version, so every read answers as if there were no cache |
| `KeyWorkers.KeyService.GetKey` | crates/kms-service/src/application/use_cases/get_private_key.rs:87-149 | Cache, then table, then unwrap, then perhaps fill: the answer and the new state of the specification |
| `KeyWorkers.KeyService.GenerateKeyPair` | crates/kms-service/src/application/use_cases/generate_key_pair.rs:85-135 | Deactivate, then save, either of which may be the last thing that happens |
| `KeyWorkers.KeyService.SelectSigningKey` | crates/kms-service/src/application/use_cases/sign_data.rs:108-203 | The key signed with and the version reported when none is asked for |
| `KeyWorkers.KeyService.RotateKey` | crates/kms-service/src/application/use_cases/rotate_key.rs:84-172 | Rotation of a consistent table: the active row becomes Compromised or Deprecated by the reason and gets the time of retirement, the next version comes in with the old purpose and the new material, and the cache loses the pair, or the whole service after a compromise; without an active key all stays as it was |
| `KeyWorkers.KeyService.CleanupCache` | crates/kms-service/src/workers/cache_cleanup.rs:24-36 | The loop over a snapshot, in any order, removes exactly the services with a cached pair that is found to have no active key, lookups that err being skipped |
| `KeyWorkers.KeyService.ProcessExpirations` | crates/kms-service/src/workers/expiration.rs:37-76 | Rows deprecated at least 1800 seconds ago are set to Expired and no others change; on success none such is left, and it ends in success exactly when every audit record was written |
| `KeyWorkers.KeyService.RewrapBatch` | crates/kms-service/src/application/use_cases/rewrap_keys.rs:39-50 | A batch is rewrapped exactly when every row of it unwraps, and then holds the same secrets under the current master key |
| `KeyWorkers.KeyService.RewrapKeys` | crates/kms-service/src/application/use_cases/rewrap_keys.rs:12-61 | Terminates; on success every row that needed it was rewrapped once and counted once; an unwrap failure means such a row exists; in every outcome only wrappings change and each still holds its secret |
| `KeyWorkers.KeyService.PostgresBatch` | crates/kms-service/src/infrastructure/postgres/keys.rs:315-332 | A batch succeeds exactly when every row of it unwraps, and then is the new ciphertexts by id |
| `KeyWorkers.KeyService.PostgresRound` | crates/kms-service/src/application/use_cases/rewrap_keys.rs:30-57 | One turn of the loop over the Postgres adapter: ended, continued, or failed in unwrapping or in a batch that is rolled back, and then without a change |
| `KeyWorkers.KeyService.RewrapOverPostgres` | crates/kms-service/src/application/use_cases/rewrap_keys.rs:28-60 | The loop over the Postgres adapter, stopped after any number of rounds, is where the specification has it; it has ended in success if and only if the table is empty or the batch size 0 |
| `PostgresRewrap.SucceedsIff` | crates/kms-service/src/infrastructure/postgres/keys.rs:293-332 | The same of the specification, for every number of rounds |
| `PostgresRewrap.RoundRewraps` | crates/kms-service/src/infrastructure/postgres/keys.rs:293-332 | A round that goes on has wrapped the newest n keys again, whatever their master version, each with its own plaintext, and touched nothing else; it fails exactly when one of them cannot be unwrapped or the batch is not committed, and leaves the table then |
| `PostgresRewrap.CountsAgain` | crates/kms-service/src/application/use_cases/rewrap_keys.rs:52-57 | While it runs, after k rounds it has counted k times min(batch size, number of keys) |
| `PostgresRewrap.NeverEnds` | crates/kms-service/src/application/use_cases/rewrap_keys.rs:28-60 | With a non-empty table whose keys unwrap, batches that commit and a positive batch size it is still running after every number of rounds |
| `PostgresRewrap.OneKeyForever` | crates/kms-service/src/application/use_cases/rewrap_keys.rs:28-60 | One generated key in batches of ten is counted once a round, for ever |
| `KeyWorkers.KeyService.ActiveKeyMap` | crates/kms-service/src/bootstrap.rs:72-81 | The local map holds exactly the active row of every pair that has one |
| `KeyWorkers.KeyService.BootstrapRule` | crates/kms-service/src/bootstrap.rs:84-167 | One rule, a key that cannot be generated, wrapped or saved included, gives the table, cache, local map and outcome of the specification |
| `KeyWorkers.KeyService.BootstrapService` | crates/kms-service/src/bootstrap.rs:84-168 | The inner loop is its rules one after another, up to the first that fails |
| `KeyWorkers.KeyService.BootstrapKeys` | crates/kms-service/src/bootstrap.rs:61-172 | The nested loops, early returns included, start from the table's active set and give the state, map, number of keys made and outcome of the rules one after another; on success every ACL pair has an active key and preloaded pairs are cached |
| `KeyBootstrap.RulesFacts` | crates/kms-service/src/bootstrap.rs:83-168 | What any list of rules keeps, for every consistent table: active keys, cached keys and mapped keys stay, the map has the active key of every pair but for its row id, and every rule of a successful run is served |
| `KeyBootstrap.BootstrapServes` | crates/kms-service/src/bootstrap.rs:83-168 | On success every ACL pair has an active key and preloaded pairs are cached at its version; keys active before are untouched and the cache is coherent in any case |
| `KeyBootstrap.BootstrapMakesOnly` | crates/kms-service/src/bootstrap.rs:83-168 | Whatever the table: each row that is new or different is a version 1 made for a pair some rule names, with the purpose of its algorithm and the key supplied; each cached key that is new or different is a preload some rule asks for |
| `KeyBootstrap.BootstrapOkIff` | crates/kms-service/src/bootstrap.rs:83-168 | A bootstrap succeeds if and only if none of its rules fails by the map read at the start: no missing key that cannot be made, no preloaded key that does not unwrap |
| `KeyBootstrap.BootstrapExactIff` | crates/kms-service/src/bootstrap.rs:84-140 | By the table, the map read from it and the rules alone: rows are only appended, and the local map stays the table's active set, if and only if no rule before the first that fails is for a pair that has rows and no active one and whose key can be made |
| `KeyBootstrap.SuccessExactIff` | crates/kms-service/src/bootstrap.rs:83-168 | Where no rule fails: it succeeds, and both hold if and only if no rule is for a pair that has rows and no active one |
| `KeyBootstrap.FailedSaveThenBootstrap` | crates/kms-service/src/bootstrap.rs:117-138 | After one failed save and a restart, bootstrap overwrites the old version 1 and maps the pair to an id that is not in the table |
| `KeyBootstrap.SecondBootstrapIdle` | crates/kms-service/src/bootstrap.rs:83-168 | A second run over the same ACL makes no key and changes nothing |
| `VhsmCrypto.ReconstructMasterKey` | crates/vhsm-daemon/src/crypto.rs:33-67 | The combined key exactly when there are shares, their indices differ and they combine to 32 bytes; each error exactly in its case, and the first repeated index by name |
| `VhsmCrypto.DecryptsEncrypted` | crates/vhsm-daemon/src/crypto.rs:71-108 | Splitting the payload after twelve bytes undoes putting the nonce in front |
| `VhsmCrypto.PayloadLayout` | crates/vhsm-daemon/src/crypto.rs:71-108 | A payload is a nonce of twelve bytes and the cipher's output, under a key of 32 bytes; nothing else is produced or opened |
| `Vhsm.StepKeepsInv` | crates/vhsm-daemon/src/handler.rs:411-757 | Every stay under the lock keeps the state well sealed and never seals it again |
| `Vhsm.UnsealsIff` | crates/vhsm-daemon/src/handler.rs:462-500 | InitMasterKey succeeds if and only if the threshold is at least 1, there are that many shares, their indices differ and they combine to 32 bytes, which are then the key in force; 400 exactly for threshold 0, 422 otherwise, and then nothing changes |
| `Vhsm.EveryInterleaving` | crates/vhsm-daemon/src/handler.rs:424-500 | In every interleaving of requests and timeout checks: initialized exactly when a 32-byte key is present, version 1 then and 0 otherwise, loaded CA keys only when unsealed, and unsealed for good |
| `Vhsm.RootCaNeverPanics` | crates/vhsm-daemon/src/handler.rs:633-716 | The second lock acquisition of InitRootCa always finds the key it unwraps |
| `Vhsm.TickClearsTimerOnly` | crates/vhsm-daemon/src/main.rs:24-40 | In every reachable state the timeout check changes nothing or clears the timer of a sealed vHSM |
| `Vhsm.CaKeysStay` | crates/vhsm-daemon/src/handler.rs:718-757 | A loaded CA key stays loaded through every run |
| `Vhsm.KeyInForce` | crates/vhsm-daemon/src/handler.rs:424-500 | The master key after any run is the last one a ceremony or InitMasterKey put in force |
| `Vhsm.EncryptThenDecrypt` | crates/vhsm-daemon/src/handler.rs:886-1056 | A ciphertext decrypts to its plaintext after any run that left the same master key in force; after any other run the answer is what the key now in force makes of it |
| `Vhsm.DecryptsIffKept` | crates/vhsm-daemon/src/handler.rs:886-1056 | For a cipher whose payloads open under one key only, it decrypts if and only if the key was kept, and otherwise the answer is error 500 |
| `Vhsm.EnvelopeRoundTrip` | crates/vhsm-daemon/src/handler.rs:502-616 | A KEK and a data key wrapped under it later in a run unwrap to the data key handed out |
| `Vhsm.RootCaReloads` | crates/vhsm-daemon/src/handler.rs:633-757 | An encrypted CA key sent back to LoadRootCa is the one loaded, whatever runs between the two requests and between the two halves of the second |
| `Vhsm.CeremoniesShrink` | crates/vhsm-daemon/src/handler.rs:424-460 | Once unsealed no ceremony starts: those that can still install a key are the ones already past their check |
| `Vhsm.KeyOutlastsIff` | crates/vhsm-daemon/src/handler.rs:424-500 | Once unsealed, the master key outlasts every run whose InitMasterKey requests bring it again if and only if every ceremony in flight carries it |
| `Vhsm.OverlappingCeremonies` | crates/vhsm-daemon/src/handler.rs:424-460 | Two ceremonies that both passed the check: the second replaces a key whose shares were already handed out |
| `VhsmDaemon.VhsmState.Stay` | crates/vhsm-daemon/src/handler.rs:411-1056 | Whichever stay under the lock comes next keeps the invariant, takes the step of the machine, gives its answer and does not panic |
| `VhsmDaemon.VhsmState.Serve` | crates/vhsm-daemon/src/handler.rs:411-1056 | Any interleaving of stays from a valid state: the state the machine reaches, the answer to each stay, and no panic |
| `VhsmDaemon.VhsmState.InitRootCa` | crates/vhsm-daemon/src/handler.rs:633-716 | InitRootCa with any other stays between its two locks: refused exactly when sealed at the start, otherwise answered without a panic, a returned key being wrapped under the key in force at the second lock |
| `VhsmDaemon.VhsmState.ZeroizeKey` | crates/vhsm-daemon/src/state.rs:43-54 | The state is as new, with every CA key drained |
| `VhsmDaemon.VhsmState.CheckTimeout` | crates/vhsm-daemon/src/main.rs:24-40 | One timeout check is the Tick step; from a valid state it changes nothing but the timer |
| `VhsmDaemon.VhsmState.BeginCeremony` | crates/vhsm-daemon/src/handler.rs:424-441 | The first stay of GenerateCeremony is the StartCeremony step, with its answer |
| `VhsmDaemon.VhsmState.EndCeremony` | crates/vhsm-daemon/src/handler.rs:441-453 | The second stay is the FinishCeremony step |
| `VhsmDaemon.VhsmState.InitMaster` | crates/vhsm-daemon/src/handler.rs:462-500 | Success if and only if the threshold is at least 1, there are that many shares, their indices differ and they combine to 32 bytes; then the key is the combined one, the version 1 and the timer off. 400 exactly for threshold 0, otherwise 422, and the state stays |
| `VhsmDaemon.VhsmState.BeginRootCa` | crates/vhsm-daemon/src/handler.rs:633-682 | The first stay of InitRootCa is the StartRootCa step, with its answer |
| `VhsmDaemon.VhsmState.EndRootCa` | crates/vhsm-daemon/src/handler.rs:684-716 | The second stay reads the key unchecked and does not panic |
| `VhsmDaemon.VhsmState.BeginLoadCa` | crates/vhsm-daemon/src/handler.rs:718-748 | The first stay of LoadRootCa is the StartLoadCa step, with its answer |
| `VhsmDaemon.VhsmState.EndLoadCa` | crates/vhsm-daemon/src/handler.rs:750-757 | The second stay is the FinishLoadCa step |
| `VhsmDaemon.VhsmState.GenerateKekFor` | crates/vhsm-daemon/src/handler.rs:502-545 | 403 exactly when sealed, 400 for another algorithm than AES256GCM, otherwise a wrapping that unwraps to the new KEK under the master key in force, version 1 |
| `VhsmDaemon.VhsmState.GenerateDek` | crates/vhsm-daemon/src/handler.rs:547-616 | 403 exactly when sealed, 409 for another KEK version, 400 for another algorithm, 500 when the KEK does not unwrap, otherwise the data key and a wrapping that unwraps to it under that KEK, version 1 |
| `VhsmDaemon.VhsmState.EncryptWith` | crates/vhsm-daemon/src/handler.rs:886-935 | 404, 403 and 409 in that order, otherwise a payload that decrypts to the plaintext under the master key in force, version 1 |
| `VhsmDaemon.VhsmState.DecryptWith` | crates/vhsm-daemon/src/handler.rs:1003-1056 | 404, 403 and 409 in that order, 500 when the payload does not open, otherwise version 1 and the plaintext, which is the one encrypted if it was under this key |
| `Credentials.CredentialStore.Execute` | crates/kms-service/src/application/use_cases/issue_agent_credential.rs:137-464 | A request that fails early leaves the table. One with a live row (the caller's for the target, unrevoked, active, unexpired) is answered from the newest: its payload, or an empty username with the base64 text, or an error if it cannot be decrypted. Otherwise, if no stage fails, sealing succeeds and the id is new, the credential is returned, every earlier row of the pair is revoked and an active row with the new id, rounded to microseconds, is last; else an error and no change |
| `Credentials.Latest` | crates/kms-db/src/repositories.rs:304-326 | A usable row than which no usable row is newer, or none if there is none |
| `Credentials.OutcomeIs` | crates/kms-service/src/application/use_cases/issue_agent_credential.rs:137-464 | The same for the request as a function of the table: early refusal, replay of the newest live row, issue, or failure, exactly under those conditions |
| `Credentials.ActivatedIs` | crates/kms-service/src/application/use_cases/issue_agent_credential.rs:368-430 | Inserting as PROVISIONING and then setting ACTIVE by id touches no other row |
| `Credentials.RunSane` | crates/kms-service/src/application/use_cases/issue_agent_credential.rs:325-463 | In every serialised run each (caller, target) has at most one unrevoked row and every committed row is ACTIVE |
| `Credentials.ErrorsChangeNothing` | crates/kms-service/src/application/use_cases/issue_agent_credential.rs:325-463 | An error leaves the table alone, and a change means the fresh credential was returned |
| `Credentials.RowKept` | crates/kms-db/src/repositories.rs:214-233 | Until it expires an unrevoked row is not touched by any run of requests |
| `Credentials.RepeatIdenticalIff` | crates/kms-service/src/application/use_cases/issue_agent_credential.rs:212-293 | After any other requests up to its time, a repeat returns the same id, username and password if and only if the stored expiry lies ahead; the whole answer is identical if and only if, besides, that expiry was a whole number of microseconds |
| `Acl.CompileRules` | crates/kms-service/src/config/acl.rs:170-186 | The inner loop adds exactly the grants and preloads of one entry |
| `Acl.Compile` | crates/kms-service/src/config/acl.rs:156-193 | Over the settings in any order: the compiled sets hold exactly what the entries grant under their service ids, and the last entry of a service id decides its actions |
| `Acl.AccessAgreesIff` | crates/kms-service/src/config/acl.rs:195-212 | The compiled policy answers every access query as the direct lookup if and only if whatever an entry allows, the entry stored under its service id allows too, and so does some entry whose service id is the key it is stored under |
| `Acl.ActionsAgreeIff` | crates/kms-service/src/config/acl.rs:223-232 | It answers every control-action query as the direct lookup for every iteration order if and only if entries sharing a service id have the actions stored under it and a key that is nobody's id has none |
| `Acl.PreloadAgrees` | crates/kms-service/src/config/acl.rs:214-221 | Preload queries agree unconditionally |
| `Acl.MatchingKeysAgree` | crates/kms-service/src/config/acl.rs:156-232 | Map keys that equal their entries' service ids are enough for all queries |
| `Acl.MisplacedEntry` | crates/kms-service/src/config/acl.rs:156-232 | An entry stored under another name makes both kinds of query disagree |

## Left out

- RateLimiter.SlidingBound: takes one window per key, which the middleware guarantees by putting the path into the key.
- RedisLimiter.FixedWindowBound: takes one window per key, as above, and a server clock that does not go back; the server runs one script at a time.
- ReplayGuard.RepeatPossibleIff: puts the wall clock of the skew check and the monotonic clock of the store on one time line.
- KeyBootstrap.BootstrapExactIff: new keys are taken to unwrap; its half about the map takes their ids to differ from those of inactive rows and leaves creation times aside, as the map has the service's clock and the table the database's.
- PostgresRewrap.NeverEnds: takes unwrapping to depend on the ciphertext alone, as the vHSM client does.
- Vhsm.DecryptsIffKept: idealises the cipher; AES-GCM payloads can be made to open under two keys, and `Vhsm.EncryptThenDecrypt` says what holds without that.
- AuditRuns.RunVerifiesIff: idealises the digest (injective, never the genesis value or empty) in both directions; `AuditChain.LogDetermined` does not, it names the collision instead.
- AuditInterleaving.EveryInterleavingLinks: `record` takes no lock and is only in the serialised runs; stored instants ascend from insert to insert.
- AuditInterleaving.EveryInterleavingChains: takes hashed instants of whole microseconds, as the store keeps no more.
- KeyWorkers.KeyService.RotateKey: retire and insert are one database transaction and one step here; concurrent rotations are not modelled.
- Credentials.CredentialStore.Execute: requests are serialised, as concurrent ones are not ordered by the code; a commit that fails is taken not to have happened; the provider is taken to return the username it was given.
- Vhsm.EveryInterleaving: `start_unseal_timer`, which nothing calls yet, is included as a step.
- Varint.DecodeLengthDelimited: integers are unbounded, so an offset plus length beyond the machine word is not modelled.
- SvidMessage.DecodeX509SvidResponse: UTF-8 decoding is a parameter; round trips are for wire types 0 and 2, since types 1 and 5 are read as length-delimited.
- `ProvisioningStatus::can_transition_to`, which only its own tests call.
- Counter, limit and version arithmetic near the end of the machine word.
- Shamir's arithmetic, AES-GCM, SHA-256, Ed25519, ECDSA and X.509 encoding: foreign libraries, parameters here.
- Zeroisation of memory beyond clearing the field.
- HTTP and mTLS serving, logging, configuration loading, migrations, the CLI and the provider calls themselves.
- The stateless vHSM requests (random bytes, credential generation, signing) and the reconciliation worker, which only logs.
