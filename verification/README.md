# Verified model of the DSAR backend's stateful cores

This Dafny project models the parts of the data-subject-request toolkit whose correctness is a matter of whole runs
rather than of single calls, and proves what those parts are for:

- **The audit log, end to end.** Canonical JSON and its text (`CanonicalJson`, `StableJson`), the `|`-joined payload
  and what it identifies (`AuditHash`, `AuditDigest`), the per-request hash chain (`AuditLog`, `AuditChain`,
  `AuditRaces`); the two keyset-paged queries and the loops that drain them (`Keyset`, `AuditExport`,
  `SubjectLookup`); the command-line tail with its watermark (`AuditTail`, `AuditTailRun`,
  `AuditTailLoop`, `AuditTailAppends`); the CSV form of an export (`AuditCsv`).
- **Locks, leases and keys.** Token-guarded thread locks (`ChatLocks`), claim leases on delivery attempts
  (`ClaimLeases`), and the rotation and rollback of webhook signing keys (`SigningKeys`, `SigningKeyRuns`).
- **The fixed-window rate limiter**, in memory and as the Redis/Upstash script (`RateLimit`, `RedisRateLimit`).
- **The request lifecycle**: transition table, idempotency keys, appeals and clock segments (`LifecycleRules`,
  `ClockSegments`, `LifecycleService`, `LifecycleGuards`, `LifecycleRuns`, `LifecycleRepeats`).
- **Two graph walks**: the check that a chat value can be written as JSON (`JsonSerializable`) and the walk over the
  imports of packed declaration files (`DeclarationImports`).

`Basics` and `Sorting` hold the list, text and ordering facts the rest shares. `dafny verify dfyconfig.toml` checks
the whole project.

Objects that update their own fields are classes (`AuditRepository`, `LockRepository`, `AttemptRepository`,
`WebhookEndpoints`, `MemoryStore`, `RedisStore`, `RequestService`, `Seen`); each method's contract equates the new
state with a function of the old one, and the run theorems are about those functions. A run is a sequence of steps
from the empty store, and `Possible`, `Serialised` or `Undisturbed` says which sequences can happen.

## Conventions

- Every repository or service call is one atomic step, except that an audit append is two: reading the chain's tip and
  writing the new event. Appends to one request are serialised where a theorem says so; appends to different requests
  interleave freely. `AuditRaces` is about appends that are not serialised at all.
- A chat client reads its own clock some time before its call reaches the lock repository, and other calls may come in
  between; only the repository's own clock does not run backwards.
- Times are integers and compare like the ISO-8601 texts they stand for; in a hash payload a time contributes its
  decimal text. Ids are compared by one total order on text, for both `<` and `localeCompare`, which the source mixes.
- SHA-256 is idealised (`IdealHash`): injective, never empty, and no `|` in a digest; `IdealHashExists` gives such a
  function. The chain is modelled over the
  digest of an event's fields, a function passed in; where collisions matter it has to be `IdealDigest`, which
  `IdealHashGivesIdealDigest` derives for the hash of the payload. The legal clock is an arbitrary function of request,
  timeline and segments; so is identifier normalisation. Generated ids, tokens and key ids are inputs that have to be
  fresh.
- A calculation that a theorem is about is also stated without its name where it matters: what a hash covers, what a
  heading stands over, when a lock ends and what a service call changes are told in the fields of the records
  themselves (`HashedText`, `ExportIsTable`, `LockLasts`, `LifecycleGuards`).
- A JSON object is the sequence of its members in insertion order, and a JSON number is the text it prints as.

## Where the code does less than it seems to promise

Each of these is a theorem, with the condition under which the code does keep the promise.

- Its payload identifies an event, among all events, if and only if its actor, action, object and request id hold no
  `|` (`IdentifiedExactlyWhenSeparable`). So a chain of such events cannot be replaced unnoticed by any other, while
  every other event shares its payload with a different one (`UnseparableCollides`).
- Verification notices a removed record at the record that followed it, and never that the end of a chain is missing
  (`RemovalIsReportedAtSuccessor`, `TruncationIsNotReported`).
- Appends are not serialised by the service. On any run whatsoever, a request's chain verifies if and only if at every
  write to it the last stored hash still was the one the writing client had read (`VerifiesExactlyWhenTipsAsRead`).
  Two clients that read the same tip and both write break it, and verification reports the event written second
  (`RacedRunIsReported`).
- Events stored under the empty request id are not chained, yet verification walks them as a chain: it reports all of
  them but the first (`BlankRequestIsReported`). Chain theorems are therefore about non-empty request ids.
- The tail's first poll is complete exactly up to fifty full pages (`FirstPollCompleteExactly`). In every run, what is
  in the log when a drain starts is written by the end of that drain or never (`NowOrNever`), and a drain that is not
  cut is complete from the watermark on, whatever was lost before it (`UncutDrainsComplete`); `RunAuditTail` promises
  both.
- The route trims the request id the tail is given. The tail is about the events of that request if and only if the
  flag neither starts nor ends in white space; a blank flag makes it write every event of the tenant
  (`FlagNamesItsRequestExactly`, `TailWithMisreadFlag`). The route also rejects a cursor with a blank event id: a
  drain of a log that stands still fails exactly when such an event ends a page behind which it has to go on
  (`PollOnce`).
- `legacyListRequestsBySubject` and `listBySubject` return the same page of every store if and only if the limit lies
  within the repository's range and neither a blank policy pack nor a blank cursor id can show within the query's time
  bounds (`Interchangeable`, `ImplementationsAgreeExactly`).
- Collecting a subject's request ids fails on few matches too, if a full page happens to end in a request with a blank
  id: the repository ignores the cursor, and the loop starts over until the cap stops it (`CollectRequestIds`).
- `normalizePositiveInteger` turns a fraction below one into zero (`NormalizedIsPositive`). The interval bound holds if
  and only if the limit is positive (`BoundHoldsExactly`); with a zero window the memory store never rejects anything
  (`WindowBelowOneNeverRejects`), while the Redis and Upstash stores fail on every request that would open a window, as
  the server refuses the expiry time (`ScriptRefinesMemoryStore`).
- Endpoints whose tenant and id join to the same `tenant:id` key share one stored record. Every run keeps one primary
  key per endpoint if and only if no two endpoints do (`OnePrimaryExactlyWithoutCollision`, `CollisionLosesPrimary`).
  Runs use fresh key ids; when an id is rotated in again after a rollback, replaying its first rollback loses the
  primary (`ReusedKeyIdLosesPrimary`).
- A clock segment is identified by its signature if and only if its times and reason hold no `|` and its policy version
  no `true` or `false` that reads as the flag in front of a `|` (`SignatureIdentifiesExactly`). Otherwise a different
  segment of the same signature is dropped (`SharedSignatureIsLost`).
- Approving an appeal reopens a refused request if and only if the appeal's key is unused (`ApprovalReopensOnce`). It is
  used when the appeal is approved again after a second refusal (`ApprovedTwiceStaysRefused`), and when a caller has
  spent it as the idempotency key of a transition (`SpentKeyStaysRefused`); the approval is accepted all the same.

## Model

| member | source | states |
|---|---|---|
| CanonicalJson.Canonicalize | packages/backend/src/audit/hash-chain.ts:40-57 | the recursive loop over sorted keys returns the canonical form, for which the next two rows are proved |
| CanonicalJson.CanonicalKeepsMeaning | packages/backend/src/audit/hash-chain.ts:40-57 | canonicalising loses nothing: the result is the same value up to the order of object keys |
| CanonicalJson.MeaningFixesCanonical | packages/backend/src/audit/hash-chain.ts:40-57 | values equal up to key order, at any depth, have one canonical form |
| CanonicalJson.CanonicalKeysAscend | packages/backend/src/audit/hash-chain.ts:40-57 | every object in the canonical value, at any depth, has its keys in ascending order |
| Text.LessExactly | packages/backend/src/audit/hash-chain.ts:40-57 | the order of the keys: the first character in which two texts differ decides, and a proper prefix comes first |
| StableJson.PrintIsRead | packages/backend/src/audit/hash-chain.ts:59-60 | a reader that follows RFC 8259 recovers every printed value, and the text behind it, off the front of a longer text |
| StableJson.EscapesAreShort | packages/backend/src/audit/hash-chain.ts:59-60 | characters are escaped only where they have to be, by two characters where there is such an escape, and by lower-case hex otherwise |
| StableJson.PrintUnique | packages/backend/src/audit/hash-chain.ts:59-60 | JSON text can be read off the front of a longer text in one way only, when what follows cannot extend a number |
| StableJson.StableTextIsMeaning | packages/backend/src/audit/hash-chain.ts:59-60 | two values get equal text if and only if they are equal up to key order |
| StableJson.StableTextSelfDelimits | packages/backend/src/audit/hash-chain.ts:72-83 | followed by the separator, a stable text determines its value and the text behind it |
| AuditHash.PayloadText | packages/backend/src/audit/hash-chain.ts:72-83 | the payload is the ten fields in the order actor, action, object, request id, before, after, reason, previous hash, sequence, creation time, with a separator between any two |
| Text.DecimalIsRead | packages/backend/src/audit/hash-chain.ts:81 | a sequence number is printed as the decimal text that reads as it, without leading zeros |
| AuditLog.StampIsRead | packages/backend/src/audit/hash-chain.ts:82 | the text a creation time contributes can be read back, so different times contribute different texts |
| AuditHash.PayloadDeterminesFields | packages/backend/src/audit/hash-chain.ts:72-83 | for events whose free-text fields hold no separator, payloads are equal if and only if every hashed field is, absent and empty request id and previous hash being the same |
| AuditHash.UnseparableCollides | packages/backend/src/audit/hash-chain.ts:72-83 | any event with a separator in a free-text field has a partner that differs in a hashed field and has the same payload |
| AuditHash.PayloadBindsPreviousHash | packages/backend/src/audit/hash-chain.ts:72-83 | two payloads that differ in the previous hash only are never equal, whatever the other fields hold |
| StableJson.PrintIsWhole | packages/backend/src/audit/hash-chain.ts:59-60 | read one character at a time, printed JSON starts and ends outside strings and holds no separator there |
| AuditDigest.PayloadIdentifies | packages/backend/src/audit/hash-chain.ts:72-83 | an event without separators shares its payload with exactly those events, of whatever free text, that have the same hashed fields |
| AuditDigest.IdentifiedExactlyWhenSeparable | packages/backend/src/audit/hash-chain.ts:72-83 | event by event: the payload identifies it among all events if and only if its free-text fields hold no separator |
| AuditDigest.IdealHashGivesIdealDigest | packages/backend/src/audit/hash-chain.ts:68-91 | hashing the payload with a collision-free hash gives digests that bind the hashed fields of every separator-free event against all others, the previous hash always included |
| AuditDigest.IdealHashExists | packages/backend/src/audit/hash-chain.ts:84-91 | a function with all that is asked of the hash exists |
| AuditLog.AuditRepository.Append | packages/backend/src/testing/minimal-persistence.ts:359-406 | a known id is refused and changes nothing; any other record goes to the end, and ids stay unique |
| AuditLog.AppendAuditEvent | packages/backend/src/audit/service.ts:117-176 | fails exactly on a known id and then changes nothing; otherwise adds one event that holds every field the caller passed, the tip's hash, the next sequence and the hash of its own fields, and leaves the log in front of it alone |
| AuditLog.MergedReasonMeaning | packages/backend/src/audit/service.ts:138-145 | the merged reason is the given object, or the given value under `value`, with the correlation id overriding any member of that name |
| AuditLog.PreparedCarriesInput | packages/backend/src/audit/service.ts:129-173 | the stored event holds id, time, actor, action, object, request id, before and after as the caller passed them, and a reason that carries the caller's and the correlation id |
| AuditLog.KeepsExactly | packages/backend/src/testing/minimal-persistence.ts:417-445 | an event is listed if and only if it passes each filter given: request id, set of request ids, actor, action and both inclusive time bounds; empty texts filter nothing |
| AuditChain.HashedText | packages/backend/src/audit/export.ts:212-223 | what is hashed, at appending and at verification: the event's own actor, action, object, request id, before, after and reason, the previous hash, the sequence and the time, joined in this order |
| AuditChain.HashCoversContent | packages/backend/src/audit/export.ts:212-223 | two hash inputs agree if and only if the events agree in all these fields, JSON up to key order, and so do the previous hashes |
| AuditChain.VerifyAuditChain | packages/backend/src/audit/export.ts:199-237 | reports, in order, exactly the positions whose stored hash is not the hash of their fields with the stored hash before them, each with its id, that hash and the stored one, and is satisfied when there are none |
| AuditChain.BadPositionsExact | packages/backend/src/audit/export.ts:225-231 | the positions the report is made from are all the bad ones and no good one |
| AuditChain.ReportIsExact | packages/backend/src/audit/export.ts:234-237 | the report is empty if and only if every stored hash is right |
| AuditChain.ContentChangeIsReportedThere | packages/backend/src/audit/export.ts:212-233 | rewriting a separator-free record of a verified chain to anything, and keeping its stored hash, is reported at that record alone, and there if and only if its actor, action, object, request id, sequence, time or the meaning of before, after or reason changed |
| AuditChain.HashChangeIsReportedTwice | packages/backend/src/audit/export.ts:212-233 | rewriting one stored hash is reported at that record and the next, nowhere else |
| AuditChain.EqualHashesBindPrefix | packages/backend/src/audit/export.ts:205-237 | a record of a separator-free verified chain and one of any verified chain with equal stored hashes stand at the same position behind the same history, field by field |
| AuditChain.TipHashBindsHistory | packages/backend/src/audit/export.ts:199-237 | a separator-free verified chain and any other verified chain with the same last stored hash have the same length and the same events at every position, field by field but for their ids |
| AuditChain.TruncationIsNotReported | packages/backend/src/audit/export.ts:212-237 | what is left of a verified chain when its end is dropped still verifies |
| AuditChain.RemovalIsReportedAtSuccessor | packages/backend/src/audit/export.ts:212-233 | dropping any other record of a separator-free verified chain is reported at the record that followed it and nowhere else |
| AuditChain.EqualTipsEqualHistories | packages/backend/src/audit/service.ts:117-176 | whatever two logs went through, if appends were serialised and one of them was given separator-free texts, equal tip hashes of a request mean equal histories, field by field |
| AuditChain.StepKeepsChains | packages/backend/src/audit/service.ts:122-174 | the read and the write of an append each keep every request's chain linked and every waiting event current |
| AuditChain.RunKeepsIds | packages/backend/src/testing/minimal-persistence.ts:382-390 | ids stay unique in every run, serialised or not |
| AuditChain.EveryChainVerifies | packages/backend/src/audit/service.ts:117-176 | after any interleaving of serialised per-request appends over many requests, each request's chain verifies, is numbered from 1 up and stores the hash before it |
| AuditRaces.ReportedExactlyWhereUnlinked | packages/backend/src/audit/export.ts:212-233 | after any run, serialised or not, verification reports exactly the events that do not store the hash of the event in front of them |
| AuditRaces.VerifiesExactlyWhenTipsAsRead | packages/backend/src/audit/service.ts:122-174 | on any run, a request's chain verifies if and only if at every write to it the last stored hash still was the one the writing client had read |
| AuditRaces.RacedRunIsReported | packages/backend/src/audit/service.ts:122-174 | after any serialised run, two clients that read the same tip and then both write leave a chain in which the event written second is reported and no other |
| AuditRaces.BlankRequestIsReported | packages/backend/src/audit/service.ts:122-128 | events under the empty request id are not chained, and verifying that id reports each of them but the first |
| Keyset.SelectedIsExact | packages/backend/src/testing/minimal-persistence.ts:417-469 | the filtered and sorted list holds exactly the kept records, each once, by falling time and, at one time, by falling id |
| Keyset.BoundedLimit | packages/backend/src/testing/minimal-persistence.ts:77-82 | the limit lies between 1 and 500: the one asked for, cut to the range, and 50 when none is |
| Keyset.CursorDropsPrefix | packages/backend/src/testing/minimal-persistence.ts:445-456 | filtering by a cursor left at position k drops exactly the first k records of the selection |
| Keyset.PageAt | packages/backend/src/testing/minimal-persistence.ts:470-479 | the page at position k is the next slice of the selection, and it has a cursor if and only if something is left behind it |
| Keyset.DrainIsExact | packages/backend/src/testing/minimal-persistence.ts:407-481 | following cursors over an unchanged store yields the whole selection, nothing missed and nothing twice |
| AuditExport.ExportTenantWide | packages/backend/src/audit/export.ts:288-335 | succeeds if and only if at most 10,000 events lie in the window, and then returns exactly those, newest first, with the hashes of the earliest and the latest |
| SubjectLookup.ImplementationsAgreeExactly | packages/backend/src/routes/subjects.ts:76-135 | the route's own lookup and the repository's return the same page of every store if and only if the query passes a test of its limit, blank fields and time bounds |
| SubjectLookup.WellFormedIsInterchangeable | packages/backend/src/testing/minimal-persistence.ts:915-1007 | with a limit in range and no blank policy pack or cursor id the two are interchangeable |
| SubjectLookup.RepositoryKeepsExactly | packages/backend/src/testing/minimal-persistence.ts:931-970 | the repository lists a request if and only if its subject id, external reference or email is an identifier asked for, up to normalisation, and it passes every filter given |
| SubjectLookup.ImplementationsDisagree | packages/backend/src/routes/subjects.ts:85-116 | for every other query there is a store, of one record or none, on which the two differ |
| SubjectLookup.AllOfIsExact | packages/backend/src/testing/minimal-persistence.ts:939-993 | the pages for one subject are cut from a list that holds each matching request once |
| SubjectLookup.SubjectPage | packages/backend/src/testing/minimal-persistence.ts:971-1005 | a cursor left at position k leads to the next slice of that list, and one with a blank id back to the first |
| SubjectLookup.CollectRequestIds | packages/backend/src/routes/audit.ts:97-131 | on every store the cursor-draining loop terminates, succeeds if and only if at most 10,000 requests match and no full page ends in a blank id, and then returns every matching id once |
| AuditTail.NextPage | packages/cli/src/commands/audit-tail.ts:111-129 | fetching one more page of a log that grew meanwhile repeats nothing and still leaves no event of the first fetch behind the cursor |
| AuditTail.PollOnce | packages/cli/src/commands/audit-tail.ts:102-134 | for any interleaving of appends with page fetches, a drain returns distinct wanted events in time order, and all that the log held at the first fetch unless it stops at the page cap; it fails only on a blank event id, and on a log that stands still exactly when one ends a page that is not the last |
| AuditTail.CutExactlyPastTheCap | packages/cli/src/commands/audit-tail.ts:126-129 | a drain of an unchanging log is cut short if and only if more than fifty full pages of events are wanted |
| AuditTail.SeenMeansWritten | packages/cli/src/commands/audit-tail.ts:180-203 | among events no older than the watermark, the bounded id set recognises exactly those already written |
| AuditTail.WritingKeepsMarks | packages/cli/src/commands/audit-tail.ts:198-203 | after each line the watermark is the newest time written and the set is exactly the ids written at it |
| AuditTail.EmitNew | packages/cli/src/commands/audit-tail.ts:192-204 | a poll's loop writes exactly the events not written before, in their order |
| AuditTailRun.PollWritesOnce | packages/cli/src/commands/audit-tail.ts:184-204 | no event is written twice, even across polls and even when the page cap cut a drain |
| AuditTailRun.PollCatchesUp | packages/cli/src/commands/audit-tail.ts:184-204 | after an uncut drain every event in the log at its first fetch has been written, and everything older than the new watermark has been written too |
| AuditTailRun.PollWritesInOrder | packages/cli/src/commands/audit-tail.ts:130-204 | over all polls lines come out in time order, whatever the page cap did |
| AuditTailRun.FirstPollCompleteExactly | packages/cli/src/commands/audit-tail.ts:111-129 | the first poll of a log that stands still misses nothing if and only if the request has at most fifty full pages of events |
| AuditTailRun.SnapshotPollExtendsChain | packages/cli/src/commands/audit-tail.ts:130-204 | a poll that reads one snapshot turns the chain so far into the chain of that snapshot, in sequence order |
| AuditTailLoop.PollKeepsSettled | packages/cli/src/commands/audit-tail.ts:124-204 | what a poll finds in the log and leaves unwritten is older than the watermark or below as many events as a drain takes, and stays so |
| AuditTailLoop.PollKeepsUncutComplete | packages/cli/src/commands/audit-tail.ts:184-204 | a drain that is not cut writes everything no older than what was written before it, even after cut ones |
| AuditTailLoop.RunAuditTail | packages/cli/src/commands/audit-tail.ts:153-211 | over a whole run: every event once, in time order, at its first drain or never, each uncut drain complete, a cut only beyond 10,000 events, a failure only on a blank event id, and over snapshots the lines written are the request's chain |
| AuditTailLoop.FlagNamesItsRequestExactly | packages/backend/src/routes/audit.ts:145-151 | the tail is about the events of the request named if and only if the flag has no surrounding white space, and about all events if it is blank |
| AuditTailLoop.TailWithMisreadFlag | packages/backend/src/routes/audit.ts:187 | for every other flag there is a log on which the tail writes an event that is not of the request named |
| Text.TrimIsExact | packages/backend/src/routes/audit.ts:145-151 | trimming leaves exactly the texts alone that neither start nor end in white space, and empties the blank ones |
| Text.TrimTakesBlanks | packages/backend/src/routes/audit.ts:145-151 | trimming takes nothing but white space off the two ends |
| AuditTailAppends.SerialisedLogSuitsTail | packages/backend/src/audit/service.ts:117-174 | the log that serialised appends with non-decreasing times leave has the unique ids, time order and sequence numbers the tail relies on |
| AuditTailAppends.TailAppends | packages/cli/src/commands/audit-tail.ts:153-211 | from append steps to output: without blank event ids the tail does not fail, up to 10,000 events of the request every drain is complete, and when no drain sees the log change the lines written are the chain the appends built |
| AuditCsv.FieldIsRead | packages/backend/src/audit/export.ts:61-75 | a field of any content, escaped and followed by a delimiter, is read back as written by the reader of section 2 of RFC 4180 |
| AuditCsv.CsvRoundTrip | packages/backend/src/audit/export.ts:77-99 | reading the CSV export gives back the header and one line of seven fields for every event, in order |
| AuditCsv.ExportIsTable | packages/backend/src/audit/export.ts:77-99 | in the table read back, the header is the one promised, and under "id", "eventType", "actor", "occurredAt", "sequence", "hash" and "prevHash" stands that field of the k-th event |
| AuditCsv.ExportAuditEvents | packages/backend/src/audit/export.ts:114-155 | the CSV export of a request is the table of its chain, line by line and heading by heading, with the last event's hash as root |
| AuditCsv.QuotedExactly | packages/backend/src/audit/export.ts:61-75 | a field is left as it is if and only if it holds no comma, quote or line break |
| AuditCsv.ColumnsDetermineEvent | packages/backend/src/audit/export.ts:77-88 | equal rows mean equal events, except that an absent and an empty previous hash look the same |
| ChatLocks.LockRepository.AcquireLock | packages/backend/src/testing/minimal-persistence.ts:492-522 | grants the lock if and only if the thread has none or an expired one, and then stores the given record |
| ChatLocks.LockRepository.ExtendLock | packages/backend/src/testing/minimal-persistence.ts:529-555 | removes an expired lock, refuses a foreign token, and otherwise moves the expiry |
| ChatLocks.LockRepository.ReleaseLock | packages/backend/src/testing/minimal-persistence.ts:564-575 | removes the lock if and only if the token is the stored one |
| ChatLocks.AdapterAcquireLock | packages/core/src/chat.ts:189-213 | grants exactly when the thread has no unexpired lock; the lock and the stored record expire at the adapter's time plus the time to live, a millisecond at least, or at once without one |
| ChatLocks.AdapterExtendLock | packages/core/src/chat.ts:255-270 | extends a lock held under its token to the adapter's time plus the time to live, a millisecond at least, or without one to the expiry the lock object carries |
| ChatLocks.AdapterReleaseLock | packages/core/src/chat.ts:302-314 | releases the thread of the lock object under its token, and nothing else |
| ChatLocks.StepKeepsLocks | packages/backend/src/testing/minimal-persistence.ts:492-575 | every acquire, extend and release keeps holders and live stored locks in one-to-one correspondence |
| ChatLocks.MutualExclusion | packages/backend/src/testing/minimal-persistence.ts:492-575 | in every run at most one client per thread holds an unexpired, unreleased lock, and the store holds the record it believes in |
| ChatLocks.AcquireFailsOnlyWhenHeld | packages/backend/src/testing/minimal-persistence.ts:501-521 | in every reachable state an acquire fails if and only if somebody holds the lock then, so it succeeds at or after expiry |
| ChatLocks.StaleTokenIsHarmless | packages/backend/src/testing/minimal-persistence.ts:548-574 | a client with an old token neither extends nor releases a later holder's lock, while the holder's own extension is granted |
| ChatLocks.ReleaseFreesThread | packages/backend/src/testing/minimal-persistence.ts:564-575 | after the holder releases, the thread is free at once |
| ChatLocks.LockLasts | packages/core/src/chat.ts:41-47 | in every run, until the time asked for is over on the repository's clock, every other acquisition of the thread fails, unless the holder releases the lock or extends it to an earlier end |
| ClaimLeases.AttemptRepository.ClaimDue | packages/backend/src/testing/minimal-persistence.ts:677-719 | succeeds if and only if the id has a due attempt without a running lease, and leases the first one |
| ClaimLeases.AttemptRepository.ListDue | packages/backend/src/testing/minimal-persistence.ts:762-796 | returns the first due attempts on the channel in stored order, all of them below the bounded limit |
| ClaimLeases.AttemptRepository.ListDueTenantIds | packages/backend/src/testing/minimal-persistence.ts:797-816 | returns exactly the tenants with a claimable attempt, sorted, each once |
| ClaimLeases.AttemptRepository.Update | packages/backend/src/testing/minimal-persistence.ts:817-845 | changes the fields given of the first attempt with the id, where null clears the error or a time, keeps all others, and fails exactly without such an attempt |
| ClaimLeases.ClaimableIsDue | packages/backend/src/testing/minimal-persistence.ts:762-796 | claiming succeeds exactly on the members of the unfiltered, unlimited due list |
| ClaimLeases.LeaseStays | packages/backend/src/testing/minimal-persistence.ts:695-700 | a running lease survives any number of other claims and appends |
| ClaimLeases.LeasesNeverOverlap | packages/backend/src/testing/minimal-persistence.ts:677-719 | of two successful claims of one attempt with no update in between, the first lease has run out when the second is granted |
| SigningKeys.WebhookEndpoints.EnsureConfigured | packages/backend/src/testing/minimal-persistence.ts:1084-1150 | stores the endpoint under its first creation time and returns it with its primary key, adding one, named after the endpoint if need be, only when there is none; a key id the tenant already uses changes nothing |
| SigningKeys.WebhookEndpoints.RotateSigningKey | packages/backend/src/testing/minimal-persistence.ts:1225-1296 | fails on an unknown endpoint or a used key id without a trace; otherwise demotes the primary, appends the new key and returns both with the endpoint and its active keys |
| SigningKeys.PreviousPrimaryIsLast | packages/backend/src/testing/minimal-persistence.ts:1257-1276 | the key reported as demoted is the endpoint's last primary, now secondary and expiring with the grace period; none is reported when there was none |
| SigningKeys.WebhookEndpoints.ListActiveKeys | packages/backend/src/testing/minimal-persistence.ts:1163-1177 | returns exactly the endpoint's unexpired keys, the primary first, then newer before older, then by id |
| SigningKeys.RotationServesBothKeys | packages/backend/src/testing/minimal-persistence.ts:1279-1295 | after a rotation the new key leads the active keys as the only primary, and the old one is among them if and only if the grace period outlasts the rotation |
| SigningKeys.WebhookEndpoints.RollbackSigningKeyRotation | packages/backend/src/testing/minimal-persistence.ts:1178-1224 | the search, filter and map over the stored keys: removes the named key if it still is the endpoint's primary and only then promotes the given previous key in its place, without an expiry |
| SigningKeys.StaleRollbackChangesNothing | packages/backend/src/testing/minimal-persistence.ts:1184-1207 | a rollback whose key is not the endpoint's primary, or is gone, changes nothing |
| SigningKeys.RollbackWithoutPrevious | packages/backend/src/testing/minimal-persistence.ts:1184-1210 | a rollback that names no previous primary removes the new key and does nothing else |
| SigningKeys.RollbackPromotes | packages/backend/src/testing/minimal-persistence.ts:1200-1223 | a rollback that removes its key puts the given previous primary, without an expiry, in the place of the endpoint's key of that id, and leaves all other keys |
| SigningKeys.RollbackUndoesRotation | packages/backend/src/testing/minimal-persistence.ts:1200-1223 | rolling a rotation back restores the key list, in order and in every field |
| SigningKeyRuns.NestedRotationsUnwind | packages/backend/src/testing/minimal-persistence.ts:1178-1296 | undoing any nested series of rotations, over any endpoints, in reverse order restores the key list |
| SigningKeyRuns.RunKeepsKeys | packages/backend/src/testing/minimal-persistence.ts:1084-1296 | in every run the newest key of each endpoint is its only primary, and the key a rotation demoted lies right beneath the key it made |
| SigningKeyRuns.EveryEndpointHasOnePrimary | packages/backend/src/testing/minimal-persistence.ts:1084-1296 | whatever rotations and rollbacks are run, in whatever order, every configured endpoint has exactly one primary and key ids stay unique per tenant, when endpoints have distinct stored keys |
| SigningKeyRuns.CollisionLosesPrimary | packages/backend/src/testing/minimal-persistence.ts:19 | any two endpoints whose tenant and id join to the same text admit a run that leaves one configured without a primary |
| SigningKeyRuns.OnePrimaryExactlyWithoutCollision | packages/backend/src/testing/minimal-persistence.ts:1084-1296 | every run over a set of endpoints keeps one primary each if and only if no two of them join to the same text |
| SigningKeyRuns.ReusedKeyIdLosesPrimary | packages/backend/src/testing/minimal-persistence.ts:1178-1254 | a run that rotates a rolled-back key id in again and replays its first rollback leaves the endpoint without a primary |
| RateLimit.MemoryStore.ConsumeOne | packages/backend/src/rate-limit.ts:135-165 | opens a window where none runs, and otherwise allows and counts the request exactly while the window has room; answers with what is left and when the window ends; leaves every other key alone |
| RateLimit.IntervalBound | packages/backend/src/rate-limit.ts:132-167 | any half-open interval of length L holds at most limit × (⌈L/W⌉ + 1) allowed requests of a key, other keys' traffic notwithstanding |
| RateLimit.RequestSpendsBudget | packages/backend/src/rate-limit.ts:135-165 | what a request is allowed is taken from what can still be allowed before a given time |
| RateLimit.RejectionMeansFullWindow | packages/backend/src/rate-limit.ts:150-157 | a request is rejected only inside a window in which exactly limit requests were allowed, and is told the limit, that nothing remains and when that window ends |
| RateLimit.RetryIsLeastWait | packages/backend/src/rate-limit.ts:215-218 | the seconds a rejected client is told to wait are the least whole number that reaches the end of the window |
| RateLimit.WaitingSuffices | packages/backend/src/rate-limit.ts:215-218 | a client that waits as long as told is allowed then, if nobody used the key in between |
| RateLimit.RemainderIsWhatIsLeft | packages/backend/src/rate-limit.ts:137-164 | an allowed request is told its window's end and exactly the allowance that is left in it after all requests allowed so far |
| RateLimit.NormalizedIsPositive | packages/backend/src/rate-limit.ts:109-115 | the normalised value is the input rounded down if it is positive and the fallback otherwise; it is positive if and only if the input is not a fraction between zero and one |
| RateLimit.LimitBelowOneStillAllows | packages/backend/src/rate-limit.ts:137-149 | with a limit below one a single request already exceeds the interval bound |
| RateLimit.BoundHoldsExactly | packages/backend/src/rate-limit.ts:132-167 | for any positive window, the interval bound holds on every trace if and only if the limit is positive |
| RateLimit.WindowBelowOneNeverRejects | packages/backend/src/rate-limit.ts:137-149 | with a window below one no request is ever rejected |
| RedisRateLimit.RedisStore.Eval | packages/redis/src/adapter.ts:11-39 | the commands of the script, run one after the other, have the effect and the reply of the script function |
| RedisRateLimit.PrefixedKeyInjective | packages/redis/src/adapter.ts:41-47 | distinct limiter keys stay distinct under any prefix |
| RedisRateLimit.PrefixedKeyText | packages/redis/src/adapter.ts:41-47 | the stored key is the prefix without the colons at its end, one colon and the key; the key alone under an empty prefix |
| RedisRateLimit.ScriptRepairs | packages/redis/src/adapter.ts:26-38 | a counter found without an expiry is given one, counted and answered for as if its window had just begun |
| RedisRateLimit.RequestKeepsAgreement | packages/redis/src/adapter.ts:11-85 | from agreeing stores, one request gets the same answer from both unless the server refuses its window, runs no repair and leaves them agreeing |
| RedisRateLimit.ScriptRefinesMemoryStore | packages/upstash/src/adapter.ts:11-85 | on every trace in time order the parsed script reply equals the memory store's if and only if the request does not open a window that is not positive, and the branch for a missing expiry never runs |
| LifecycleRules.BuildAllowedActions | packages/backend/src/lifecycle/state-machine.ts:106-123 | the nested loops fill each status's bucket with its allowed actions in declared order |
| LifecycleRules.AllowedIsApplicable | packages/backend/src/lifecycle/state-machine.ts:133-209 | an action is offered for a status if and only if applying it with a rationale succeeds, unknown statuses included |
| LifecycleRules.TransitionsFollowDiagram | packages/backend/src/lifecycle/state-machine.ts:44-70 | a transition goes through if and only if it is one of fourteen edges and is explained where it has to be, and of several faults the unknown status, then the missing rationale, is reported |
| LifecycleRules.ActionsByStatus | packages/backend/src/lifecycle/state-machine.ts:106-140 | the actions offered for each status, in declared order, and none for an unknown one |
| LifecycleRules.TransitionReplays | packages/backend/src/lifecycle/clock.ts:60-97 | replaying the event type of an applied transition gives its new status, although approving and rejecting share one type |
| LifecycleRules.LegalCounts | packages/backend/src/lifecycle/state-machine.ts:44-70 | the invariant that ties the current status to how often each event has occurred |
| LifecycleRules.FirstTransitionIsVerification | packages/backend/src/lifecycle/state-machine.ts:44-55 | the first transition in any legal timeline asks for verification |
| LifecycleRules.NothingAfterClose | packages/backend/src/lifecycle/state-machine.ts:44-55 | no transition follows a close |
| ClockSegments.DedupeClockSegments | packages/backend/src/lifecycle/clock.ts:116-164 | the loop over set and list computes the specification's pending segments |
| ClockSegments.DedupeIsExact | packages/backend/src/lifecycle/clock.ts:129-163 | pending segments have new and pairwise different signatures, and with the stored ones cover exactly the signatures computed |
| ClockSegments.DedupeKeepsOrder | packages/backend/src/lifecycle/clock.ts:129-163 | pending segments are computed ones in their order, each the first of its signature and unchanged but for its request |
| ClockSegments.SignatureText | packages/backend/src/lifecycle/clock.ts:99-105 | a signature is start, end, reason, the flag as `true` or `false` and policy version, a separator between any two |
| ClockSegments.SignatureIdentifiesExactly | packages/backend/src/lifecycle/clock.ts:99-105 | a signature is shared with no different segment if and only if the segment's texts delimit themselves |
| ClockSegments.DedupeCoversSegment | packages/backend/src/lifecycle/clock.ts:129-163 | every computed segment that delimits itself is stored afterwards, as it was before or as pending |
| ClockSegments.StoredOnce | packages/backend/src/lifecycle/clock.ts:129-163 | once they are stored, the same computation has nothing left to store |
| LifecycleService.RequestService.Capture | packages/backend/src/lifecycle/service.ts:80-233 | scan for the key, create, append, compute and store segments, set the due date: the whole store afterwards |
| LifecycleService.RequestService.Transition | packages/backend/src/lifecycle/service.ts:290-416 | the whole store afterwards; a used key or any failure leaves it untouched, and a success uses the key up |
| LifecycleService.RequestService.SubmitAppeal | packages/backend/src/routes/requests.ts:1910-2011 | adds the appeal and its records unless the stored decision rules appeals out |
| LifecycleService.RequestService.DecideAppeal | packages/backend/src/routes/requests.ts:2043-2173 | fails on a missing appeal or a closed request; otherwise records the verdict, and an approval of a refused request goes through a transition under the appeal's one key |
| LifecycleGuards.TransitionFailsExactly | packages/backend/src/lifecycle/service.ts:290-330 | under a fresh key a transition succeeds if and only if the request exists, the policy decision does not forbid a refusal, the table allows the action and a rationale is given where one is needed; a failure changes nothing |
| LifecycleGuards.TransitionFollowsEdge | packages/backend/src/lifecycle/service.ts:313-416 | a transition that succeeds follows one edge of the diagram: it appends that edge's event and an audit entry, stores the segments the clock adds, sets the new status and the clock's due date, and answers with them |
| LifecycleGuards.SpentKeyChangesNothing | packages/backend/src/lifecycle/service.ts:297-312 | under a used key nothing changes and the request is answered as it is |
| LifecycleGuards.CaptureAnswers | packages/backend/src/lifecycle/service.ts:80-113 | a capture fails exactly without a received time, and under a used key answers with the first request captured under it and changes nothing |
| LifecycleGuards.CaptureStoresRequest | packages/backend/src/lifecycle/service.ts:138-233 | any other capture adds one captured request with the given key, decision and the clock's due date, its event, audit entry and segments |
| LifecycleGuards.SubmittedAppeal | packages/backend/src/routes/requests.ts:1910-2011 | an appeal is refused exactly on a missing request or one whose decision rules appeals out; otherwise it is the request's last one, undecided |
| LifecycleGuards.DecisionFailsExactly | packages/backend/src/routes/requests.ts:2057-2080 | deciding an appeal fails exactly on a missing request, a missing appeal or a closed request, and then changes nothing |
| LifecycleGuards.DecisionIsRecorded | packages/backend/src/routes/requests.ts:2081-2150 | the named appeal carries the verdict; a reopening, with its event, audit entry, segments and due date, is recorded first if the decision reopens the request |
| LifecycleGuards.StatusChangesExactly | packages/backend/src/routes/requests.ts:2088-2115 | a successful decision changes a status if and only if it approves, the request is refused and the appeal's key is unused, and leaves every other request as it is |
| LifecycleRuns.RunKeepsStore | packages/backend/src/lifecycle/service.ts:80-416 | the invariant over all runs: unique ids, status in step with timeline, linked audit entries, keys used once, segments stored once |
| LifecycleRuns.StatusIsReplay | packages/backend/src/lifecycle/service.ts:313-393 | in every run, whatever the clock computes, the stored status is the replay of the request's event types, and its lifecycle audit entries link after-status to before-status up to now |
| LifecycleRuns.IneligibleIsNeverRefused | packages/backend/src/lifecycle/policy.ts:117-136 | in every run, a request whose policy decision makes it ineligible for refusal is not refused and has no refusal in its timeline |
| LifecycleRepeats.RunGrows | packages/backend/src/lifecycle/service.ts:80-416 | in every run events are only added, and requests keep their place, id, capture key and policy decision |
| LifecycleRuns.KeysAreUsedOnce | packages/backend/src/lifecycle/service.ts:297-312 | a non-empty idempotency key labels at most one event of a timeline and at most one captured request |
| LifecycleRepeats.RepeatedKeyChangesNothing | packages/backend/src/lifecycle/service.ts:297-312 | once a transition under a key has succeeded, after any further steps a call with that key, for whatever action, changes nothing and is answered with the request as it is |
| LifecycleRepeats.RepeatedCaptureChangesNothing | packages/backend/src/lifecycle/service.ts:97-113 | once a capture under a key has succeeded, after any further steps a capture with that key changes nothing and is answered with the first request as it is |
| LifecycleRuns.SegmentsAreStoredOnce | packages/backend/src/lifecycle/service.ts:342-361 | no request ever stores two clock segments with one signature |
| LifecycleRepeats.ApprovalReopensOnce | packages/backend/src/routes/requests.ts:2088-2115 | approving an appeal reopens a refused request if and only if this appeal's key has not been used |
| LifecycleRepeats.SecondApprovalReopensNothing | packages/backend/src/routes/requests.ts:2105-2115 | after any steps in between, a second approval of the same appeal leaves a refused request refused |
| LifecycleRepeats.ApprovedTwiceStaysRefused | packages/backend/src/routes/requests.ts:2043-2173 | such a run exists for every clock and all ids: refused, appealed, approved, refused, approved, and refused in the end |
| LifecycleRepeats.SpentKeyStaysRefused | packages/backend/src/lifecycle/service.ts:297-312 | so does one in which a caller refuses under the appeal's own key and the first approval reopens nothing |
| LifecycleRuns.CountsInEveryRun | packages/backend/src/lifecycle/service.ts:290-416 | in every run: verification first, fulfilled and closed at most once, nothing after the close, refused at most once more than overturned, overturned at most once per appeal |
| JsonSerializable.ValidateJsonSerializable | packages/core/src/chat.ts:55-141 | the walk over the heap terminates, cycles included, computes the specified verdict, and leaves the path set as it found it on normal return |
| JsonSerializable.PassedWalksAreClean | packages/core/src/chat.ts:107-141 | in an accepted value every walk stays on writable values and never meets an object it has passed |
| JsonSerializable.FailureIsExplained | packages/core/src/chat.ts:49-141 | the path of a failure leads to a value that really is unwritable or already on the way to it |
| JsonSerializable.AcceptsExactlySerializable | packages/core/src/chat.ts:55-141 | a value is accepted if and only if no cycle and no unwritable value is reachable from it, without looking inside objects that have a toJSON; shared references are accepted |
| JsonSerializable.CheckedForJson | packages/core/src/chat.ts:143-144 | the check as it is started decides exactly that, and explains every failure by a walk |
| DeclarationImports.ListImports | scripts/check-publish-artifacts.ts:172-208 | terminates on every import graph; fails if and only if a reachable file is missing, and otherwise returns exactly the non-node packages imported by reachable files |
| DeclarationImports.PackageNameIsExact | scripts/check-publish-artifacts.ts:163-166 | a package name is the first segment of its specifier, or the first two under a scope |
| DeclarationImports.VisitKeepsExploring | scripts/check-publish-artifacts.ts:179-206 | visiting a file keeps pending files reachable and the imports of visited files known |

## Left out

- Hashing itself: SHA-256, hex and UTF-8 encoding are replaced by a function passed in; the short hash in a
  clock segment's id is not modelled.
- Text details: strings are sequences of Unicode scalars, so lone surrogates, UTF-16 key order and the special order of
  integer-like object keys are not captured; number printing is represented by its result.
- Fractions: millisecond amounts, list limits and offsets are whole numbers, so truncating a fraction is modelled only
  in `NormalizePositiveInteger`.
- The audit store's tenants: one tenant's log is modelled. Of the HTTP route of the tail, the trimming of the request id
  and the rejection of blank cursor ids are modelled; base64url, the parsing of parameters, authorisation and the
  projection of records are left out.
- AuditLog.AppendAuditEvent: run without interference; interference between its read and its write is the subject of
  `EveryChainVerifies` and of the theorems of `AuditRaces`. A digest that cannot be computed is not modelled: there the
  code fails, although the comment at packages/backend/src/audit/service.ts:95-96 promises a hash of
  `sha256_unavailable`.
- AuditTailLoop.RunAuditTail: sleeping, aborting and line formatting are left out; an abort ends a run after fewer
  polls.
- AuditExport.ExportTenantWide: the JSON-lines form is left out, and so are the members of an exported event that are
  not among the seven CSV columns.
- ChatLocks.MutualExclusion: forced release is left out, as it breaks exclusion by design; so are lists, queues and
  key/value state. Acquisition times are not stored. An expiry that does not parse is an absent one.
- ClaimLeases.AttemptRepository.Update: the fields an update cannot name and no operation reads, such as the
  notification event and the creation time, are not part of an attempt.
- RedisRateLimit.ScriptRefinesMemoryStore: server and caller read the same clock; replies are integers, so numbers that
  arrive as text are left out, and an expired key is gone from the very millisecond of its expiry. That the
  server refuses to set a key with an expiry time that is not positive, and deletes one expired so, is Redis's rule.
- ClockSegments.DedupeClockSegments: the generated id of a segment is left out.
- LifecycleService.RequestService.Capture: payload parsing, the received time in the answer, due-date arithmetic before
  the clock runs, notifications and AI metadata are left out; the new id is assumed unused.
- LifecycleRuns.CountsInEveryRun: assumes that no route but the appeal decision offers the overturning action. Timeline
  events of other routes are steps that add an event of any other type, without an idempotency key.
- JsonSerializable.CheckedForJson: the writing and reading of the text after the check is left out; paths are entry
  positions instead of rendered text.
- DeclarationImports.ListImports: the two import patterns and path resolution are inputs: a file is given by its bare
  specifiers and by the files its relative imports resolve to.
- Failures between the persistence steps of one service call, and concurrent calls on one request.
- HTTP, authorisation, Effect layers, SQL repositories, storage and messaging adapters, policy packs, widgets and
  release scripts other than the import walk: no state of their own worth a proof.
