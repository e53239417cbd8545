# Verified core of snaplink audit governance

A Dafny model of the parts of the audit governance service that its guarantees rest on, with
proofs of what those parts promise. `dafny verify dfyconfig.toml` checks the whole project.

A Go string or byte slice is a `string` whose characters stand for bytes. Errors are `None` or
an answer that carries no text. Clocks, fetches, disks, buckets and other callers are
nondeterministic: a value chosen freely, a function the caller may choose freely, or the
actions of a step system in any order.

| component | files | main results |
|---|---|---|
| JWKS key cache | `JwksModel`, `JwksCache`, `JwksFlight` | sequential class: the stored set is the last one fetched, fetch rate over whole runs, three-interval staleness, negative cache; concurrent step system: single flight, one outcome per flight, what every request gets in terms of the run's fetches |
| Canonical JSON | `Decimal`, `Number`, `CanonicalNumber`, `JsonText`, `Utf8`, `JsonGrammar`, `CanonicalJson`, `CanonicalReading`, `CanonicalWriter`, `CanonicalUnique`, `CanonicalEquality`, `CanonicalTwins`, `EventDigest`, `EventReading`, `EventTwins` | the bytes are a JSON text by the grammar of RFC 8259 with one reading, the value's; equal bytes iff equal JSON values, and exactly when that fails; exact decimals; the event preimage is exactly the content, each field under its own name |
| Event copy | `CloneGraph`, `ClonePaths`, `CloneEvent` | termination on every finite graph, exact success condition, same tree, nothing shared |
| Archives | `FileStore`, `S3Store` | write-once under any interleaving, no failure without a failed call, and the exact outcome of an undisturbed call (files); read-back and the exact condition for write-once (S3) |
| Atomic replacement | `CrashDisk`, `AtomicFile` | old or new content at every crash point, durable on success, exact success condition |
| Keys and streams | `KeyFraming`, `ArchiveKey`, `StreamName` | round trip, injectivity, containment, lengths, order |
| Reconciler | `Reconciler` | fairness over a changing catalogue, pages in order |
| Batch write | `WriteBatch` | exact reply shape for every failure position |

## Where code and documentation differ

The model follows the code. These statements of the repository are not true of it as they
stand, and the named lemmas say what is.

- Canonical bytes do not always identify a value: every byte that is not part of a valid
  character is written as the same escape. They do iff every text is valid UTF-8 and no map key
  can be exchanged for another that reads alike and sorts into the same place
  (`CanonicalTwins.CanonicalExactIff`, `EventTwins.PreimageExactIff`, with the colliding inputs in
  `CanonicalTwins.ValueTwin` and `EventTwins.InexactShares`).
- S3 `Put` does not keep the first content when two Puts of different data are both between
  Stat and upload, or one of them has uploaded inside the other's window:
  `S3Store.OverlapLoses`, `S3Store.OverlapReachable` and `S3Store.LandedReachable`, with
  `S3Store.WriteOnceIffWindowsAgree` for the exact condition.
- `CloneEvent` refuses some acyclic values: a slice whose element is a shorter slice of the same
  array and type (`ClonePaths.OwnPrefixRefused`). `ClonePaths.ClonableIffNoFailingPath` is the
  exact condition.
- The 64-bit grace test differs from the unbounded one exactly when age > 3·ttl > the largest
  duration (`JwksModel.GraceDiffers`).
- Repeated misses of one kid can cause a fetch within the interval: a record of a missing kid is
  never renewed, so one that has run out leaves the kid off record when it is reported missing
  again (`JwksModel.StaleRecordSpends`; exact condition `JwksModel.RecordHoldsIff`).
- The probe for the deepest existing directory can compromise durability: a directory made by a
  call whose sync of the parent failed exists at the next call, which does not sync that parent
  and succeeds (`AtomicFile.RetryLoses`; exact condition `AtomicFile.ChainCommitsIff`).
- The outage cooldown does not always outlast an interval: a panicked leader that has released
  the slot but not yet cleared wipes the failure of a later flight
  (`JwksFlight.PanicWipesFailure`; exact condition `JwksFlight.CooldownLostIff`).
- `DecodeKeyComponent` also accepts strings the encoder never emits
  (`KeyFraming.DecodesOutsideImage`; exactly which ones it emits: `KeyFraming.EmittedIff`).
- Identifiers of at most 85 bytes do not always give an archivable event key: the file name adds
  26 bytes to the event id and the stream name joins up to three identifiers
  (`StreamName.LongEventIdRejected`, `StreamName.LongStreamExists`; exact conditions
  `ArchiveKey.EventKeyFitsIff`, `StreamName.ArchivableIff`).

## Model

| member | source | states |
|---|---|---|
| `JwksModel.UniqueKey` | internal/auth/verifier.go:618-642 | the search answers missing, ambiguous or found exactly by how often the kid occurs, and a found key is the only one with that kid |
| `JwksModel.GraceExact` | internal/auth/verifier.go:599-616 | the saturating 64-bit test is age ≤ 3·ttl, except that a limit past the largest duration admits every age |
| `JwksModel.GraceDiffers` | internal/auth/verifier.go:599-616 | the two tests differ iff age > 3·ttl > the largest duration, with an input where they do |
| `JwksModel.NegateKeeps` | internal/auth/verifier.go:552-566 | the queue stays duplicate-free, lists exactly the map's keys, holds at most 256 kids of at most 64 bytes, and gains at most the given kid |
| `JwksModel.NegateFifo` | internal/auth/verifier.go:552-566 | a new kid goes last, only a full queue loses its head, and no other expiry changes |
| `JwksModel.RecordHoldsIff` | internal/auth/verifier.go:548-566 | a kid reported missing is on record for a whole interval iff it had no record before: a record is never renewed |
| `JwksModel.StaleRecordSpends` | internal/auth/verifier.go:73-81 | a run in which a kid reported missing spends the budget one tick later, because its old record was not renewed |
| `JwksModel.TwoApartCount` | internal/auth/verifier.go:365-428 | fetches of which any three span an interval number at most 2·(⌊W/ttl⌋+1) in any window of length W |
| `JwksCache.JwksEntry.Fetch` | internal/auth/verifier.go:384-410 | a fetch is logged with the moment it is sent and with what it returned, an unforced one an interval after every earlier fetch, and any three fetches still span an interval |
| `JwksCache.JwksEntry.Spend` | internal/auth/verifier.go:518-519 | a budget stamp is an interval after the last, later than every fetch and an interval later than the last but one |
| `JwksCache.JwksEntry.FinishFetch` | internal/auth/verifier.go:458-474 | what the last fetch returned is booked as what it was: only success changes the set and its stamp and ends the cooldown, a failure only starts it, the forced budget is untouched |
| `JwksCache.JwksEntry.CachedJWKS` | internal/auth/verifier.go:365-428 | a call whose own fetch succeeds stores exactly that set and returns it, and one without leaves set and stamp as they were; the stored set is returned iff at most three intervals old; a set past one interval is served only when a fetch failed within the last interval; nothing is sent during a cooldown or, unless forced, for a fresh set; at most one fetch is sent; the budget is untouched |
| `JwksCache.JwksEntry.BudgetExhausted` | internal/auth/verifier.go:503-516 | a kid the set holds once is served and one it holds several times is unknown, neither recorded; a kid the set lacks is unknown and on record, until an interval from now if it had no record and until its old record ends otherwise |
| `JwksCache.JwksEntry.ForcedRefresh` | internal/auth/verifier.go:518-534 | after the budget is spent a fetch is sent unless one failed within the last interval, and the answer agrees with the refreshed set; only a kid that set lacks is recorded |
| `JwksCache.JwksEntry.RefreshForMissingKid` | internal/auth/verifier.go:486-534 | a kid on record as missing is rejected with nothing fetched, spent or recorded; with an open budget a kid on no record is called unknown only after a fetch, unless one has just failed; otherwise the answer agrees with the stored set, an unknown kid is on record exactly until its old record ends or else until an interval from now, no other answer records, and the budget is spent only on a kid that a stored set lacks |
| `JwksCache.JwksEntry.ResolveMiss` | internal/auth/verifier.go:306-323 | an empty cache is primed first, so the budget is spent only on a kid that a stored set lacks; the answer agrees with the stored set; a kid that is ambiguous in the primed set spends no budget |
| `JwksCache.JwksEntry.ServeRefreshed` | internal/auth/verifier.go:330-351 | a set past one interval is refreshed unless a fetch failed, and a set that dropped the kid falls through to the gated path; a refusal means the one key is unfit; a kid that is ambiguous in the refreshed set spends no budget |
| `JwksCache.JwksEntry.RemoteVerificationKey` | internal/auth/verifier.go:281-352 | every answer agrees with the stored set, the last one fetched: a kid occurring once is served or unfit whatever the negative cache says, a served key is from a set at most three intervals old, and from one past an interval only when a fetch failed, a fresh hit and an ambiguous kid touch nothing, a kid on no record is unknown only after a fetch or with the budget closed, and the budget is only ever spent on a kid that a stored set lacks at that moment |
| `JwksCache.FetchBound` | internal/auth/verifier.go:365-428 | any window of length W sees at most 2·(⌊W/ttl⌋+1) fetches sent |
| `JwksCache.Serve` | internal/auth/verifier.go:281-352 | for every run of requests, with any number of unknown kids, the stored set is the last one a fetch returned, the bound on fetches sent holds in every window, no ambiguous kid spent the budget, and only requested kids of at most 64 bytes are ever recorded |
| `JwksFlight.StepKeeps` | internal/auth/verifier.go:365-484 | the invariant of slot, outcomes and threads survives every step, failing and panicking fetches included |
| `JwksFlight.RunKeeps` | internal/auth/verifier.go:365-484 | it holds after every run |
| `JwksFlight.SingleFlight` | internal/auth/verifier.go:443-456 | in every interleaving at most one thread is fetching |
| `JwksFlight.SlotHeldIffFlying` | internal/auth/verifier.go:443-474 | the slot is held iff some thread is fetching |
| `JwksFlight.SlotReleased` | internal/auth/verifier.go:386-410 | in every run, with anything interleaved, a flight is published and out of the slot iff its leader has taken its due one or two steps |
| `JwksFlight.LeaderEnabled` | internal/auth/verifier.go:386-410 | the holder of the slot is never blocked: its fetch may give anything or panic, and finishing is always enabled |
| `JwksFlight.WaiterNotStranded` | internal/auth/verifier.go:411-421 | a joiner can go on, or the leader of its flight is still at work |
| `JwksFlight.StoredSetChanges` | internal/auth/verifier.go:455-474 | the stored set or its stamp changes only when a leader finishes a successful fetch, to that fetch's keys |
| `JwksFlight.PublishedForGood` | internal/auth/verifier.go:458-474 | once published, an outcome stands through every later run, closed once |
| `JwksFlight.ClosedOnce` | internal/auth/verifier.go:458-474 | in every run each flight's channel is closed exactly once, and only when the flight has left the slot |
| `JwksFlight.JoinersSeeLeader` | internal/auth/verifier.go:422-428 | in every run leader and joiners of a flight get what its fetch gave, going by the actions: its set, or after a failure the set of the last flight that succeeded if that is at most three intervals old (any age when three intervals pass 64 bits), and otherwise an error |
| `JwksFlight.CheckDecides` | internal/auth/verifier.go:365-385 | in every run a first look gets, less than an interval after the stamped failure, the last set that landed under the same age rule or else an error; otherwise, unless forced, that set if less than an interval old; and otherwise it goes on to fetch |
| `JwksFlight.StoredIsLastLanding` | internal/auth/verifier.go:458-474 | after every run the entry holds the set and stamp of the last flight that landed with a success |
| `JwksFlight.OutcomeIsGiven` | internal/auth/verifier.go:386-410 | an outcome records what the fetch of its flight returned, a panic as a failure |
| `JwksFlight.FailureStamp` | internal/auth/verifier.go:458-484 | a failed landing is stamped, a success or the clearing of a panic wipes the stamp, and nothing else moves it |
| `JwksFlight.RecoveryNotSuppressed` | internal/auth/verifier.go:476-484 | once a panic is cleared, until a flight fails, every later check fetches or finds the set fresh |
| `JwksFlight.CooldownLostIff` | internal/auth/verifier.go:476-484 | the cooldown after a failure can be wiped before another flight lands iff some panicked leader has yet to clear |
| `JwksFlight.PanicWipesFailure` | internal/auth/verifier.go:398-407 | a run in which a panicked leader wipes the cooldown of a later flight that failed in earnest |
| `JwksFlight.StampsBounded` | internal/auth/verifier.go:495-546 | in every interleaving a window of length W holds at most ⌊W/ttl⌋+1 forced-refresh stamps |
| `Decimal.NormalUnique` | internal/domain/canonical.go:130-143 | a number has one normal decimal form |
| `Number.ParseIffSpells` | internal/domain/canonical.go:199-255 | the scanner yields a literal iff the text spells it by the grammar of section 6 of RFC 8259 |
| `Number.ParseJSONNumber` | internal/domain/canonical.go:199-255 | the index loop computes that parse |
| `CanonicalNumber.NormalFormCorrect` | internal/domain/canonical.go:144-197 | the layout has the literal's value and is normal |
| `CanonicalNumber.WriteNumberExact` | internal/domain/canonical.go:144-197 | for every number text: the output denotes exactly its value, and it is refused exactly when exponent or length pass the limits |
| `CanonicalNumber.RejectsNonNumbers` | internal/domain/canonical.go:144-150 | anything outside the grammar is refused |
| `CanonicalNumber.WriteNumberCanonical` | internal/domain/canonical.go:144-197 | two accepted texts give equal bytes iff they are numerically equal |
| `CanonicalNumber.WriteNumberIdempotent` | internal/domain/canonical.go:130-197 | the output is a number without exponent within the limits, is accepted, and comes back unchanged |
| `CanonicalNumber.AppendNumber` | internal/domain/canonical.go:144-197 | the buffer gains exactly that output, or the call fails |
| `JsonText.QuoteCancels` | internal/domain/canonical.go:358-365 | quoted text is self-delimiting: it can be read back in front of any continuation |
| `JsonText.QuoteInjective` | internal/domain/canonical.go:358-365 | a text in valid UTF-8 is quoted differently from every other text |
| `JsonText.QuoteExactIff` | internal/domain/canonical.go:358-365 | a text is told apart from all others iff it is valid UTF-8 |
| `JsonText.SameReadingBytes` | internal/domain/canonical.go:358-365 | a text that reads like a byte string is one, so exchanging texts that read alike never leaves the byte strings |
| `JsonText.Twin` | internal/domain/canonical.go:358-365 | every other text has a different text with the same bytes |
| `Utf8.RuneIffEncoding` | internal/domain/canonical.go:358-365 | the byte ranges of the reader are those of sections 3 and 4 of RFC 3629: it finds a rune iff the encoding of some code point is there, and then that code point |
| `JsonGrammar.ReadingUnique` | internal/domain/canonical.go:21-27 | the whole grammar of RFC 8259, with blanks and every escape, is unambiguous: no text has two readings |
| `CanonicalReading.PrintIsJson` | internal/domain/canonical.go:29-128 | a printed document is a JSON text without blanks and reads as that document and nothing else |
| `CanonicalReading.CanonicalIsJson` | internal/domain/canonical.go:21-128 | the bytes of an accepted value read as the JSON value it stands for, defined on the value alone, and as nothing else; object members are in byte order of their keys |
| `CanonicalReading.PrintHarmless` | internal/domain/canonical.go:358-365 | no printed document holds a raw angle bracket, ampersand or control character |
| `CanonicalUnique.PrintCancels` | internal/domain/canonical.go:29-128 | a printed document can be read back in front of any continuation: equal bytes give equal documents and rests |
| `CanonicalUnique.CanonicalUnambiguous` | internal/domain/canonical.go:21-128 | for all accepted values the bytes are equal iff the documents are |
| `CanonicalWriter.CanonicalJSON` | internal/domain/canonical.go:21-27 | the writer fails exactly on unsupported content, and otherwise returns a compact JSON text that reads as the JSON value of its argument and as nothing else |
| `CanonicalWriter.WriteCanonical` | internal/domain/canonical.go:29-128 | it appends exactly the printed document, and fails exactly on unsupported content |
| `CanonicalWriter.WriteObject` | internal/domain/canonical.go:92-123 | maps and structs are written with their kept members in byte order of the keys |
| `CanonicalEquality.CanonicalIffSame` | internal/domain/canonical.go:21-128 | an accepted value that is exact has the bytes of exactly the accepted values it is equal to, up to key order and numeric equality; exact means every text is valid UTF-8 and every map key is the only one that reads as it does between its neighbours |
| `CanonicalEquality.Utf8IsExact` | internal/domain/canonical.go:21-128 | a value over valid UTF-8, keys included, is exact |
| `CanonicalEquality.StructsSame` | internal/domain/canonical.go:276-314 | two values of one struct type are equal iff each field is equal or left out of both |
| `EventDigest.PreimageIffSameContent` | internal/domain/canonical.go:375-389 | an event with exact content has the preimage of exactly the writable events that agree with it on every non-processing field, up to omitted empties and numeric equality; nothing is asked of the other event |
| `EventDigest.ProcessingFieldsIgnored` | internal/domain/canonical.go:366-389 | the seven processing fields never reach the preimage |
| `EventReading.PreimageReads` | internal/domain/canonical.go:375-389 | the preimage of an event is a compact JSON text and reads as the JSON value of its content only |
| `EventReading.EventMembers` | internal/domain/models.go:75-111 | each of the 35 fields is under its own JSON name, or absent when it may be left out and is empty |
| `EventReading.NoOtherMembers` | internal/domain/models.go:75-111 | an event has no other members |
| `EventReading.ChangeMembers` | internal/domain/models.go:127-130 | before and after are each under their own name, and absent when nil |
| `EventReading.TargetMembers` | internal/domain/models.go:121-125 | type, id and name are each under their own name, an empty name absent |
| `EventReading.ActorMembers` | internal/domain/models.go:113-119 | id, type, name, department and roles are each under their own name, and all but the id absent when empty |
| `EventReading.UnderReads` | internal/domain/canonical.go:276-314 | what a struct or map holds under a name is read under that name |
| `CanonicalTwins.CanonicalExactIff` | internal/domain/canonical.go:21-128 | an accepted value is known by its bytes iff it is exact |
| `CanonicalTwins.ValueTwin` | internal/domain/canonical.go:29-128 | every value that is not exact has the bytes of a different value |
| `CanonicalTwins.KeyTwins` | internal/domain/canonical.go:92-115 | an object with a key that can be exchanged has the bytes of the map in which it is |
| `CanonicalTwins.FixedIff` | internal/domain/canonical.go:100-114 | no single key of a sorted list can be exchanged iff no other sorted list reads alike |
| `EventTwins.PreimageExactIff` | internal/domain/canonical.go:375-389 | an event is known by its preimage iff its content is exact |
| `EventTwins.InexactShares` | internal/domain/canonical.go:375-389 | every event whose content is not exact, for a text anywhere or a key of its changes or payload, shares its preimage with an event of different content |
| `CloneGraph.TreeOfUnfolds` | internal/domain/clone.go:48-168 | a value the copy accepts unfolds to a finite tree |
| `ClonePaths.ClonableIffNoFailingPath` | internal/domain/clone.go:48-186 | the copy succeeds iff no path reaches an unsupported value or re-enters a visit that is still open |
| `ClonePaths.ClonableIffFiniteTree` | internal/domain/clone.go:170-186 | where no two slices share an array, that is iff the value unfolds to a finite tree |
| `ClonePaths.OwnPrefixRefused` | internal/domain/clone.go:108-125 | a slice that holds a prefix of itself is refused although it unfolds to a finite tree |
| `CloneEvent.CloneState.EnterVisit` | internal/domain/clone.go:170-186 | a visit is opened iff it is not open already, and the table gains exactly that entry |
| `CloneEvent.CloneState.Release` | internal/domain/clone.go:179-185 | closing a visit takes back exactly one entry |
| `CloneEvent.CloneState.CloneValue` | internal/domain/clone.go:48-168 | it terminates on every finite graph, succeeds iff the value is clonable, restores the visit table, leaves the source heap as it was, and the copy is a fresh graph with the same tree |
| `CloneEvent.Clone` | internal/domain/clone.go:29-39 | the whole copy: success iff clonable, source unchanged, same tree in fresh cells |
| `CloneEvent.CopySharesNothing` | internal/domain/clone.go:26-39 | no path from the copy leads to any cell of the source |
| `FileStore.StepKeeps` | internal/archive/archive_secure_linux.go:260-348 | every step of any process keeps the invariant, and no visible content changes |
| `FileStore.RunKeeps` | internal/archive/archive_secure_linux.go:260-376 | so does every run |
| `FileStore.WriteOnce` | internal/archive/archive_secure_linux.go:260-331 | in every interleaving all Puts on one key that return nil carried identical bytes, and those bytes are stored |
| `FileStore.SuccessIsForGood` | internal/archive/archive_secure_linux.go:260-331 | after a nil return no later action of any process changes the content |
| `FileStore.GetReturnsWhole` | internal/archive/archive_secure_linux.go:350-376 | a Get that completes returns the whole content, which some Put offered |
| `FileStore.CompareIsExact` | internal/archive/archive_secure_linux.go:232-246 | meeting an existing object, Put returns nil iff it holds the same bytes |
| `FileStore.ConflictIsReal` | internal/archive/archive_secure_linux.go:232-246 | in every run a Put that reported a conflict met other data at its key, which is there still |
| `FileStore.PutsFailOnlyByCalls` | internal/archive/archive_secure_linux.go:260-348 | in every run as many Puts fail as had a system call fail: where none does, every finished Put succeeded or met other data |
| `FileStore.PutAlone` | internal/archive/archive_secure_linux.go:260-348 | from every reachable store, with writes and reads of any size, an undisturbed Put never gets stuck, ends within a bounded number of steps, and is then a success with its data stored iff the key was free or held that data, and otherwise a conflict |
| `FileStore.GetAlone` | internal/archive/archive_secure_linux.go:350-376 | likewise a Get ends with the whole object, or with an error iff there is none, and changes nothing |
| `S3Store.LimitedReadExact` | internal/archive/archive.go:259-269 | reading one byte past the data is enough to decide equality |
| `S3Store.NilWasEqual` | internal/archive/archive.go:271-306 | in every run, foreign writers included, every nil return was read back from an object that equalled the data at that point |
| `S3Store.WritesOnlyAfterAbsence` | internal/archive/archive.go:223-257 | in every run, foreign writers included, a Put changes the bucket only by uploading its data under a key that its last step, a Stat, saw absent |
| `S3Store.UploadSawAbsence` | internal/archive/archive.go:237-256 | in every run a Put about to upload has seen its key absent, in a Stat that was its last step |
| `S3Store.AgreedWriteOnce` | internal/archive/archive.go:223-306 | while overlapping windows agree on the data the first content wins for good |
| `S3Store.SucceededPutsAgree` | internal/archive/archive.go:223-306 | and all Puts that returned nil on a key carried the same data |
| `S3Store.FirstContentWins` | internal/archive/archive.go:223-306 | in every run with one Put at a time the first content stays, Puts of it return nil and Puts of anything else conflict |
| `S3Store.WriteOnceIffWindowsAgree` | internal/archive/archive.go:223-257 | in any state, the Puts under way keep what is stored, however they end, iff those between Stat and upload agree with one another and with what is stored under their keys |
| `S3Store.OverlapLoses` | internal/archive/archive.go:223-306 | wherever two windows overlap both Puts can return nil and the second replaces the first |
| `S3Store.OverlapReachable` | internal/archive/archive.go:223-256 | two Puts that look before either writes reach a state where windows disagree |
| `S3Store.LandedReachable` | internal/archive/archive.go:223-257 | and after one upload a state where none disagree and the other Put still replaces what is stored |
| `S3Store.PutAlone` | internal/archive/archive.go:223-306 | alone, a Put stores under a free key, confirms equal data, and refuses other data or an overlong key |
| `AtomicFile.BuildChain` | internal/fsutil/fsutil.go:60-84 | the sync chain is every directory from the leaf up to the root, and an outside leaf is refused |
| `AtomicFile.FileSystem.DeepestExistingAncestor` | internal/fsutil/fsutil.go:227-237 | the result is an existing prefix of the path, or its root |
| `AtomicFile.FileSystem.OpenDataDir` | internal/fsutil/secure_file_linux.go:19-67 | from any disk: directories made on the way are synced into their parents, those that existed keep their state, and it succeeds iff no call fails, with all of them there |
| `AtomicFile.FileSystem.SyncChain` | internal/fsutil/secure_sync.go:13-63 | it succeeds iff no call fails and the root is above the data directory, and leaves exactly the disk on which every directory from the data directory up to the root has been synced |
| `AtomicFile.ChainCommitsIff` | internal/fsutil/fsutil.go:50-84 | with the new file in place, syncing the chain commits it iff every directory down to the upper end of the chain was settled |
| `AtomicFile.RetryLoses` | internal/fsutil/fsutil.go:218-237 | a directory that an earlier call made without syncing its parent ends the chain of the next call, which succeeds and is not committed; one directory further up it would be |
| `AtomicFile.FileSystem.Replace` | internal/fsutil/secure_file.go:102-152 | from an open data directory: it succeeds iff no call fails or writes short, the name is a plain one, the mode is owner-only and there is no temporary file; refused, it changes nothing; no new crash outcome but the new content, and on success the new content stays iff the directories down to the root of the chain were settled |
| `AtomicFile.FileSystem.AtomicDataFile` | internal/fsutil/secure_file.go:102-152 | on any disk: it succeeds iff no call but a probe fails or writes short, the name is a plain one, the mode is owner-only and there is no .tmp, and then no .tmp is left; refused, it touches neither target nor .tmp; every state passed through gives after a crash what a crash could give before, or the complete new content; on success the new content survives iff the directories down to the root of the chain were settled; from a durable start a crash finds complete old or new and success means new for good; other names are untouched |
| `KeyFraming.EncodeKeyComponent` | internal/fsutil/fsutil.go:141-166 | the byte loop computes the encoding |
| `KeyFraming.DecodeKeyComponent` | internal/fsutil/fsutil.go:189-216 | the scanning loop computes the decoding, with the same refusals |
| `KeyFraming.RoundTrip` | internal/fsutil/fsutil.go:130-216 | decoding undoes encoding for every byte string |
| `KeyFraming.EncodeInjective` | internal/fsutil/fsutil.go:130-166 | encodings are equal iff the components are |
| `KeyFraming.EncodeShape` | internal/fsutil/fsutil.go:116-166 | an encoding is non-empty, never "." or "..", has no slash or backslash, and is at most three times as long |
| `KeyFraming.DecodesIffTokens` | internal/fsutil/fsutil.go:168-216 | decoding succeeds iff the input is the marker or a sequence of safe bytes and two-digit escapes |
| `KeyFraming.DecodesOutsideImage` | internal/fsutil/fsutil.go:180-216 | an escaped safe byte, the empty string and the bare dot components decode and are never emitted |
| `KeyFraming.EmittedIff` | internal/fsutil/fsutil.go:141-166 | a string is emitted iff it is the marker, an escaped dot component, or another non-empty sequence of safe bytes and upper-case escapes of unsafe bytes |
| `ArchiveKey.AcceptedIff` | internal/archive/archive_secure_common.go:38-48 | a key is accepted iff it is relative, keeps something after cleaning and does not begin by climbing |
| `ArchiveKey.AcceptedIsContained` | internal/archive/archive_secure_common.go:35-48 | an accepted key cleans to components none of which is empty, "." or ".." |
| `ArchiveKey.EncodedAccepted` | internal/archive/archive_secure_common.go:38-48 | a non-empty list of encoded components, joined, is accepted unchanged |
| `ArchiveKey.EncodedInjective` | internal/fsutil/fsutil.go:130-166 | distinct component lists give distinct keys |
| `ArchiveKey.ComponentFits` | internal/domain/models.go:23-31 | 85 bytes always encode within the 255-byte component limit |
| `ArchiveKey.EventKeyInjective` | internal/service/archive_fallback.go:64-69 | event keys are equal iff tenant, stream, sequence and event are |
| `ArchiveKey.EventKeyReadsBack` | internal/service/archive_fallback.go:64-69 | tenant, stream, sequence and event can be read back from the key, each at its own place |
| `ArchiveKey.KeysInSequence` | internal/service/archive_fallback.go:64-69 | the keys of a stream are in byte order of their sequences |
| `ArchiveKey.EventKeyContained` | internal/service/archive_fallback.go:64-69 | every event key is accepted unchanged |
| `ArchiveKey.EventKeyFitsIff` | internal/archive/archive_secure_common.go:21-33 | an event key passes the length check iff tenant and stream encode to at most 255 bytes and the event id to at most 229 |
| `StreamName.LongEventIdRejected` | internal/archive/archive_secure_common.go:21-33 | for every length from 77 to 85 some event id that passes the identifier and length rules makes every key too long |
| `ArchiveKey.ShortEventIdFits` | internal/archive/archive_secure_common.go:21-33 | an event id of up to 76 bytes never makes its key too long |
| `StreamName.KeyComponentBytes` | internal/domain/identifiers.go:8-28 | an accepted identifier holds no control, blank or slash byte, whatever else it holds |
| `StreamName.AsciiComponentIff` | internal/domain/identifiers.go:16-28 | on ASCII the rule is exactly that |
| `StreamName.StreamInjective` | internal/domain/models.go:568-579 | validated events share a stream name iff tenant, branch and that branch's components are equal, with colons allowed in operation and source ids |
| `StreamName.ColonCollides` | internal/domain/identifiers.go:30-44 | without the colon rule every aggregate type with an inner colon shares its stream with another aggregate |
| `StreamName.ArchivableIff` | internal/archive/archive_secure_common.go:21-33 | with a valid tenant the event key fits iff stream and event id encode short enough |
| `StreamName.LongStreamExists` | internal/domain/models.go:23-31 | every validated event has a variant, still validated, whose stream name makes its key too long |
| `Reconciler.LedgeredReconciler.Advance` | cmd/audit-api/ledgered_reconcile.go:48-54 | sorting, binary search and wrap-round pick the next tenant in byte order, and it is remembered |
| `Reconciler.LedgeredReconciler.Next` | cmd/audit-api/ledgered_reconcile.go:20-63 | the whole pass, early returns included: a page moves the tenant's cursor, a last page resets it, an error leaves it; afterwards cursors belong to current tenants only |
| `Reconciler.Run` | cmd/audit-api/ledgered_reconcile.go:20-63 | the tenants that a run of passes leaves behind, pass by pass, are those the turn rule names, and cursors belong to tenants of the last catalogue |
| `Reconciler.TurnNearer` | cmd/audit-api/ledgered_reconcile.go:48-54 | every turn that is not yet a tenant's own brings that tenant strictly nearer, whoever comes and goes |
| `Reconciler.Fair` | cmd/audit-api/ledgered_reconcile.go:20-63 | a tenant that stays in the catalogue is served within as many successful reads as there are tenants ever seen, whatever errors occur |
| `Reconciler.EachOnce` | cmd/audit-api/ledgered_reconcile.go:48-54 | with a fixed catalogue of n any n passes serve each tenant exactly once |
| `Reconciler.CursorIsResume` | cmd/audit-api/ledgered_reconcile.go:33-62 | after any passes a tenant's cursor is where its own last page without error left it, at the start after a last page or an absence |
| `Reconciler.PagesInOrder` | cmd/audit-api/ledgered_reconcile.go:55-62 | whatever other turns and failed requests fall between, the pages of a tenant that stays are asked for one after the other to the last and then from the start again |
| `WriteBatch.Attempt` | internal/grpcapi/server.go:83-106 | one item: converted, ingested at most once, and judged committed, committed and stopping, or rejected and stopping |
| `WriteBatch.WriteBatch` | internal/grpcapi/server.go:62-109 | one outcome per input at its own index; Ingest sees exactly the events up to the stop, in order; nothing is ingested on an early refusal |
| `WriteBatch.ReplyShape` | internal/grpcapi/server.go:62-145 | for every input and failure position: committed outcomes, at most one rejected, then only unattempted; the receipts are those of the committed outcomes in order |
| `WriteBatch.StoppedItem` | internal/grpcapi/server.go:84-113 | the item at which a batch stops is committed iff its error came with a receipt that names the event, has a status and reports no conflict, and otherwise rejected with its own code |
| `WriteBatch.CallsOfBatch` | internal/grpcapi/server.go:82-106 | before the stop there is exactly one Ingest call per item, of that item's event |
| `WriteBatch.PrefixDetermined` | internal/grpcapi/server.go:82-108 | what is reported for the first items depends on those items alone |

## Left out

- Ingest, hash chain, leases and the rest of the service and store layers, and Kafka replay: only their calls into the modelled code appear.
- Float formatting: a float is its shortest decimal, so "numerically equal" for floats means equal shortest decimals.
- RFC 3339 and base64 text: a time is its UTC text, bytes are their text.
- CanonicalIsJson: text is read as code points; a byte that belongs to no character reads as U+FFFD, as it is written, and a character of the model that is no byte stands for a code of its own.
- SHA-256: the preimage is modelled, not the hash. `EventDigest` and cursors of canonical.go, and `legacy_canonical.go`, are not modelled.
- Reflection: a value is already a tree of JSON-relevant kinds; struct tags are the listed field names and omitempty flags; embedded fields do not occur in the event.
- JWS and JWK checks: acceptability of a key is any predicate. `ValidateConfiguration`, URL and HTTP client checks are not modelled.
- CanonicalIffSame: asks that one value be exact, because otherwise the law is false (CanonicalExactIff).
- PreimageIffSameContent: asks that one event be exact, for the same reason (PreimageExactIff).
- InexactShares: treats an instant as free text; in the program instants are formatted and always valid.
- SucceededPutsAgree: asks for agreeing windows and no foreign writer, because otherwise it is false (OverlapLoses).
- FetchBound: is about requests one at a time without panics; under concurrency the freshness check and the flight are separate critical sections, and only the forced stamps are bounded there (StampsBounded).
- SlotReleased: counts the leader's steps in a run; that a scheduler lets the leader run is not modelled.
- ClonableIffFiniteTree: asks that no two slices share an array, because otherwise it is false (OwnPrefixRefused).
- AtomicDataFile: after an error between creating and owning the temporary file that file may stay behind, as in the code. Of the mode only the owner-only test is modelled; symbolic links and other writers of the directory are not modelled.
- WriteOnce: is about content; that an identical retry may return nil before the directory chain is synced is not ruled out. The test hook for directory syncs is nil.
- StreamInjective: is stated for the identifier checks of `ValidateBasic` alone, so it covers every event that passes the whole of it; preset stream ids are excluded, as in the code's promise.
- Reconciler: the catalogue read and the page request are parameters of a pass.
- WriteBatch: rejection codes are carried and not interpreted; `Write` and `WriteStream` are not modelled.
- HTTP handlers, permission tables, envelope caps, scope resolution, metrics, configuration, scripts and the web interface: plumbing or short case analyses.
