# Versioned migration runner

A Dafny model of the hub's migration runner (`migration/migrate.go`).
`Migrate` reads one persisted version record. The record is a `Version` JSON
document in the settings row under `VersionKey`, and a missing row is created
with a nil value. The version is the index of the last migration that
committed. `Migrate` puts a nil sentinel in front of the catalog, so the
caller's migrations sit at indices 1..N. It then runs every pending index in
increasing order, each in its own transaction that holds both the migration's
`Apply` and `setVersion(db, i)`. It stops at the first failure, with an error
wrapped with that migration's `Name()`.

The files:

- `wrappers.dfy`: `Option`.
- `version_store.dfy` (module `VersionStore`): the version row (`Row`,
  `Payload`, `StoredVersion`, `Encode`). It also holds the store (class
  `Store`: the row plus a ghost log of the committed migration effects, with
  the invariant `Valid`, which its constructor establishes), the transaction scope (class `Tx`: a staged copy
  that `Store.Commit` makes visible as a whole or not at all) and
  `SetVersion`.
- `migrate.dfy` (module `MigrationRunner`): the imperative runner (`ReadVersion`,
  `RunPending`, `Step`, `Transaction`, `ApplyMigration`, `Migrate`). Each
  method is proved against a specification function. `Run` specifies a whole
  call. `Pending` describes the loop by the index where it stops, and `Loop`
  describes it step by step.
- `migrate_properties.dfy` (module `MigrationProperties`): lemmas about `Run`.
  They cover ordering, atomicity, exactly-once, resumption, no-op reruns and
  the two scenarios (all succeed; the second of three fails).

Every call that can fail is driven by an `Oracle` of injected faults. The
oracle covers `database.Open`, `FirstOrCreate` and `database.Close` before the
loop, and, for each index i, `Open`, `Apply`, the version write, the commit and
`Close`. The first failing call in source order decides the outcome.
`Outcome` keeps apart the migrations that **committed**, the migrations whose
`Apply` was **invoked**, and the error that was **returned**. When `Close`
fails after a commit, the version has advanced but the run still reports the
error. The store's ghost `calls` log records every `Apply` call as it is
made, so `Migrate`'s contract also fixes which migrations the runner invoked.

Two behaviours of the code are easy to miss. (1) A failed `Open` or `Close`
inside the loop is wrapped with the migration's name (`MigrationFailed`),
like a failed transaction. A failed close after the commit is reported even
though that migration is already durable. (2) `setVersion` uses
`Where("key", VersionKey).Updates`, which reports no error when no row
matches. `SetVersion` models that case as a silent no-op. `Migrate` never
reaches it, because the row always exists once `FirstOrCreate` has run.

## Model

| member | source | states |
|---|---|---|
| VersionStore.StoredVersion | migration/migrate.go:39-46 | the starting version is 0 for a missing row or a nil value; only a value that does not decode has no version |
| VersionStore.Encode | migration/migrate.go:90-94 | decoding the marshalled `Version{version}` gives back `version` |
| VersionStore.Created | migration/migrate.go:27-28 | `FirstOrCreate` leaves a row present; a new row has a nil value, which reads as version 0 like a missing row; an existing row is left as it is |
| VersionStore.Store.FirstOrCreate | migration/migrate.go:27-32 | on success the row is created if it was missing and its value is returned; on failure nothing changes; the store invariant is kept |
| VersionStore.Store.Begin | migration/migrate.go:72 | a new scope starts as a copy of the committed row and effects |
| VersionStore.Store.Commit | migration/migrate.go:72 | a commit makes the scope's row and effects visible together, or leaves the store unchanged if it fails |
| VersionStore.SetVersion | migration/migrate.go:90-101 | on success the scope's row holds `version` (an absent row stays absent: `Updates` matches nothing and reports no error); on failure the row is unchanged; the effects are never touched |
| VersionStore.IntervalConcat | migration/migrate.go:51 | consecutive index ranges join: lo..mid-1 followed by mid..hi-1 is lo..hi-1 |
| MigrationRunner.WithSentinel | migration/migrate.go:48-50 | after the nil sentinel is prepended, index 0 is nil and the caller's k-th migration sits at index k |
| MigrationRunner.TransactionFault | migration/migrate.go:60-76 | the transaction fails exactly when apply, version write or commit fails, and then reports one of those three |
| MigrationRunner.StepFault | migration/migrate.go:54-81 | a step succeeds exactly when none of its five calls fails; a failed open pre-empts everything; the close is reported only when the open and the whole transaction succeeded |
| MigrationRunner.Loop | migration/migrate.go:51-83 | step by step, the loop commits a prefix of what it invokes, with at most the last invoked migration left uncommitted, and commits everything it invokes when it returns nil |
| MigrationRunner.ReadFault | migration/migrate.go:16-46 | the run stops before the loop exactly when open, read or close fails or the value does not decode, always with a bare (unnamed) error |
| MigrationRunner.RowAfterRead | migration/migrate.go:16-37 | the read keeps the stored version; an existing row is unchanged; the row stays missing only when open or `FirstOrCreate` failed |
| MigrationRunner.Run | migration/migrate.go:13-86 | a run that returns nil committed every migration it invoked and leaves the row present; the row is missing afterwards only if it was missing before and the run failed |
| MigrationRunner.FirstFault | migration/migrate.go:51-83 | the loop's stopping index is at or after its start; it lies within the catalog only if that step fails, and otherwise it is just past the end |
| MigrationRunner.ApplyMigration | migration/migrate.go:62-65 | a successful `Apply` stages exactly that migration's effect in the scope; a failing one promises nothing about the scope |
| MigrationRunner.Transaction | migration/migrate.go:60-76 | the first failure among apply, version write and commit is reported; on success the effect and the version bump to i commit together, and on any failure neither does |
| MigrationRunner.Step | migration/migrate.go:52-82 | one iteration reports its first failing call; the migration has committed (effect and version i) exactly when no call failed or only the final close did |
| MigrationRunner.ReadVersion | migration/migrate.go:13-46 | open, read-or-create, close and decode fail in that order with the matching error; on success the starting version is the decoded one (0 for a missing row or nil value) and the row exists |
| MigrationRunner.RunPending | migration/migrate.go:48-85 | the loop's error, the `Apply` calls it makes (appended to `store.calls`), its final row and its committed effects are exactly those of `Pending` from v+1 |
| MigrationRunner.Migrate | migration/migrate.go:13-86 | the whole call matches `Run`: same error, `store.calls` extended by exactly the indices whose `Apply` the run calls, same final row, effects extended by exactly the committed indices, store invariant kept |
| MigrationRunner.PendingCommitsInOrder | migration/migrate.go:51-83 | the loop commits a consecutive run of indices from its start |
| MigrationRunner.PendingStopsAt | migration/migrate.go:51-85 | helper for the loop's two exits: at the first failing index, or past the end, `Pending`'s result is spelled out in terms of that index |
| MigrationProperties.FirstFaultIsFirst | migration/migrate.go:51-76 | every step before the stopping index ran without failure |
| MigrationProperties.FirstFaultSkipsClean | migration/migrate.go:51-83 | skipping steps that succeed does not move the stopping index |
| MigrationProperties.LoopMatchesPending | migration/migrate.go:51-83 | the step-by-step loop and the description by stopping index agree on every input |
| MigrationProperties.VisitsPendingInOrder | migration/migrate.go:48-51 | the invoked indices are v+1, v+2, ... without gaps or repeats, and none lies past the catalog |
| MigrationProperties.UncommittedOnlyWhenTransactionFails | migration/migrate.go:60-76 | committed indices are a prefix of the invoked ones; at most the last invoked one is uncommitted, and it is exactly when its apply, version write or commit failed |
| MigrationProperties.CommitsFollowVersion | migration/migrate.go:51-72 | a run commits exactly the indices right after the stored version, and the version moves past them |
| MigrationProperties.VersionTracksCommittedEffects | migration/migrate.go:60-72 | after any run the stored version equals the old version plus the number of commits, and the effects log is still exactly 1..version |
| MigrationProperties.SucceedsIffNothingFails | migration/migrate.go:51-85 | a run returns nil exactly when the read succeeds and no pending step fails; then it commits every pending index and the version is max(v, N) |
| MigrationProperties.FailureNamesFirstFailingMigration | migration/migrate.go:54-81 | an error from the loop names the first pending migration k whose step failed, with that step's failing call; all earlier steps succeeded and nothing after k was invoked; an error before the loop invokes nothing |
| MigrationProperties.NothingPendingIsNoOp | migration/migrate.go:51-85 | with the stored version at or past N, no `Apply` is invoked, nothing commits, the version is unchanged, and without read failures the run returns nil |
| MigrationProperties.FreshStoreStartsAtFirst | migration/migrate.go:27-46 | with the row missing or nil and no faults, all of 1..N are invoked and committed in order and the version ends at N |
| MigrationProperties.MalformedRecordStopsBeforeMigrations | migration/migrate.go:39-46 | a value that does not decode stops the run before any migration, leaves the row as it was, and returns the decode error |
| MigrationProperties.CloseFailureStillCommits | migration/migrate.go:72-81 | when the connection close after a commit fails, the returned error names migration k, yet k has committed and the version is k |
| MigrationProperties.RerunStartsAfterLastCommit | migration/migrate.go:39-51 | a later run invokes only indices from the one after the last committed one on, so nothing committed is invoked again |
| MigrationProperties.TwoRunsCommitEachOnce | migration/migrate.go:51-83 | across two consecutive runs the committed indices are v+1, v+2, ... once each and in order |
| MigrationProperties.RerunWithoutFaultsFinishes | migration/migrate.go:51-85 | after a failed run, a rerun with no faults returns nil and leaves the version at the end of the catalog |
| MigrationProperties.ThreeCleanMigrations | migration/migrate.go:48-85 | three migrations on a fresh store: invoked and committed as 1, 2, 3, version 3, no error |
| MigrationProperties.SecondOfThreeFails | migration/migrate.go:48-85 | if m2's `Apply` fails: m1 committed, m2 invoked, m3 never invoked, version 1, error names m2 |

## Left out

- The connection itself: `database.Open` and `database.Close` are reduced to calls that may fail. The deferred close on the error path (migration/migrate.go:21-25) is not modelled, because its result is discarded.
- gorm: `FirstOrCreate`, `Where(...).Updates` and `db.Transaction` are modelled only by their effect on the version row and their all-or-nothing commit. SQL, locking and the `Setting` model's other columns are not modelled.
- JSON: the row's value is an abstract `Payload`, either a `Version` or bytes that `json.Unmarshal` rejects. A well-formed document holding a negative version cannot be represented, and `setVersion` never writes one. The source would panic on it: with -1 the loop starts at index 0, the nil sentinel, and `m.Name()` panics (migration/migrate.go:61, or :56 if the open fails); below -1, `migrations[i]` is out of range (migration/migrate.go:52).
- StoredVersion: the version is an unbounded `nat`, so Go's `int` overflow is not modelled. A stored `math.MaxInt` makes `v.Version + 1` (migration/migrate.go:51) wrap to a negative index, and `migrations[i]` panics; the model treats that version as "nothing pending" and returns nil. `setVersion` never writes such a version.
- The bodies of individual migrations: `Apply` is reduced to staging the migration's index in a ghost effects log. Its success is an injected fault, not a function of the data.
- `log.Info` and the error's message text: the error keeps only the migration's name and the failing call.
- Panics inside `Apply` and concurrent runners against the same store: the model is single-threaded and `Apply` returns.
- `hack/cmd/addon/main.go`: an example addon made of file I/O, a `find` subprocess, sleeps and remote hub API calls, outside the runner.
