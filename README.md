# CONIKS audit log, modelled in Dafny

An auditor uses the CONIKS audit log to mirror the signed-tree-root (STR)
histories of many key directories. The log maps a directory identity to the
directory's history. The identity is the hash of the directory's epoch-0 STR.
A history holds three things:

- the auditor's state for that directory: the pinned signing key and the
  latest verified STR;
- the directory's address;
- an epoch-indexed table of every STR stored so far.

The model follows `protocol/auditlog/auditlog.go` and keeps its imperative form:

- `AuditLog.DirectoryHistory` is a class with `verified` and `snapshots` (a
  `map<nat, DirStr>`) fields. `UpdateVerifiedStr`, the `InsertRange` loop and
  `Audit` update them in place.
- `AuditLog.ConiksAuditLog` is a class whose `histories` field maps a `Digest`
  to a `DirectoryHistory` object. Its object invariant says that distinct
  identities hold distinct histories, so auditing one directory leaves every
  other directory's history alone.
- `State()` gives a history as a value (`HistoryState`). The log methods
  state the new state of the history they touch, and that every other
  history is unchanged.
- `SnapshotTable` is the pure side. `Inserted` is the table after storing a
  range one STR at a time. Its lemmas prove what the range does to the table:
  which keys appear, which entries survive, that the last STR of an epoch wins,
  and that a consecutive range keeps the table gap-free.

The audit log calls three things whose code is not part of this model. They
are fields of an `Auditor.Collaborators` value. Each operation that calls
them (`Audit`, `AuditId`, `InitHistory`) takes that value as a parameter, so
each property holds whatever they compute:

- `auditor.ComputeDirectoryIdentity`, the directory identity hash;
- `AudState.AuditDirectory`, the signature and hash-chain check;
- `Response.Validate`.

`Auditor.ChecksLinearity` is the one property assumed of the chain check, and
only where a contract names it: the check accepts only ranges whose epochs
continue the verified epoch one by one.

The model follows the code, which:

- does not check `snaps[1:]` for linearity in `InitHistory`; it only stores
  them. A history can therefore have gaps or repeated epochs. The gap-free invariant
  is proved only under the conditions that guarantee it: `Consecutive(0, snaps)`
  for `InitHistory`, and `ChecksLinearity` for `Audit`/`AuditId`.
- returns nil entries from `GetObservedSTRs` where a history has gaps. The
  model returns `None` for them.
- resolves a duplicate epoch by keeping the later STR.
- returns `ErrAuditLog` when asked to initialise a known directory.
- returns an ad hoc error from `AuditId` on an unknown identity, modelled as
  `AuditIdNotFound`, not an unknown-directory code.

## Model

| member | source | states |
|---|---|---|
| SnapshotTable.InsertedSnoc | protocol/auditlog/auditlog.go:56-59 | storing one more STR after a range is the table update of one loop step: `Inserted(t, s + [x]) == Inserted(t, s)[x.epoch := x]` |
| SnapshotTable.InsertedKeys | protocol/auditlog/auditlog.go:48-60 | after inserting a range, the table's keys are exactly the old keys plus the epochs of the range |
| SnapshotTable.InsertedElsewhere | protocol/auditlog/auditlog.go:48-60 | an epoch no STR of the range carries keeps its old entry, or stays absent |
| SnapshotTable.InsertedLastWins | protocol/auditlog/auditlog.go:50 | an STR that no later STR of the range overrides is stored under its epoch; with repeated epochs the last one wins |
| SnapshotTable.InsertedKeyed | protocol/auditlog/auditlog.go:50 | inserting keeps every stored STR under its own epoch |
| SnapshotTable.InsertedConsecutive | protocol/auditlog/auditlog.go:62-68 | a table gap-free up to epoch n, extended by a range with epochs n+1, n+2, ..., is gap-free up to n + length of the range |
| SnapshotTable.InsertedStoresEach | protocol/auditlog/auditlog.go:154-161 | when the epochs of a range are pairwise distinct, every STR of the range is stored under its own epoch |
| AuditLog.DirectoryHistory.constructor | protocol/auditlog/auditlog.go:33-44 | a new history pins the key, verifies the initial STR and stores only that STR; from an epoch-0 STR it is gap-free |
| AuditLog.DirectoryHistory.UpdateVerifiedStr | protocol/auditlog/auditlog.go:48-51 | the given STR becomes the verified STR and is stored under its epoch; every other entry is unchanged |
| AuditLog.DirectoryHistory.InsertRange | protocol/auditlog/auditlog.go:56-60 | the table becomes `Inserted(old table, range)`; the verified STR becomes the last STR of the range, or stays the same for an empty range; a range that continues the verified epoch keeps the table gap-free and advances the verified epoch by the range's length |
| AuditLog.DirectoryHistory.Audit | protocol/auditlog/auditlog.go:71-92 | returns the validation error, else the chain-check result; all or nothing: on any error the table and verified STR are unchanged, and on success the whole range is stored; with a linear chain check, a gap-free history stays gap-free |
| AuditLog.NewHistory | protocol/auditlog/auditlog.go:154-161 | the history made from `snaps[0]` with `snaps[1:]` inserted is fresh, holds `Inserted({}, snaps)` and verifies the last STR; from epochs 0, 1, 2, ... it is gap-free |
| AuditLog.ConiksAuditLog.constructor | protocol/auditlog/auditlog.go:97-99 | the new log is empty |
| AuditLog.ConiksAuditLog.Set | protocol/auditlog/auditlog.go:103-106 | the log afterwards maps the identity to the given history and is otherwise unchanged |
| AuditLog.ConiksAuditLog.Get | protocol/auditlog/auditlog.go:112-115 | `ok` holds exactly when the identity is in the log; then the history returned is the stored one, otherwise it is nil |
| AuditLog.ConiksAuditLog.AuditId | protocol/auditlog/auditlog.go:117-124 | an unknown identity is an error and the log is unchanged; otherwise the result is that of `Audit`; every other history is unchanged; the identity's history is unchanged on failure and holds the stored range on success; with a linear chain check a gap-free log stays gap-free |
| AuditLog.ConiksAuditLog.InitHistory | protocol/auditlog/auditlog.go:136-165 | an empty list or a first STR not of epoch 0 gives `ErrMalformedMessage`, and a known identity gives `ErrAuditLog`; in both cases the log is unchanged; otherwise exactly one fresh history is added under `ComputeDirectoryIdentity(snaps[0])`, holding `Inserted({}, snaps)` with the last STR verified, and no existing entry or history changes; epochs 0, 1, 2, ... keep a gap-free log gap-free |
| AuditLog.ConiksAuditLog.GetObservedSTRs | protocol/auditlog/auditlog.go:184-203 | changes nothing; an unknown identity gives `ReqUnknownDirectory`; an end beyond the verified epoch or a start after the end gives `ErrMalformedMessage`; otherwise the answer holds end - start + 1 entries, the k-th being what the table holds for epoch start + k (nil if nothing) and carrying that epoch; in a gap-free history no entry is nil |
| KtScenario.AuditLifecycle | protocol/kt_test.go:48-82 | initialising a fresh log with the epoch-0 STR succeeds; the query [1,1] is malformed before the audit; the audit of the epoch-1 STR succeeds when both checks accept it; the query [1,1] then answers exactly `[s1]` |

## Left out

- Cryptography: the identity hash, signature checks and hash-chain checks are fields of `Collaborators`, not defined functions. The fixed digest size is `HashSizeByte = 32`, taken from the crypto package, which is not part of this model.
- `AudState` internals other than the pinned key and the verified STR, and the message plumbing inside `Response.Validate` and `NewErrorResponse`. A response is modelled as `ErrorResponse(code)` or `StrHistoryRange(strs)`.
- AuditLog.DirectoryHistory.Audit: requires, as `AuditId` does, that a message which passes validation is an STR history range. The source's unchecked type assertion at protocol/auditlog/auditlog.go:76 panics otherwise.
- STRs are never nil in `snaps` or in an audited range: `DirStr` is a value, not a pointer. In the source a nil `snaps[0]` panics at protocol/auditlog/auditlog.go:139, and a nil STR that reaches `updateVerifiedSTR` panics at protocol/auditlog/auditlog.go:50.
- Epochs are unbounded `nat`s, not `uint64`. For a directory at epoch 2^64-1, the source's loop `ep <= EndEpoch; ep++` would wrap and never end. The model does not capture this.
- Concurrency: the Go map is unsynchronised, and the model is sequential.
- The address is only stored. The re-verification of stored STRs in `InitHistory` and the keeping of rejected STRs are open policy questions in the source. The model captures the current behaviour: no re-verification, and nothing kept on rejection.
- The client-side consistency checker (`HandleResponse`, `CheckEquivocation`), the directory, `Fork` and the key checks of `protocol/kt_test.go` are not part of this model. Only the auditor's steps of that test are modelled.
