# Verification of the desktop host and its package source

A model in Dafny of the algorithmic cores of a desktop tool host (Rust) and of its package-source server
(Go), with proofs of what they promise. `dafny verify dfyconfig.toml` checks everything.

| file | what it models |
|---|---|
| `Calendar.dfy` | the timestamp profile of metadata: Gregorian arithmetic in both directions, parser and formatter |
| `CanonicalJson.dfy` | the canonical JSON text that is signed, and a decoder for it |
| `TufTrust.dfy`, `TufTheorems.dfy`, `TufMeaning.dfy`, `TufExample.dfy` | the client trust chain: root rotation, then timestamp, snapshot and targets (sections 5.3 to 5.6 of The Update Framework specification) |
| `TrustStore.dfy`, `TrustHistory.dfy` | the persisted trust state, its transaction, and verifier and store together |
| `PluginInstall.dfy` | making a package version visible and undoing it, when any file operation may fail |
| `AppUpdate.dfy` | replacing application files with a backup, stopped anywhere, and rolled back |
| `Availability.dfy` | the background availability sweep |
| `ProcessTree.dfy`, `SnapshotDiff.dfy` | the process forest, and the differences that rebuild the process table |
| `RateLimiter.dfy` | the per-address sliding window |
| `CommandLine.dfy` | quoting of shortcut arguments against the Windows parser |
| `LineReader.dfy` | the cancellable, bounded line reader of media exports |
| `ZipContainer.dfy`, `ArchiveLedger.dfy` | the preflight of uploaded archives and their ledger of sizes |
| `CatalogCache.dfy`, `CatalogMerge.dfy` | the cached catalog snapshot under every interleaving, and merging the catalogs of several sources |
| `LruCache.dfy` | the thumbnail cache |
| `FormEncoding.dfy` | percent encoding and the sign-in callback query (section 2.1 of RFC 3986) |
| `Wrappers.dfy`, `Text.dfy`, `Sorting.dfy`, `TufErrors.dfy` | shared types, text order and decimals, sorting, error cases |

The usual shape is a method in the form of the code, proved against a definition that does not work the
way the code does (a count over the full history, a list of everything ever put, a split of the byte
stream), and theorems about that definition over all inputs, runs or interleavings. Where code and definition share
a rule for reading data (the fields of a metadata document, the bytes of a record, the characters that are
escaped, the answer of a probe), a further theorem says what the rule means on the data itself.

How the outside world enters: SHA-256, signature checking and JSON parsing are arbitrary functions, and
"no collision" is a hypothesis where it is used. The clock, the storage answers, failing database
statements and the arrivals on a pipe are parameters. File operations choose their failures themselves,
so a theorem about them holds for every failure pattern, and count them in a ghost field, so that a contract
can also say what must succeed; stopping a program is the failure of its next operation. Ghost results (`honest`, `undo`, the set `missed`) say whether an existence test was answered
truthfully, since the code reads a failing test as "not there". Concurrency is a state machine whose
steps are atomic under the lock that the code holds.

## Findings

What the proofs showed about the code, besides confirming it:

- A rollback of an install without a backup answers success although the new directory stays when the
  existence test fails (`crates/useful-plugin/src/install.rs:100`). `PluginInstall.InstallTransaction.Rollback`
  shows that this happens and states exactly when success means restored; `PluginInstall.MakeVisible` and
  `PluginInstall.InstallThenRollback` carry the exact exception to the whole install.
- `BuildSnapshot` swallows failing reads of availability and advisories and the incomplete snapshot is
  cached (`services/internal/catalog/catalog.go:121`, `:140`), so a change can be missed after its
  `Invalidate` returned. `CatalogCache.CallSeesSettledChange` gives the exact condition in terms of the reads
  of the build, `CatalogCache.SettledChangeCanBeMissing` a run.
- An unreadable availability record (`services/internal/availability/availability.go:66`) restarts the failure
  counter: `Availability.CounterExact` says exactly when the counter is right. It also puts its object first
  in every sweep, as does a record that can never be written, so that others can starve
  (`Availability.FaultyRecordsStarveOthers`). `Availability.FairExactlyBelowTheCap` says that a due object is
  probed within bounded time if and only if fewer records fail than a sweep can probe.
- `urldecode` panics when a percent sign is followed by a character that does not end with the second byte
  after it (`crates/useful-source-accounts/src/session.rs:183`), and `from_query` with it.
  `FormEncoding.UrlDecode` and `FormEncoding.FromQuery` give the exact condition, `FormEncoding.CutExample` a
  text.
- Removing a source and adding it again forgets its accepted versions (`TrustStore.RemovalForgets`).
- Clock text after year 9999 is rejected by the parser, so verification fails closed from then on
  (`Calendar.FormatThenParse`).
- Two checks of the archive ledger can never fire: the overall compression ratio and the total of native
  files (`ArchiveLedger.OverallRatio`, `ArchiveLedger.NativeWithinBudget`).
- A digest of the form `nodigest:` followed by a source name folds with that source's item without a digest
  (`crates/useful-repository-client/src/search.rs:85`). `CatalogMerge.FoldsWrongly` says that nothing else
  folds wrongly; SHA-256 digests in hexadecimal cannot (`CatalogMerge.HexIsNotForged`).
- A rollback after a stopped application update leaves a temporary file behind when the stop was between the
  copy and the rename of a file, and leaves files that the update has added
  (`crates/useful-bootstrap/src/apply.rs:157-183`). `AppUpdate.RestoredExactly` is the exact condition,
  `AppUpdate.StopAfterTheCopy` and `AppUpdate.StopAfterANewFile` are two stops. A temporary left that way is
  used up by a later update, and no rollback brings it back (`AppUpdate.StopAfterAnOldTemporary`);
  `AppUpdate.RestoredFromAnyStart` is the exact condition whatever lay around before.
- Replaying the differences of process snapshots does not always rebuild the latest one: the static part is
  sent only with a new process, but the sampler computes its parent anew each time
  (`crates/useful-procmon/src/sampler.rs:137-141`). `SnapshotDiff.TableIsLatest` says exactly when it does,
  `SnapshotDiff.StaticPartCanLag` gives the samples on which it does not.

## Model

| member | source | states |
|---|---|---|
| `Calendar.ClosedFormCountsDays` | crates/useful-repository-client/src/tuf.rs:384-393 | for every date from year 0000 on, the closed-form day number is the number of days counted one by one under the Gregorian leap rule |
| `Calendar.CivilFromDaysInverts` | crates/useful-repository-client/src/tuf.rs:658-671 | the formatter's civil date of any day number is a real calendar date whose closed-form day number is that number again |
| `Calendar.LaterDateLaterDay` | crates/useful-repository-client/src/tuf.rs:384-393 | a later calendar date has a larger day number |
| `Calendar.FormatThenParse` | crates/useful-repository-client/src/tuf.rs:330-394 | the clock text of an instant parses back to it if and only if the instant is not after the last second of year 9999; afterwards it is rejected as malformed |
| `Calendar.ParseThenFormat` | crates/useful-repository-client/src/tuf.rs:652-673 | every accepted stamp from 1970 on is the clock text of the instant it parses to, so the two directions are inverse |
| `Calendar.ParsedInstantCountsDays` | crates/useful-repository-client/src/tuf.rs:330-394 | the instant of every accepted stamp, years 0000 to 9999, is its day-by-day count plus its time of day |
| `Calendar.TextOrderIsTimeOrder` | crates/useful-repository-client/src/tuf.rs:327-394 | comparing two accepted stamps as text is comparing their instants |
| `Calendar.AcceptedStamps` | crates/useful-repository-client/src/tuf.rs:330-383 | exactly the texts with digits and separators in the twenty places of the profile that name a day of the calendar and a time of day are accepted; any other is malformed |
| `CanonicalJson.CanonicalString` | crates/useful-repository-client/src/tuf.rs:102-112 | the loop appends the quoted string; TextIsWritten says what that is |
| `CanonicalJson.WriteCanonical` | crates/useful-repository-client/src/tuf.rs:115-158 | appends the canonical text of a value, or fails exactly when the value holds a floating-point number anywhere; the rows below say what the text is |
| `CanonicalJson.WriteItems` | crates/useful-repository-client/src/tuf.rs:132-141 | the array loop writes the elements in order with commas between, or fails at a float |
| `CanonicalJson.WriteMembers` | crates/useful-repository-client/src/tuf.rs:142-155 | the object loop writes the members in key order with commas between, or fails at a float |
| `CanonicalJson.TextIsWritten` | crates/useful-repository-client/src/tuf.rs:102-112 | a text is written between quotes and longer by one for each backslash and quote in it: each of these stands in its place with a backslash before it, every other character stands in its place as it is |
| `CanonicalJson.PlainText` | crates/useful-repository-client/src/tuf.rs:102-112 | a text without backslashes and quotes is written as it is |
| `CanonicalJson.IntegerIsWritten` | crates/useful-repository-client/src/tuf.rs:125-130 | an integer is written in decimal without leading zeros, after a minus sign when negative |
| `CanonicalJson.ArrayIsWritten` | crates/useful-repository-client/src/tuf.rs:132-141 | an array is written as the texts of its elements, in order, with commas between and brackets around them |
| `CanonicalJson.ObjectIsWritten` | crates/useful-repository-client/src/tuf.rs:142-155 | an object is written with each member once, name and value with a colon between, in increasing dictionary order of the names, with commas between and braces around them |
| `CanonicalJson.RoundTrip` | crates/useful-repository-client/src/tuf.rs:114-158 | an independent decoder recovers from the canonical text, followed by anything that does not start with a digit, the value with its members in key order and exactly that remainder |
| `CanonicalJson.ReorderingKeepsMeaning` | crates/useful-repository-client/src/tuf.rs:142-155 | putting the members in key order does not change what a value means |
| `CanonicalJson.SameMeaningSameText` | crates/useful-repository-client/src/tuf.rs:142-155 | values that differ only in the insertion order of members have the same canonical text |
| `CanonicalJson.CanonicalTextIsUnambiguous` | crates/useful-repository-client/src/tuf.rs:114-158 | two float-free values have the same canonical text if and only if they are equal up to the order of members |
| `TufTrust.CountSignatures` | crates/useful-repository-client/src/tuf.rs:440-453 | the loop counts distinct authorised keyids with at least one valid signature, whatever the order or repetition of signatures |
| `TufTrust.VerifyRoleDoc` | crates/useful-repository-client/src/tuf.rs:419-474 | a role document is answered by its type, specification version, canonical text, set of valid signers against the threshold, and expiry, with the code's error in each case |
| `TufTrust.SignatureOrderIsIrrelevant` | crates/useful-repository-client/src/tuf.rs:440-453 | two documents with the same content and the same set of signatures get the same answer |
| `TufTrust.Verify` | crates/useful-repository-client/src/tuf.rs:497-641 | the loop over root versions ends by the 64-bit version bound and gives the answer of the recursive chain definition that the theorems below are about |
| `TufTrust.EnsureMonotonicVersions` | crates/useful-repository-client/src/tuf.rs:275-290 | accepts exactly the candidates that are not older in any role; the error names the first role that goes back, with both versions |
| `TufTheorems.RootRolesValidation` | crates/useful-repository-client/src/tuf.rs:294-325 | the validation accepts exactly roots whose four roles have known, distinct keys and a threshold between one and their number |
| `TufTheorems.OwnRootAccepted` | crates/useful-repository-client/src/tuf.rs:503-518 | a root passes on its own exactly when it is well typed, has sound roles, consistent snapshots and a positive version, and reaches its own threshold |
| `TufTheorems.RotationAccepted` | crates/useful-repository-client/src/tuf.rs:522-549 | a rotation is accepted exactly when the new root is sound, has the next number, and reaches the thresholds of the old root and of itself |
| `TufTheorems.ChainEndUnique` | crates/useful-repository-client/src/tuf.rs:522-549 | at most one version can be the end of the chain of a source and an anchor |
| `TufTheorems.NewestIsChainEnd` | crates/useful-repository-client/src/tuf.rs:520-549 | the rotation loop returns the root at the end of the chain, and fails exactly when the chain has no end |
| `TufTheorems.OnlineAccepted` | crates/useful-repository-client/src/tuf.rs:553-640 | everything after the root chain is accepted exactly when the last root has not expired and timestamp, snapshot and targets are each readable, of their type, signed to the threshold of their role under that root, not expired, and pinned by the parent in version, length and digest |
| `TufTheorems.TargetsRead` | crates/useful-repository-client/src/tuf.rs:609-629 | the target table has the length, lower-case digest and custom data of every entry under its own name |
| `TufTheorems.AcceptedChain` | crates/useful-repository-client/src/tuf.rs:497-641 | verification accepts if and only if the anchor signs itself and the chain of doubly signed, consecutively numbered roots ends at some root that has not expired (the only root expiry that counts) and below which the three documents are good; the result carries that root's number and digest |
| `TufTheorems.PinnedSame` | crates/useful-repository-client/src/tuf.rs:481-492 | one parent entry pins one document: same bytes, content and version from any source at any time, unless two files collide |
| `TufTheorems.TimestampPinsEverything` | crates/useful-repository-client/src/tuf.rs:564-640 | two accepted verifications that saw the same timestamp bytes agree on snapshot bytes, targets bytes, versions, digests and target table, whatever their anchors, clocks and sources |
| `TufTheorems.OneFilePerTarget` | crates/useful-repository-client/src/tuf.rs:644-650 | two byte strings accepted for one target name under one timestamp are equal, unless they collide |
| `TufMeaning.RoleMeans` | crates/useful-repository-client/src/tuf.rs:230-235 | a role is read with exactly the strings of its keyids array and exactly the number of its threshold, below 2^32; anything else is malformed |
| `TufMeaning.KeysMean` | crates/useful-repository-client/src/tuf.rs:210-231 | the keys are read if and only if every entry is of type ed25519 and has a public key, and each keyid then stands for the public key of its own entry |
| `TufMeaning.ThresholdMeans` | crates/useful-repository-client/src/tuf.rs:440-460 | the signature test for a role holds if and only if at least as many of the keys the document lists for the role have signed as the threshold it states |
| `TufMeaning.RootMeans` | crates/useful-repository-client/src/tuf.rs:294-325 | a root document is sound if and only if, as written, it has the type and specification version, proper keys, four roles with distinct known keys and a threshold between one and their number, consistent snapshots, and a positive 64-bit version |
| `TufMeaning.VerificationMeans` | crates/useful-repository-client/src/tuf.rs:497-641 | verification accepts a source if and only if its files, as written, form a chain of root files up to one that is still valid, and timestamp, snapshot and targets files below it that are pinned, signed, current and of the stated versions; stated on the members of the documents without any function of the verifier but the calendar and the canonical text |
| `TufMeaning.TooFewSignersAreRefused` | crates/useful-repository-client/src/tuf.rs:440-460 | an anchor that fewer of its own root keys have signed than its threshold is refused |
| `TufMeaning.TooFewSignersAreCounted` | crates/useful-repository-client/src/tuf.rs:454-460 | when it is sound otherwise, the answer gives the number of valid signers and the threshold |
| `TufMeaning.ResultMeans` | crates/useful-repository-client/src/tuf.rs:564-641 | the versions, digests and targets of the result are those of the files it was read from, each target with the length, lower-case digest and custom data of its entry |
| `TufMeaning.TargetBytesMean` | crates/useful-repository-client/src/tuf.rs:644-650 | downloaded bytes pass if and only if they have the stated length and, but for case, the stated digest |
| `TufExample.ExampleIsAccepted` | crates/useful-repository-client/src/tuf.rs:497-650 | a concrete metadata set is accepted with lower-case, collision-free digests, so the assumptions of the theorems above can be met |
| `TufExample.ExampleIsRecorded` | crates/useful-core/src/db.rs:402-428 | the same set can be recorded twice, so the assumptions of the theorem about verifier and store can be met, too |
| `TrustStore.Database.Rollback` | crates/useful-core/src/db.rs:419-424 | whether or not it fails, what would survive a crash does not change |
| `TrustStore.Database.AcceptInTransaction` | crates/useful-core/src/db.rs:433-546 | writes the candidate exactly when it is well formed, not older, consistent in its digests, and the row is enabled and still has the expected identity; otherwise nothing changes; the error says whether the rule or the database refused |
| `TrustStore.Database.Accept` | crates/useful-core/src/db.rs:402-428 | the durable rows change exactly when the attempt is accepted and every statement of its transaction succeeds; a rejected attempt changes nothing; the error says whether the rule or the database refused |
| `TrustStore.AcceptedExactlyWhenDeserved` | crates/useful-core/src/db.rs:433-546 | over every history an attempt is accepted if and only if no statement fails and the events before it say that the source is there, switched on, of the expected discovery URL and fingerprint, and that each role stays or advances from what was last accepted, to a version of 63 bits and a lower-case SHA-256 digest |
| `TrustStore.OldIdentityIsRefused` | crates/useful-core/src/db.rs:519-520 | after a source is added or given another identity, and until the next change, no attempt for a different discovery URL or fingerprint is accepted |
| `TrustStore.NothingAcceptedWhileOff` | crates/useful-core/src/db.rs:521-521 | between switching a source off and switching it on again nothing is accepted for it |
| `TrustStore.HistoryOnlyAdvances` | crates/useful-core/src/db.rs:467-507 | over every history of attempts, identity changes and enabling steps, no role of a source that is not removed goes back or gets a second digest for a version |
| `TrustStore.OneDigestPerVersion` | crates/useful-core/src/db.rs:497-506 | any two accepted attempts of one source that agree on a role's version, one or more, agree on its digest, and the later is not older |
| `TrustStore.RaceEndsAtMaximum` | crates/useful-core/src/db.rs:876-932 | attempts with consistent digests in any order, with repetition and failures, end at the greatest candidate once it has had one undisturbed attempt |
| `TrustStore.RemovalForgets` | apps/useful/src-tauri/src/commands/trp_sources.rs:538-547 | removing a source and adding it again (line 454 of the same file), whatever happens in between, loses its accepted versions: the one way to go back |
| `TrustHistory.RecordedTimestampFixesTargets` | crates/useful-core/src/db.rs:400-428 | verifier and store together: of two recorded verifications of one source the later is older in no role, and if it kept the timestamp version it kept snapshot, targets and every target entry |
| `PluginInstall.FileSystem.CopyDirAll` | crates/useful-plugin/src/install.rs:419-438 | a copy that succeeds is complete and equal; one that fails touches nothing but its own target; without a failing operation it succeeds |
| `PluginInstall.ClearDestination` | crates/useful-plugin/src/install.rs:99-136 | removes or sets aside the new version; only its own two paths change; success after an honest look-up leaves nothing behind, and a failing look-up always answers success and changes nothing; without a failing operation it succeeds, and when only the removal fails the directory is set aside under its marker |
| `PluginInstall.RestoreReplaced` | crates/useful-plugin/src/install.rs:137-153 | the old version is back whole under the destination, or still whole under its backup name; without a failing operation it is back, and when only the rename fails it is marked |
| `PluginInstall.SetAside` | crates/useful-plugin/src/install.rs:285-294 | makes the parent directory and moves an old version to its backup name; without a failing operation it succeeds, with a backup if and only if a version was there; failing, it changes nothing |
| `PluginInstall.InstallTransaction.Commit` | crates/useful-plugin/src/install.rs:85-93 | finalizes; the installed directory is not touched by dropping the backup; without a failing operation the backup is gone |
| `PluginInstall.InstallTransaction.Rollback` | crates/useful-plugin/src/install.rs:95-170 | for every failure pattern the replaced version stays whole at one of its two names; after success the destination is exactly as before if and only if there was a backup, or the look-up did not fail, or nothing was there; without a backup a failing look-up does give success with the new version left in place; every error asks for recovery; without a failing operation it succeeds and restores |
| `PluginInstall.SwitchCopy` | crates/useful-plugin/src/install.rs:301-351 | the cross-volume fallback: success shows the staged files; an error without the recovery mark has restored everything, except exactly when the rollback had no backup and its look-up failed, and then the staged files stay visible; it fails only if an operation fails or the destination is occupied, and success leaves neither staging nor copy |
| `PluginInstall.MakeVisible` | crates/useful-plugin/src/install.rs:285-354 | success shows exactly the staged files and keeps the old ones in the backup; every failure keeps the old version whole; a failure without the recovery mark has restored everything if and only if it is not that of a rollback without a backup whose look-up failed; it succeeds whenever no operation fails, or none but the rename of the staging directory, and then has a backup if and only if a version was there |
| `PluginInstall.Install` | crates/useful-plugin/src/install.rs:285-380 | the same, with the same exception, through the outer clean-up, with the transaction that a later failure rolls back; it succeeds under the same condition |
| `PluginInstall.InstallThenRollback` | crates/useful-plugin/src/install.rs:58-66 | an install undone by its caller leaves the old version whole; unless recovery is asked for, the destination is as before if and only if no rollback without a backup had a failing look-up, and otherwise it still holds the staged files; under that condition it succeeds and the destination is as before |
| `AppUpdate.TemporaryOfTemporary` | crates/useful-bootstrap/src/apply.rs:146-146 | a temporary name is its own temporary name, so only a listed file already named so can clash |
| `AppUpdate.BackupFiles` | crates/useful-bootstrap/src/apply.rs:107-120 | on success every existing listed file that a look-up saw has its bytes in the backup, and every new copy holds old bytes; nothing but backup copies is written; it fails only if an operation fails, and misses at most as many files as operations fail |
| `AppUpdate.ReplaceFile` | crates/useful-bootstrap/src/apply.rs:140-151 | one file: success puts the staged bytes in place and leaves no temporary; every failure says what remains: nothing, a temporary with any bytes, or the finished temporary beside the old file, or beside none; a staged file fails only if an operation fails |
| `AppUpdate.ReplaceFiles` | crates/useful-bootstrap/src/apply.rs:139-152 | a completed loop leaves every listed file equal to its staged bytes even when temporary names are shared; from a clean start a stop has replaced a number of files and, besides, at most left the temporary of the next one; from any start the replaced files hold their staged bytes and their temporaries are gone, except for the file in progress; all other files are left alone; it completes if everything is staged and no operation fails |
| `AppUpdate.ApplyUpdate` | crates/useful-bootstrap/src/apply.rs:124-154 | a completed update equals staging on the listed files; stopped after any operation, every seen old file is in the backup and it is known where the loop stopped; it completes if everything is staged and no operation fails |
| `AppUpdate.Rollback` | crates/useful-bootstrap/src/apply.rs:157-183 | on success every backed-up file is back; nothing else is touched, neither temporaries nor new files; the backup itself is never changed, so a failed rollback can be tried again; it fails only if an operation fails |
| `AppUpdate.RestoredExactly` | crates/useful-bootstrap/src/apply.rs:139-183 | from a clean start, a successful rollback brings everything outside the backup back exactly as before if and only if the loop left no temporary and every file it had replaced has a copy or was equal to its staged file |
| `AppUpdate.RestoredFromAnyStart` | crates/useful-bootstrap/src/apply.rs:139-183 | from any start where no listed file is named like a temporary, a successful rollback brings everything outside the backup back if and only if every replaced file has a copy or was equal to its staged file and found no older temporary, and the file in progress has its temporary as before and its target untouched or copied |
| `AppUpdate.StopAfterTheCopy` | crates/useful-bootstrap/src/apply.rs:146-151 | a concrete stop between the copy and the rename: the rollback succeeds and the temporary stays |
| `AppUpdate.StopAfterANewFile` | crates/useful-bootstrap/src/apply.rs:139-183 | a concrete stop after a file that did not exist before: the rollback succeeds and the file stays |
| `AppUpdate.StopAfterAnOldTemporary` | crates/useful-bootstrap/src/apply.rs:145-151 | a concrete update that finds a temporary of an earlier stop: the rollback succeeds and that file is gone |
| `AppUpdate.StopThenRollback` | crates/useful-bootstrap/src/apply.rs:122-183 | stopping the replace loop anywhere and then rolling back returns every previously existing listed file to its old bytes; from a clean start with truthful look-ups all else is as before, too, if and only if no temporary was left and no new file was put in place; from any other start under the exact condition of RestoredFromAnyStart |
| `Availability.Checker.Sweep` | services/internal/availability/availability.go:51-90 | one sweep probes the oldest due objects, at most the cap and until cancellation, with ties in any order, and the records change by exactly those probes |
| `Availability.DueObjectIsProbedInTime` | services/internal/availability/availability.go:57-88 | fairness: with n published objects of distinct hash and cap M, of which in each sweep at most d < M have failing reads or writes, an object that is due is probed within n / (M - d) sweeps, rounded up; without faults within n / M |
| `Availability.DueObjectIsProbedDespiteFaults` | services/internal/availability/availability.go:57-88 | whatever reads and writes fail and wherever sweeps are cut short, a due object is probed before as many probes as there are objects have been read and recorded |
| `Availability.FaultyRecordsStarveOthers` | services/internal/availability/availability.go:66-79 | for every cap: as many objects as a sweep can probe, whose records cannot be read or can never be written, keep another due object from ever being probed, over runs of any length |
| `Availability.WaitIsBoundedExactly` | services/internal/availability/availability.go:57-88 | for every cap M, n objects and at most d records in each sweep whose reads or writes fail: there is a number of sweeps within which every due object is probed, over all runs, if and only if d < M or all n fit into one sweep |
| `Availability.FairExactlyBelowTheCap` | services/internal/availability/availability.go:57-88 | so there is such a number for every number of objects if and only if d < M |
| `Availability.OneMoreProbe` | services/internal/availability/availability.go:92-136 | one probe turns the summary of a probe history into the summary of the extended history, where a history holds the storage answers and wanted sizes: a success is exactly an object of the listed size, a wrong size or a missing object is unavailable at once, other errors from the threshold on, and each error has its own category |
| `Availability.RecordsSummariseRemembered` | services/internal/availability/availability.go:92-136 | over every run, whatever reads and writes fail, a record is the summary of the remembered history: a failed write loses its probe, a failed read all before it |
| `Availability.RecordsSummariseHistory` | services/internal/availability/availability.go:92-136 | when the probes of an object could all be read and written, its record is the summary of the full probe history; its counter is the number of failures since the last success |
| `Availability.CounterExact` | services/internal/availability/availability.go:66-136 | over every run, whatever reads and writes fail, the counter is right after every sweep if and only if every probe was harmless: written and read, or written and a success or the first failure, or a success not written when there was nothing to reset |
| `Availability.UnreadableRecordLosesCount` | services/internal/availability/availability.go:66-74 | after a failing probe that is written the counter is right if and only if the old record could be read or counted no failure |
| `ProcessTree.BuildChildrenMap` | crates/useful-procmon/src/tree.rs:14-33 | for every listed process, the sorted list of the processes that name it as parent |
| `ProcessTree.ChildLinks` | crates/useful-procmon/src/tree.rs:19-27 | the links of the map are exactly the entries whose parent is listed |
| `ProcessTree.ChildrenInOrder` | crates/useful-procmon/src/tree.rs:14-33 | exactly the listed processes have a list, and each list is in order of pid and start time |
| `ProcessTree.RootsMembers` | crates/useful-procmon/src/tree.rs:36-48 | the roots are exactly the entries without a listed parent |
| `ProcessTree.RootsInOrder` | crates/useful-procmon/src/tree.rs:36-48 | they come in order of pid and start time |
| `ProcessTree.CollectDescendants` | crates/useful-procmon/src/tree.rs:52-73 | returns exactly the reachable processes, each once, for any map, cycles included; a process comes after all that fewer links reach |
| `ProcessTree.RootsReachDisjointSets` | crates/useful-procmon/src/tree.rs:36-73 | with distinct identities, the descendant lists of different roots are disjoint |
| `ProcessTree.RootsCoverIffAcyclic` | crates/useful-procmon/src/tree.rs:36-73 | together they cover all entries if and only if no process is its own ancestor |
| `RateLimiter.CompactInPlace` | services/internal/httpapi/server.go:168-173 | the slots kept at the front of the array are exactly the times after the cut-off, in order |
| `RateLimiter.Limiter.Purge` | services/internal/httpapi/server.go:160-167 | drops exactly the addresses whose newest time is out of the window, and changes no other |
| `RateLimiter.PurgeKeepsAgreement` | services/internal/httpapi/server.go:160-167 | forgetting those addresses changes no window that can still be asked about |
| `RateLimiter.Limiter.Allow` | services/internal/httpapi/server.go:155-180 | for calls in time order, a call is allowed exactly when fewer than the limit of earlier allowed calls of the address lie in the window; no bucket exceeds the limit; after more than a window since the last purge only addresses with a time in the window are kept |
| `RateLimiter.AllowedByCount` | services/internal/httpapi/server.go:155-180 | the rule by counting: fewer than the limit of the earlier calls of the address that were allowed are newer than the window |
| `RateLimiter.AnswerAll` | services/internal/httpapi/server.go:143-180 | every run of calls in time order is answered as by a limiter that keeps the full history |
| `CommandLine.QuoteArg` | crates/useful-shortcuts/src/lib.rs:81-114 | the loop with its backslash counter writes the quoting that the round trip below is about |
| `CommandLine.QuotingIsSpare` | crates/useful-shortcuts/src/lib.rs:81-114 | an argument without blanks and quotes is left as it is; any other stands between quotes and grows by one for each quote and each backslash before a quote or the end |
| `CommandLine.ArgumentsAreJoined` | crates/useful-shortcuts/src/lib.rs:71-77 | the quoted arguments stand in order with one space between them |
| `CommandLine.BodyRoundTrip` | crates/useful-shortcuts/src/lib.rs:88-112 | inside quotes the Windows parser undoes the escaping up to the closing quote, after any number of pending backslashes |
| `CommandLine.QuotedRoundTrip` | crates/useful-shortcuts/src/lib.rs:81-114 | one quoted argument, followed by a blank or the end, is read back whole |
| `CommandLine.ArgumentsRoundTrip` | crates/useful-shortcuts/src/lib.rs:71-114 | the parsed argument line is the original list, with empty arguments and trailing backslashes, if and only if no argument contains NUL, under either reading of doubled quotes |
| `LineReader.RawLinesCut` | crates/useful-media/src/export.rs:102-120 | cutting a byte string into lines loses nothing and gives lines that end in their only line feed, the last one perhaps without |
| `LineReader.CutIsUnique` | crates/useful-media/src/export.rs:102-120 | there is only one such cut |
| `LineReader.ProgressReader.FillBuf` | crates/useful-media/src/export.rs:91-91 | waiting for the pipe changes no unread byte, whether bytes arrive, the call is abandoned or the pipe fails |
| `LineReader.ProgressReader.TakeBuffered` | crates/useful-media/src/export.rs:102-120 | takes the buffered bytes up to a line feed: a full line is reported, a too long one is refused before anything is consumed |
| `LineReader.ProgressReader.NextLine` | crates/useful-media/src/export.rs:89-122 | reports the first unread line, refuses exactly when that line with its line feed exceeds the limit, and otherwise leaves every unread byte in place; a call takes deliveries up to the first wait or fault and says which it was |
| `LineReader.ProgressReader.ReadLines` | crates/useful-media/src/export.rs:703-744 | for every chunking and every abandoned call, the lines reported are the lines of the byte stream up to the first too long one, which ends the loop; a fault ends it after all complete lines delivered before |
| `ZipContainer.CheckedEnd` | services/internal/publishers/archive.go:133-138 | gives the sum exactly when it fits 64 bits |
| `ZipContainer.FindEnd` | services/internal/publishers/archive.go:154-167 | finds the last end record whose comment runs to the end of the tail, or shows there is none |
| `ZipContainer.EndsAreInTheTail` | services/internal/publishers/archive.go:146-153 | no end record can lie before the searched tail, so searching the tail searches the file |
| `ZipContainer.ReadZip64` | services/internal/publishers/archive.go:187-225 | accepts exactly single-disk ZIP64 records that fill the space up to their locator, without reading out of range |
| `ZipContainer.CheckDirectory` | services/internal/publishers/archive.go:168-236 | accepts exactly the records that describe a single-disk directory within the limits and wholly before the record, in unbounded arithmetic |
| `ZipContainer.Preflight` | services/internal/publishers/archive.go:142-237 | accepts exactly the files whose last comment-closed end record, or its ZIP64 record, describes such a directory, also when the file is cut or extended between the size query and the reads |
| `ZipContainer.EndMeans` | services/internal/publishers/archive.go:154-167 | byte by byte: an end record starts with PK 5 6 and its comment length, least significant byte first, leads to the end of the file |
| `ZipContainer.DirectoryMeans` | services/internal/publishers/archive.go:168-236 | byte by byte: which offsets the disk numbers, counts, sizes and offsets of the directory are read from, with and without a ZIP64 record, and the limits in numbers |
| `ArchiveLedger.AddBudget` | services/internal/publishers/archive.go:266-275 | fails exactly when the unbounded sum exceeds the limit |
| `ArchiveLedger.RatioExceeded` | services/internal/publishers/archive.go:277-288 | answers exactly whether the expanded size exceeds a thousand times the compressed size, without wrapping |
| `ArchiveLedger.BuildLedger` | services/internal/publishers/archive.go:309-373 | accepts exactly the archives that meet the limits in unbounded arithmetic, and then records every entry under its own path |
| `ArchiveLedger.OverallRatio` | services/internal/publishers/archive.go:366-368 | files that are each within the ratio are within it together: the overall check never fires |
| `ArchiveLedger.NativeWithinBudget` | services/internal/publishers/archive.go:290-307 | visiting the native files in any order refuses exactly when there are too many: the check of their total never fires |
| `CatalogCache.StepKeepsInv` | services/internal/catalog/catalog.go:304-328 | every step of every interleaving keeps: the cache and the build under way have read nothing older than the latest Invalidate |
| `CatalogCache.SnapshotsAreMade` | services/internal/catalog/catalog.go:304-321 | every snapshot in the cache or given to a call was put there by some finished build, and holds contents exactly for those of its five reads that succeeded |
| `CatalogCache.CallSeesSettledChange` | services/internal/catalog/catalog.go:302-328 | a call that starts after a change was committed and Invalidate returned is given a snapshot made by some finished build; it shows the change if and only if that build's reads of every component the change touches succeeded; its age is below the lifetime |
| `CatalogCache.OneBuildAtATime` | services/internal/catalog/catalog.go:309-310 | at most one build runs, and Invalidate waits for it |
| `CatalogCache.CacheIsUsedExactly` | services/internal/catalog/catalog.go:304-321 | a call that takes the lock is answered from the cache if and only if a build has finished since the last Invalidate whose call arrived less than the time to live before it, 30 seconds unless set otherwise; told from the events alone |
| `CatalogCache.FailedReads` | services/internal/catalog/catalog.go:108-146 | a failing read ends the build with an error, except of availability and advisories |
| `CatalogCache.AnswersAreComplete` | services/internal/catalog/catalog.go:108-146 | whatever a call is given, its artifacts, withdrawals and tools have been read |
| `CatalogCache.SettledChangeCanBeMissing` | services/internal/catalog/catalog.go:119-145 | a concrete run: a failed read of the advisories is swallowed and cached, and two later calls miss a settled change |
| `CatalogCache.Service.Discard` | services/internal/catalog/catalog.go:324-328 | the method is the Invalidate step of the system |
| `CatalogCache.Service.CachedSnapshot` | services/internal/catalog/catalog.go:304-321 | a call that holds the lock, with any commits between its reads and any failing reads, is a run of the system and leaves the same cache and answer |
| `CatalogMerge.FindConflicts` | crates/useful-repository-client/src/search.rs:65-77 | flags exactly the tools that two publishers offer |
| `CatalogMerge.GroupItems` | crates/useful-repository-client/src/search.rs:79-90 | groups the items by tool, publisher and digest key, each group in input order |
| `CatalogMerge.MergeCatalog` | crates/useful-repository-client/src/search.rs:64-108 | one entry for each key that occurs, in key order: the best item, the other sources from best to worst, and the conflict flag |
| `CatalogMerge.MergeIsDetermined` | crates/useful-repository-client/src/search.rs:63-64 | the input determines the output |
| `CatalogMerge.EveryItemOnce` | crates/useful-repository-client/src/search.rs:92-106 | every input item is the primary or a mirror of exactly one entry, and nothing else is |
| `CatalogMerge.FoldsExactly` | crates/useful-repository-client/src/search.rs:82-90 | items fold if and only if publisher, tool and digest agree (without a digest also the source), or one has the digest that stands in for the missing digest of the other |
| `CatalogMerge.FoldsWrongly` | crates/useful-repository-client/src/search.rs:82-90 | items that do not agree fold if and only if publisher and tool agree and one has no digest while the digest of the other is the stand-in for it |
| `CatalogMerge.JoinsUnlikeIffImitated` | crates/useful-repository-client/src/search.rs:64-108 | a merged list joins items that do not agree if and only if the input has such a pair |
| `CatalogMerge.ProperDigestsFold` | crates/useful-repository-client/src/search.rs:82-90 | items whose digests do not look like the stand-in fold exactly when they agree |
| `CatalogMerge.ForgedDigestFolds` | crates/useful-repository-client/src/search.rs:82-85 | for every item without a digest, an item of any source with the stand-in as digest folds with it and does not agree with it |
| `CatalogMerge.HexIsNotForged` | crates/useful-repository-client/src/search.rs:82-85 | hexadecimal SHA-256 digests never do that |
| `CatalogMerge.PrimaryAndMirrors` | crates/useful-repository-client/src/search.rs:93-105 | the primary has the smallest priority number of its group and, among those, the first source in the dictionary; mirrors belong to the group, and the conflict flag means two publishers |
| `CatalogMerge.MirrorsInOrder` | crates/useful-repository-client/src/search.rs:95-105 | the mirrors are the sources of the other items of the group, the better ones first |
| `CatalogMerge.EntriesInOrder` | crates/useful-repository-client/src/search.rs:79-92 | entries come by tool, then publisher, then digest, and no two share all three |
| `CatalogMerge.OrderDoesNotMatter` | crates/useful-repository-client/src/search.rs:64-108 | permuting the input changes nothing when no source lists a publisher's tool twice |
| `LruCache.Cache.constructor` | crates/useful-media/src/thumbnail.rs:100-106 | starts empty with a capacity of at least one |
| `LruCache.Cache.Get` | crates/useful-media/src/thumbnail.rs:108-115 | gives the stored value and makes the key the most recent; a miss changes nothing |
| `LruCache.Cache.Put` | crates/useful-media/src/thumbnail.rs:122-138 | stores the value as the most recent; evicts exactly the oldest entry, and only for a new key in a full cache |
| `LruCache.Cache.Touch` | crates/useful-media/src/thumbnail.rs:147-152 | moves the key to the recent end of the queue |
| `LruCache.CacheIsRecentHistory` | crates/useful-media/src/thumbnail.rs:93-153 | over every run the cache is the recent end of the list of all entries ever put, ordered by last use |
| `LruCache.HistoryRemembers` | crates/useful-media/src/thumbnail.rs:108-138 | that list holds exactly the keys ever put, each with the value put last |
| `LruCache.CacheByLastUse` | crates/useful-media/src/thumbnail.rs:128-138 | the queue is in the order of last use, so the first to be evicted is the least recently used |
| `LruCache.LookupGivesLastPut` | crates/useful-media/src/thumbnail.rs:108-115 | a lookup gives the value put last if and only if fewer than capacity other keys have been used since |
| `SnapshotDiff.KeyIsInjective` | crates/useful-procmon/src/identity.rs:21-24 | different processes never share the pid:start key |
| `SnapshotDiff.KeyExample` | crates/useful-procmon/src/identity.rs:21-24 | the key of process 12 started at 345 is 12:345 |
| `SnapshotDiff.BuildMap` | crates/useful-procmon/src/diff.rs:9-15 | a map built from samples has exactly the sampled processes, each under its own key |
| `SnapshotDiff.MapHasLastSamples` | crates/useful-procmon/src/diff.rs:9-15 | each of them as it was sampled last |
| `SnapshotDiff.Diff` | crates/useful-procmon/src/diff.rs:21-49 | lists each added, updated and removed process exactly once, in order, however the maps are walked |
| `SnapshotDiff.DeltaIsDetermined` | crates/useful-procmon/src/diff.rs:44-48 | two snapshots have one difference only |
| `SnapshotDiff.DeltaInOrder` | crates/useful-procmon/src/diff.rs:44-48 | added processes come by pid and start time, changed and gone ones by key |
| `SnapshotDiff.ProcTable.ApplyDelta` | apps/useful/src/lib/procTable.ts:34-45 | replaying a difference on the rows of the first snapshot: new processes come as they are, gone ones go, and a row that stays takes the new sampled values and keeps its own static part |
| `SnapshotDiff.TableShowsLatest` | crates/useful-procmon/src/diff.rs:17-49 | over every run of samples the replayed table is the latest sample, except that a process keeps the static part it appeared with |
| `SnapshotDiff.TableIsLatest` | crates/useful-procmon/src/diff.rs:17-49 | it is exactly the latest sample if and only if no process has changed its static part since it appeared |
| `SnapshotDiff.StaticPartCanLag` | crates/useful-procmon/src/diff.rs:17-49 | for every process and every change of its static part between two samples, the table keeps the old one and is not the latest sample |
| `FormEncoding.UrlEncode` | crates/useful-source-accounts/src/session.rs:163-174 | the loop writes the encoding that the round trips below are about |
| `FormEncoding.EncodedOne` | crates/useful-source-accounts/src/session.rs:163-174 | letters, digits and the four unreserved marks are written as they are, every other byte as a percent sign and two upper-case hexadecimal digits |
| `FormEncoding.EncodedConcat` | crates/useful-source-accounts/src/session.rs:163-174 | a text is encoded byte by byte |
| `FormEncoding.UrlDecode` | crates/useful-source-accounts/src/session.rs:176-202 | for every text: no result if and only if some percent sign is followed by bytes around which the text cannot be cut, where the code panics; otherwise each position outside an escape is read by itself |
| `FormEncoding.PairMeans` | crates/useful-source-accounts/src/session.rs:182-188 | two bytes are read as two hexadecimal digits of either case, or as a plus sign and one |
| `FormEncoding.PositionMeans` | crates/useful-source-accounts/src/session.rs:182-199 | a position that starts no escape stands for itself, a plus sign for a space |
| `FormEncoding.DecodesLocally` | crates/useful-source-accounts/src/session.rs:176-202 | the scanning definition of decoding agrees with the position-by-position one on all texts |
| `FormEncoding.CutExample` | crates/useful-source-accounts/src/session.rs:182-188 | a concrete text without a result: a percent sign, a letter and a two-byte character |
| `FormEncoding.EncodeThenDecode` | crates/useful-source-accounts/src/session.rs:163-202 | decoding recovers every encoded byte string |
| `FormEncoding.PiecesBetweenAmpersands` | crates/useful-source-accounts/src/session.rs:135-135 | the pieces of a query are what stands between its ampersands |
| `FormEncoding.CutPieceMeans` | crates/useful-source-accounts/src/session.rs:136-139 | the name of a field has no equals sign, and all that follows the first one is its value |
| `FormEncoding.FromQuery` | crates/useful-source-accounts/src/session.rs:133-147 | no result if and only if the value of some piece cuts a character; otherwise the result has, for each name, the value of the last piece with that name, read position by position |
| `FormEncoding.CutQueryExample` | crates/useful-source-accounts/src/session.rs:133-147 | such a value gives no result for the whole query, whatever the name of its field |
| `FormEncoding.QueryRoundTrip` | crates/useful-source-accounts/src/session.rs:63-147 | a query built from encoded values is read back whole; of fields with one name the last counts |

## Left out

- Ed25519, SHA-256, JSON parsing and serialization, TLS and HTTP, SQL text: foreign code or plumbing; they appear as functions or parameters.
- Error texts: errors keep their kind, roles and counts, not their messages.
- TufTrust.VerifyRoleDoc: asks for documents whose objects have distinct keys, which the JSON parser guarantees.
- Role definitions given as JSON arrays, which the deserializer would also take, are treated as malformed.
- Lower-casing of target digests is modelled for ASCII letters only; other characters cannot match a hexadecimal digest.
- The lookup in a metadata source is a fixed map for one verification; a source that changes between two reads is not modelled, because each name is read at most once.
- TrustStore.HistoryOnlyAdvances: speaks of sources that are not removed, because removal forgets (see above).
- Writes of other columns, the recovery of a corrupted database file, and schema migrations, which would add only that a prefix of a list has been applied.
- Directories are maps from relative file names to bytes: empty directories, permissions and links are not represented, and a staging directory holds at least one file.
- Fresh names (UUID suffixes, the time-stamped backup directory) are assumed not to exist yet, and the backup directory of an update is assumed to hold nothing else.
- The text of the recovery marker; the marker itself is modelled, and a version counts as whole when all files except the marker are.
- AppUpdate.StopThenRollback: assumes that the listed files lie outside the staging and backup directories, and says nothing about the bytes of files that a failing existence test hid from the backup; those are returned. What is as before besides the listed files is not stated for updates that list a file named like a temporary; while look-ups tell the truth the loop never gets past such a file.
- AppUpdate.Rollback: `cmd_apply` in the bootstrap does not call it when `apply_update` fails half-way; the model composes the two as a caller would.
- Availability.DueObjectIsProbedInTime: a sweep whose list of published objects cannot be read counts as one that is cut short at once.
- RateLimiter.AnswerAll: assumes calls in time order; the server takes the time before the lock, so two concurrent calls can arrive out of order by that much. The compacted slice is copied out of and back into the map, so sharing of its storage is not represented.
- The fate of a job in `run_reaper`, which polls every job and drops the finished ones.
- LineReader.ProgressReader.NextLine: lines are bytes; the lossy conversion to text afterwards is not modelled.
- ArchiveLedger.BuildLedger: whether a path is safe, its normalized form, the mode and the native suffix are properties of the entry; the parsing behind them is left out.
- Cancellation of a request during the archive preflight, and read failures other than short reads.
- CatalogCache.CallSeesSettledChange: of a snapshot only its reads are modelled; how entries are aggregated from them is left out.
- CatalogMerge.MergeCatalog: the fields that merging only carries along are one string.
- SnapshotDiff.Diff: sampled values are compared as values; the floating-point case of a value that differs from itself is not modelled. The replay follows `apps/useful/src/lib/procTable.ts`.
- FormEncoding.UrlDecode: works on bytes; the lossy conversion to text afterwards is not modelled.
- The user interface, OAuth pages, Win32 calls, process spawning, media pointer files, manifest and URL checks, entitlement tables: long conjunctions or calls into systems outside the model.
