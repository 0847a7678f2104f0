# Verified model of the evidence-sealing system

A Dafny model of the core of a system that seals digital evidence: a desktop encrypts
files into segmented AES-GCM containers, seals, unseals and reseals records under a
policy lineage and splits the key into four shares; a web host stores records and shares
and releases a key only through one gate. Each module models one part of the code; the
proofs are about every input and every run of it. `dafny verify dfyconfig.toml` checks
the whole project.

| file | models |
|---|---|
| `Bytes.dfy`, `Text.dfy` | bytes, exclusive-or, little-endian integers, overwriting a file; decimal texts |
| `Container.dfy` | the container format: chunks, segments, header, tail, and a reference decryptor |
| `Encrypt.dfy` | `encrypt_file` with its progress file, as a class whose runs may stop inside any write |
| `Integrity.dfy`, `Decrypt.dfy` | which files of bytes open as a container, exactly; `decrypt_file` over a directory of files |
| `Policies.dfy`, `Selection.dfy` | a record's classified policy; the two scans and `select_record` |
| `SelectionRuns.dfy`, `Rollback.dfy`, `InterleavedScans.dfy` | records, mark and enrollment of a seal under admissions, releases, back-fills, uploads and out-of-band writes; exactly which runs let a decision fall back; scans that read record by record while admission goes on |
| `Shares.dfy`, `TriedNote.dfy` | order and search of stored shares; the note about what was tried |
| `Gate.dfy`, `ReleaseLaws.dfy` | the three release paths; what releases and what denies on each, in terms of the stored rows, the policy and the presented share |
| `ReleaseGate.dfy`, `ReleaseSafety.dfy` | the guard and the audit row; selection and gate over whole runs |
| `Lineage.dfy`, `Generations.dfy`, `Governing.dfy`, `LineageLimits.dfy`, `Desktop.dfy` | sealing, unsealing and resealing sessions over one stored row; policy generations; the fields an unsealing carries; exactly which runs keep both; the store and the processes as classes |
| `ShareTable.dfy` | the share table under uploads, removals and repeated forms |
| `SyncNonces.dfy` | replay protection of signed sync envelopes |
| `StrictSplit.dfy` | strict XOR splitting |
| `BatchPlanner.dfy`, `Classifier.dfy` | the greedy batch planner; the size-prefiltered classifier |

## What is taken as given

- AES-GCM is counter mode over any key stream, with any tag function of key, nonce and
  ciphertext; hashes, key fingerprint and key recombination are any functions. They are
  fields of `Env`, `Host` and `Site`, so every result holds for all of them. The one law
  asked of the JSON codec is that decoding undoes encoding (`Env.Lawful`).
- Where a result needs a hash or fingerprint to tell values apart, it says so. For the
  values at hand: `Encrypt.Workspace.Distinguishes`, `Classifier.NoCollision`. For one
  value against all others: `Decrypt.IsOnlyOne`. For all record texts that classify as
  authentic: `Host.DigestsBind`, by which a policy digest fixes the generation.
- A run of `encrypt_file` that may stop (`mayStop`: an error, a cancellation, a kill) may stop
  after any byte of any write. Bytes written stay written. A progress file is replaced
  atomically. The random nonce of each chunk is an input of the run.
- History events are unique, and a resealing's key is committed to by no record that it
  continues. Each record text has one fixed classification. Row ids of the share table are
  never reused.
- Database transactions are single steps. In the runs a release reads the mark and the records
  of its seal in one step and writes the mark in a later one; `InterleavedScans` shows that
  scans which read record by record, while sync admission goes on, choose the same.
- The latest-record lookups of a release agree with its record selection when that found
  no record: they find nothing.

## Where the code does less than its documentation says

- `src/web/sync_auth.py:28-31` says that pruning can never re-admit an envelope inside any
  window. The nonce is claimed later than the envelope is checked, so the delay counts:
  replay is impossible exactly when window plus delay is less than 3601 seconds
  (`SyncNonces.ReplayFreeExactly`).
- `src/desktop/policy_generation.py` promises a generation above both the loaded and the stored
  record. That holds of the number computed; the record carries it only when a policy signer is
  configured, and a resealing without one lowers the stored generation to 0
  (`LineageLimits.UnsignedResealLowers`).
- History events are "only ever appended" (`src/desktop/db/sqlite_store.py:776-780`), but an
  event with an empty investigator is refused and the old history kept
  (`src/desktop/reseal_process.py:409-419`). Two resealings of one record can then both be
  saved, the second without raising the generation (`LineageLimits.BlankInvestigatorStalls`).
  And an unsealing checked before such a resealing was saved is still saved after it: it replaces
  the resealed record by the old governing fields and lowers the stored generation
  (`LineageLimits.BlankInvestigatorLowers`). The resealing wizard asks for a name; the process does not.
- `check_unseal_save` compares before the write lock is taken. When it found no stored record, one
  stored since can be replaced by an unseal record with other governing fields
  (`LineageLimits.UncheckedUnsealChangesGoverning`).
- The exact conditions, over all runs: the stored generation never falls, and every newly
  saved resealing raises it, exactly when every resealing signs and every investigator is named
  (`LineageLimits.NeverFallsExactly`, `ResealsRaiseExactly`); unseal saves keep the governing
  fields exactly when every investigator is named and the check saw a stored record
  (`UnsealsKeepGoverningExactly`).
- A stale progress file that cannot be both read and removed is only logged
  (`src/desktop/crypto/aes_gcm_encrypt.py:362-375`, `543-545`) and stays as it was. `EncryptFile`
  therefore keeps its invariant for the next run only when the file could be read and removed,
  or when the run returned; `RestartOverLeftover` reaches the broken state and says exactly when
  it is broken.
- "Mark equals the highest generation" (`src/web/release_selection.py:20-23`) fails for a record
  written outside sync admission between a release's full scan and the write of its mark: it can
  be decided on and then no more (`SelectionRuns.OutOfBandDuringBackfillRollsBack`). For every
  run, decisions never fall back exactly when no back-fill is stale
  (`Rollback.DecisionsNeverFallExactly`), and a back-fill is stale exactly when a higher policy was
  written out of band after its scan (`Rollback.StaleBackfillExactly`).

## Model

| member | source | states |
|---|---|---|
| Container.ChunksCover | src/desktop/crypto/aes_gcm_encrypt.py:91-94 | for every file size and chunk size the chunks start at multiples of the chunk size and the last one ends where the file ends; no chunk is empty but the one of an empty file |
| Container.ChunkWithinGcmLimit | src/desktop/crypto/aes_gcm_encrypt.py:22-30 | every chunk of an allowed size obeys the plaintext limit of section 5.2.1.1 of NIST SP 800-38D |
| Container.Env.CtrStreams | src/desktop/crypto/aes_gcm_encrypt.py:58-63 | feeding a message in two pieces gives the bytes of the one-shot call |
| Container.Env.CtrInverts | src/desktop/crypto/aes_gcm_decrypt.py:300-317 | decrypting a ciphertext under the same key and nonce gives the plaintext back |
| Integrity.CtrIsKeyStream | src/desktop/crypto/aes_gcm_decrypt.py:300-317 | ciphertext and plaintext differ by the key stream, byte by byte |
| Bytes.XorZero | src/desktop/crypto/aes_gcm_decrypt.py:300-317 | exclusive-or with zero changes nothing, so with its cancellation it is no other operation |
| Bytes.LittleEndianByte | src/desktop/crypto/aes_gcm_encrypt.py:325-341 | byte i of a written number is its i-th lowest base-256 digit |
| Container.Env.SegmentsSize | src/desktop/crypto/aes_gcm_encrypt.py:222-225 | the written segments take exactly the plaintext so far plus one tag each |
| Container.Env.SegmentsOpen | src/desktop/crypto/aes_gcm_decrypt.py:281-335 | reading a data region of genuine segments from any segment on gives exactly the rest of the source |
| Container.Env.FinishReads | src/desktop/crypto/aes_gcm_decrypt.py:218-258 | header and tail parsing undo the writing of metadata of less than 2^32 bytes |
| Container.Env.FinishedOpens | src/desktop/crypto/aes_gcm_encrypt.py:299-341 | a finished container decrypts to exactly its source with its own or the true hashes, whatever stale bytes lie between segments and metadata |
| Encrypt.LengthsCoverSource | src/desktop/crypto/aes_gcm_encrypt.py:222-225 | the recorded lengths sum to the source size, so the data region is the source and one tag per segment |
| Encrypt.Workspace.Discard | src/desktop/crypto/aes_gcm_encrypt.py:362-375 | each of the two files goes exactly when it is asked for and can be removed |
| Encrypt.Workspace.LoadProgress | src/desktop/crypto/aes_gcm_encrypt.py:412-545 | taken up exactly when it is readable and passes all four guards; otherwise exactly which of the two files goes: none for a file that is not comparable, only the progress file when its lists disagree, both else |
| Encrypt.Workspace.EncryptSegment | src/desktop/crypto/aes_gcm_encrypt.py:241-272 | the buffered loop writes the one-shot segment behind the earlier ones, and stopping inside any write leaves those as they were |
| Encrypt.Workspace.SaveProgress | src/desktop/crypto/aes_gcm_encrypt.py:378-409 | the progress file names this run's source, key and finished segments, or is the old one |
| Encrypt.Workspace.WriteEncryptedData | src/desktop/crypto/aes_gcm_encrypt.py:198-296 | finished segments are kept, all segments end up in step with the three lists, and a run stopped anywhere leaves a sound workspace |
| Encrypt.Workspace.WriteMetadataAndFinalize | src/desktop/crypto/aes_gcm_encrypt.py:299-341 | three writes behind the data; stopping inside any of them leaves the data region unchanged |
| Encrypt.Workspace.AcceptedIsBoundary | src/desktop/crypto/aes_gcm_encrypt.py:448-542 | what the guards accept is the work of a run with this key on this source |
| Encrypt.Workspace.OwnProgressIsAccepted | src/desktop/crypto/aes_gcm_encrypt.py:104-113 | what a run records is accepted by the next run with its key on its source, which then resumes |
| Encrypt.Workspace.EncryptFile | src/desktop/crypto/aes_gcm_encrypt.py:44-183 | whatever earlier runs left, a run that returns leaves a container that opens with its key to exactly its source; a run that finds acceptable progress keeps its segments byte for byte and its metadata lists start with the recorded ones, each further nonce being the one drawn for its chunk; a run that does not stop returns, unless a size exceeds its field; a bad key or chunk size changes nothing |
| Encrypt.Workspace.EncryptRepeatedly | src/desktop/crypto/aes_gcm_encrypt.py:104-171 | after any number of runs, stopped anywhere, with keys and sources the guards tell apart, the last run that returns leaves its own container |
| Encrypt.Workspace.RestartOverLeftover | src/desktop/crypto/aes_gcm_encrypt.py:362-375 | a restart under another key over a progress file that cannot be both read and removed, stopped after its first segment, leaves a sound workspace exactly when the old file describes that segment; else the old run takes it up and nothing that follows decrypts |
| Decrypt.Directory.DecryptSegment | src/desktop/crypto/aes_gcm_decrypt.py:281-335 | the buffered loop gives the reference result, and only the temporary file grows |
| Decrypt.Directory.DecryptChunks | src/desktop/crypto/aes_gcm_decrypt.py:261-335 | the hashers see exactly what was written, which is the reference plaintext when all segments verify |
| Decrypt.Directory.DecryptFile | src/desktop/crypto/aes_gcm_decrypt.py:26-203 | on any bytes the output name changes only to content of genuine segments each of whose hashes, given or recorded, is the true one; on every failure no file but a temporary one differs |
| Integrity.ReadMetadataExactly | src/desktop/crypto/aes_gcm_decrypt.py:218-258 | metadata is read exactly when the file is header, data, metadata and length, and the first and the last agree on where it lies |
| Integrity.SegmentsExactly | src/desktop/crypto/aes_gcm_decrypt.py:281-335 | the data region opens exactly when every segment is followed by its recorded tag and that is the tag of its ciphertext; it counts as tampered with exactly when the first segment of which this fails is all there |
| Integrity.SegmentsPlaintext | src/desktop/crypto/aes_gcm_decrypt.py:281-335 | what it opens to is the decryption of each segment, at its place |
| Integrity.DecryptExactly | src/desktop/crypto/aes_gcm_decrypt.py:107-194 | a file opens exactly when the key is a key, its metadata readable, every segment genuine and each hash, given or recorded, the plaintext's, one of each kind at least |
| Integrity.TamperExactly | src/desktop/crypto/aes_gcm_decrypt.py:338-372 | a file is reported as tampered with exactly when a forged segment is all there or a hash is missing or wrong |
| Integrity.OwnHashesDecide | src/desktop/crypto/aes_gcm_decrypt.py:338-372 | without an external reference, what opens has the hashes that the container records |
| Integrity.ConflictIsRefused | src/desktop/crypto/aes_gcm_decrypt.py:338-372 | a recorded hash that differs from a given one is refused, whatever the plaintext |
| Decrypt.DecryptAgainstOriginal | src/desktop/crypto/aes_gcm_decrypt.py:107-194 | with the external SHA-256 of an original, a successful run changes one name, to content with that digest, to the original itself where nothing shares its digest |
| Decrypt.ExternalReferenceDecides | src/desktop/crypto/aes_gcm_decrypt.py:338-372 | what decrypts against an external SHA-256 has that digest, and is the original where nothing shares it |
| Decrypt.MissingHashFailsClosed | src/desktop/crypto/aes_gcm_decrypt.py:338-372 | a container stripped of a hash never decrypts without an external reference |
| RecordSelection.Host.ScanAll | src/web/release_selection.py:177-196 | the full scan picks the newest record of the highest authenticated generation, lists every unauthenticated event and counts lower generations |
| RecordSelection.Host.ScanToMark | src/web/release_selection.py:199-220 | the scan to the mark picks the newest record carrying exactly its policy, reads nothing older, and counts every record read before in its own class |
| RecordSelection.Host.CountBelowIs | src/web/release_selection.py:177-196 | the count of lower generations is the number of authentic records of a generation below the chosen one |
| RecordSelection.Host.CountIgnoredIs | src/web/release_selection.py:199-220 | the two counts are the numbers of authentic records of another policy, below the mark and not |
| RecordSelection.Host.FastScanIsFullScan | src/web/release_selection.py:199-220 | when the mark is the top record's policy, both scans pick the same record |
| RecordSelection.Host.StoredMaximum | src/web/release_selection.py:109-121 | the stored maximum is the top record, none only when no record is authentic |
| RecordSelection.SealRows.SelectRecord | src/web/release_selection.py:81-106 | which record decides, when the seal is denied on every path, when v1.0.1 applies, and what is written to mark and enrollment, field by field |
| Policies.AuthenticMeans | src/web/release_selection.py:173-174 | authentic is a policy found verified, or verified but expired |
| SelectionRuns.AdmissionOfPolicy | src/web/routes/sync.py:491-627 | a record with an authenticated policy is stored, enrolls the seal and sets the mark, unless it meets an authenticated record, is a copy, or loses to the mark or the stored maximum |
| SelectionRuns.AdmissionAgain | src/web/routes/sync.py:491-627 | the same record again completes what was stored and enrolls the seal |
| SelectionRuns.AdmissionWithoutPolicy | src/web/routes/sync.py:491-627 | a record without an authenticated policy is stored only at an empty event of a seal that is not enrolled, never with an invalid one, and moves nothing else |
| SelectionRuns.AdmissionKeepsMarkIsTop | src/web/routes/sync.py:422-455 | every admission leaves the mark at the top authenticated policy among the stored records |
| SelectionRuns.ReachableMarkIsTop | src/web/routes/sync.py:491-627 | in every reachable state the mark, and every mark still to be written, is the top policy |
| SelectionRuns.FastSelectionRefinesFullScan | src/web/release_selection.py:20-25 | in every state reachable by admissions, releases, back-fills and uploads, the record found at the mark is the one the full scan would choose, and exists |
| SelectionRuns.SeedingReleaseRepeats | src/web/release_selection.py:275-292 | the release that seeds the mark and every repeat of it rest on the same record |
| SelectionRuns.UploadTagIsCurrent | src/web/share_upload.py:112-144 | every upload is tagged with the highest authenticated generation at its commit, 0 without an authentic record, for every interleaving since it read the records |
| SelectionRuns.MarkNeverFalls | src/web/models/sync_models.py:82-136 | the mark's generation and the enrollment never fall, whatever is written out of band |
| SelectionRuns.NoFallbackNoRollback | src/web/release_selection.py:91-106 | after a mark every decision rests on a policy of at least its generation or is denied; after an enrollment none falls back |
| SelectionRuns.DecisionsNeverFall | src/web/release_selection.py:177-196 | with sync admission alone, decisions never fall back in generation, marked or not |
| Rollback.FallsBackExactly | src/web/release_selection.py:81-106 | for every run, out-of-band writes included, a later decision rests on a policy, of a lower generation exactly when a mark below the earlier one appeared in between |
| Rollback.DecisionsNeverFallExactly | src/web/release_selection.py:275-292 | for every run, decisions never fall back exactly when no back-fill writes a mark below a stored authenticated generation |
| Rollback.StaleBackfillExactly | src/web/release_selection.py:275-281 | a back-fill does so exactly when a higher policy was written out of band after the scan that found its seed |
| InterleavedScans.FullScanWasTop | src/web/models/release_models.py:503-519 | a full scan that reads record by record during admissions chooses a policy that was the top one at some moment of it, the top record itself if there is no mark in the end |
| InterleavedScans.EmptyFullScan | src/web/models/release_models.py:503-519 | such a scan finds nothing only when no record was authentic at its start |
| InterleavedScans.MarkScanWasTop | src/web/models/release_models.py:503-519 | such a scan down to a mark finds a record, whose policy was the top one when the mark was read |
| SelectionRuns.OutOfBandDuringBackfillRollsBack | src/web/release_selection.py:275-292 | a higher policy written out of band before a back-fill is decided on and then superseded by the lower mark |
| Shares.ByPreferenceKeepsRows | src/web/release_shares.py:111-114 | sorting by preference keeps every row with its multiplicity |
| Shares.PrecedesMeans | src/web/release_shares.py:111-114 | the asked generation first, then higher generations, then lower slots |
| Shares.SortedPairwise | src/web/release_shares.py:111-114 | in the sorted list every earlier row is preferred to every later one |
| Shares.FindFirstMatch | src/web/release_shares.py:184-206 | the loop returns the value of the recursive search |
| Shares.FirstMatchIsFirst | src/web/release_shares.py:184-206 | the result is the first hit in order; without one it says whether any attempt recombined |
| Shares.OwnerSearchIsExact | src/web/release_shares.py:127-138 | a key is found iff some owner share matches; it is that of the most preferred one |
| Shares.AdminSearchIsExact | src/web/release_shares.py:141-164 | a key is found iff some s4 with some other share matches; it is that of the most preferred pair |
| Shares.WrongRowsChangeNothing | src/web/release_shares.py:127-138 | extra owner rows that match nothing neither block the search nor change its result |
| Shares.WrongRowsChangeNoPair | src/web/release_shares.py:141-164 | the same for extra s4 and other rows on the admin path |
| TriedNote.Note | src/web/release_shares.py:219-248 | the whole list when it fits, else exactly the longest prefix that fits together with its own count of at least 1 |
| TriedNote.EntryReads | src/web/release_shares.py:285-286 | how a share, an attempt and a note of any number of attempts read |
| TriedNote.CountIsTheRest | src/web/release_shares.py:240-248 | kept and left-out entries are together all that were tried |
| TriedNote.ShortenedGrows | src/web/release_shares.py:240-248 | a further entry makes the note longer although its count may lose a digit |
| TriedNote.WithinBudget | src/web/release_shares.py:219-248 | the shortened note keeps within a budget of 48 or more exactly when, shown alone, the count is short enough, as every count below 10^13 is |
| Gate.UnwrapFirst | src/web/release_gate.py:558-578 | the newest envelope that authenticates, and how many newer ones were skipped |
| Gate.OwnerReleaseIsExact | src/web/release_gate.py:398-409 | a release iff an owner share matches the commitment, from the most preferred one; recovery_failed iff none recombines |
| Gate.StandardIsExact | src/web/release_gate.py:368-451 | the standard path releases exactly when table, unlock time and some owner share allow it |
| Gate.TimelockIsExact | src/web/release_gate.py:467-555 | the time-locked path releases exactly when the table cell, the clock, genTime minus accuracy (section 2.4.2 of RFC 3161), digest, envelope and commitment agree |
| Gate.AdminIsExact | src/web/release_gate.py:614-695 | the admin path releases exactly when table, operator, reason and some pair allow it; flagged releases use generation-0 shares only |
| Gate.GenerationZeroIs | src/web/release_shares.py:172-181 | the flagged pair is s4 and the lowest other filled slot, both of generation 0 and usable |
| Gate.DeniedByTable | src/web/release_gate.py:11-43 | with usable shares a denying cell of the table decides, with its own reason, on each path; a seal without a record is denied on the standard path as commitment_missing, or policy_required when set |
| Gate.StandardDenialIsExact | src/web/release_gate.py:385-409 | recovery_failed iff no owner share recombines; commitment_mismatch iff some does and none matches |
| Gate.AdminDenialIsExact | src/web/release_gate.py:655-668 | the same over every s4 with every other share |
| Gate.EnrolledDenialIsEverywhere | src/web/release_gate.py:51-57 | a seal with a mark or an enrollment and no usable policy is denied on all three paths |
| ReleaseLaws.TableIsAsDocumented | src/web/release_gate.py:11-43 | every cell of the documented table of statuses and paths |
| ReleaseLaws.HexShareMeans | src/web/release_shares.py:61-62 | a presented share is its slot, a dash and 1 up to the given number of lower-case hexadecimal digits |
| ReleaseLaws.StandardByPolicy | src/web/release_gate.py:385-409 | for an authenticated policy: released iff its unlock time was reached and a stored share of slot 1 and s2 recombine in the policy's mode to a key it commits to; the released key is such a one |
| ReleaseLaws.StandardByLegacy | src/web/release_gate.py:412-451 | for a legacy record: the same by the latest record's mode, unlock time and commitment |
| ReleaseLaws.TimelockReleases | src/web/release_gate.py:467-555 | a released key is recombined from s2 and the newest authentic s3, with a stored share 1 in strict mode and without in standard mode, past the token's time |
| ReleaseLaws.AdminByPolicy | src/web/release_gate.py:655-668 | for an authenticated policy: released iff an s4 and another stored share recombine in its mode to a key it commits to; the released key is such a one |
| ReleaseLaws.AdminFlagged | src/web/release_gate.py:671-695 | the flagged release recombines the generation-0 pair in the latest record's mode, without a commitment |
| ReleaseLaws.StandardDenials | src/web/release_gate.py:368-395 | which denial a missing or malformed owner share, or an early clock, leads to |
| ReleaseLaws.LegacyDenials | src/web/release_gate.py:412-451 | which denial each unresolvable, missing or unreached term of a legacy record leads to, in the order of its checks |
| ReleaseLaws.TimelockDenials | src/web/release_gate.py:467-508 | which denial a status, a missing configuration or a strict seal's owner share leads to |
| ReleaseLaws.TimelockLaterDenials | src/web/release_gate.py:511-555 | which denial comes of the missing envelope, the two clocks, the digest, the key service, the envelopes and s3, in the order of the checks |
| ReleaseLaws.AdminDenials | src/web/release_gate.py:614-652 | which denial comes of the operator, the reason, too few filled slots, and missing or malformed shares |
| ReleaseGate.AuditTrail.Finish | src/web/release_gate.py:749-796 | one audit insert; a key leaves only if it succeeded |
| ReleaseGate.AuditTrail.Guarded | src/web/release_gate.py:307-335 | one insert per attempt, on errors and unmet preconditions too, with the path, status, operator and reason of the decision; allowed iff the decision was a release and the insert succeeded |
| ReleaseGate.AuditTrail.ReleaseStandard | src/web/release_gate.py:274-279 | allowed iff s2 is well-formed, the insert succeeded, the unlock time was reached and a stored share of slot 1 recombines with s2, in the mode of the policy or else of the latest record, to a key it commits to; the released key is such a one; the audit row says what was decided and why |
| ReleaseGate.AuditTrail.ReleaseTimelock | src/web/release_gate.py:282-287 | allowed iff a well-formed s2, a successful insert and the time-locked path's conditions; the released key is recombined from s2 and the newest authentic s3 |
| ReleaseGate.AuditTrail.ReleaseAdmin | src/web/release_gate.py:290-304 | allowed iff a successful insert, a named operator, a reason and, for an authenticated policy, a stored pair that recombines in its mode to a key it commits to; the released key is such a one |
| ReleaseSafety.MarkedReleasesAreBacked | src/web/release_gate.py:31-57 | over every run, once a seal has a mark or an enrollment, no path releases a key that does not match an authenticated policy's commitment, of at least the mark's generation |
| ReleaseSafety.SelectForRelease | src/web/release_selection.py:81-106 | `select_record` decides as the runs do, and what it writes is their release and their back-fill |
| Lineage.ResealRaisesExactly | src/desktop/reseal_process.py:487-500 | a built reseal record raises the generation iff a policy is signed, and extends the history iff the investigator is named |
| Lineage.ResealBuilds | src/desktop/reseal_process.py:369-532 | every field of the record that a resealing builds, and exactly when it builds none |
| Lineage.UnsealAndSealBuild | src/desktop/unseal_process.py:330-454 | every field of the record that an unsealing or a sealing builds |
| Lineage.UnsealGuards | src/desktop/seal_mode_guard.py:116-183 | an unsealing is refused, at U3 and at U7, exactly for a difference in mode, unlock time, commitment or policy, a mode its policy contradicts, or a history that does not continue the stored one |
| Lineage.SaveMeans | src/desktop/db/sqlite_store.py:769-831 | when a save goes through, what it leaves, and why else it does not |
| Lineage.CaseCreated | src/desktop/db/sqlite_store.py:773-786 | a registration replaces no row, and only the bundle that claims it does |
| Lineage.FreshEventIsLast | src/desktop/record/history_manager.py:64-94 | a history extended by a new event is a prefix of no older one |
| Lineage.StepKeepsInvariant | src/desktop/db/sqlite_store.py:769-831 | each step of any session keeps: history prefix order preserves the mode over all records ever written |
| Lineage.StoredLineage | src/desktop/db/sqlite_store.py:773-786 | in every run a stored history only grows by extension, the mode never changes, a strict record keeps a policy |
| Lineage.SavedKeyIsSplitByItsMode | src/desktop/reseal_process.py:562-580 | whatever a sealing or resealing saves, its key was split by that record's mode |
| Generations.StepKeepsRanked | src/desktop/policy_generation.py:38-56 | each step keeps: history prefix order implies generation order over all records ever written, and equal generations equal governing fields |
| Generations.GenerationNeverFalls | src/desktop/policy_generation.py:38-56 | with signed resealings and named investigators the stored generation never falls |
| Generations.NewResealRaises | src/desktop/reseal_process.py:626-636 | every newly saved resealing raises it strictly |
| Governing.StepKeepsGoverning | src/desktop/seal_mode_guard.py:142-183 | with named investigators each step keeps: whatever lies between two written records with the same governing fields has them too |
| Governing.CheckedUnsealKeepsGoverning | src/desktop/seal_mode_guard.py:245-266 | with named investigators, signed or not, an unseal save whose check saw a stored record leaves mode, unlock time, commitment and policy unchanged, however the row moved in between |
| LineageLimits.UnsignedResealLowers | src/desktop/reseal_process.py:487-500 | a reachable resealing without a signer lowers the stored generation to 0 |
| LineageLimits.BlankInvestigatorStalls | src/desktop/reseal_process.py:405-419 | a reachable resealing is saved without raising the generation after one with a blank investigator |
| LineageLimits.BlankInvestigatorLowers | src/desktop/reseal_process.py:405-419 | after one with a blank investigator, a reachable unseal save that was checked against the stored record changes its governing fields and lowers the generation |
| LineageLimits.UncheckedUnsealChangesGoverning | src/desktop/unseal_process.py:478-486 | a reachable unseal save, checked when nothing was stored, changes governing fields |
| LineageLimits.NeverFallsExactly | src/desktop/policy_generation.py:38-56 | over all runs the stored generation never falls iff every resealing signs and every investigator is named |
| LineageLimits.ResealsRaiseExactly | src/desktop/reseal_process.py:626-636 | every newly saved resealing raises it iff the same holds |
| LineageLimits.UnsealsKeepGoverningExactly | src/desktop/seal_mode_guard.py:245-266 | unseal saves keep the governing fields of the stored record iff every investigator is named and the check saw a stored record |
| Desktop.SealStore.RequireSameSeal | src/desktop/db/sqlite_store.py:769-831 | a row is replaced only by a continuation of its history or by the bundle that claims its registration |
| Desktop.SealStore.SaveSealBundle | src/desktop/db/sqlite_store.py:223-296 | the save of the runs; the stored history only grows |
| Desktop.SealStore.SaveSealRecord | src/desktop/db/sqlite_store.py:141-190 | the same with the lineage rule, never claiming a registration |
| Desktop.SealStore.NextPolicyGeneration | src/desktop/policy_generation.py:38-103 | above both the loaded and the stored generation, or refused at the maximum |
| Desktop.ResealProcess.RunR1Load | src/desktop/reseal_process.py:115-156 | loads exactly the records the runs' guard admits, keeping what later steps left |
| Desktop.ResealProcess.RunR6Record | src/desktop/reseal_process.py:369-532 | builds the runs' record, every field stated, or keeps the earlier one when it refuses |
| Desktop.ResealProcess.RunR7SplitKey | src/desktop/reseal_process.py:538-599 | splits by the new record's mode iff it is the loaded one's |
| Desktop.ResealProcess.RunR8Save | src/desktop/reseal_process.py:605-656 | saves the R6 record as the runs do |
| Desktop.UnsealProcess.RunU3Validate | src/desktop/unseal_process.py:115-165 | loads exactly the records whose mode its policy confirms and, where a record is stored, whose mode, unlock time, commitment and policy are the stored ones and whose history continues it |
| Desktop.UnsealProcess.RunU6Record | src/desktop/unseal_process.py:330-454 | builds the runs' record |
| Desktop.UnsealProcess.CheckUnsealSave | src/desktop/seal_mode_guard.py:245-266 | passes iff mode, unlock time, commitment and policy of the built record are those of the loaded and of the stored one, as it is before the lock |
| Desktop.UnsealProcess.SaveChecked | src/desktop/unseal_process.py:478-486 | saves under the lineage rule as the runs do |
| Desktop.SealProcess.RunS4 | src/desktop/seal_process.py:217-363 | builds the runs' sealing record of generation 1 in the configured mode, or refuses; an earlier split stays |
| Desktop.SealProcess.RunS6 | src/desktop/seal_process.py:552-604 | splits by the configured mode, which is the record's |
| Desktop.SealProcess.RunS7 | src/desktop/seal_process.py:606-657 | saves the S4 record, of the mode its key was split by, claiming its own registration only |
| ShareTable.CheckedShareExactly | src/web/share_upload.py:99-109 | a text is accepted iff its stripped, lower-cased form is a share of the route's slot; checking twice changes nothing and no other slot accepts it |
| ShareTable.RefusedExactly | src/web/share_upload.py:99-109 | which of the three refusals a text gets |
| ShareTable.AcceptedAnyhow | src/web/share_upload.py:99-109 | a share is accepted in either case and with blanks around it, as the same share |
| ShareTable.ShareStore.StoreKeyShare | src/web/models/share_models.py:78-110 | stored: the very text under its key, where none was; identical or conflict: the stored share of that key has the same normal form or another one; only stored adds one row |
| ShareTable.ShareStore.RemoveKeyShare | src/web/models/share_removal_models.py:93-119 | only the expected row goes, together with its audit row, or nothing changes |
| ShareTable.RemoveFromForm | src/web/share_removal.py:71-104 | only 200 changes the table, by exactly the row whose id and key the form names, with one audit row; 404, 409 and 503 say what the stored share of that key is |
| ShareTable.RequestExactly | src/web/share_removal.py:71-83 | what a form names, field by field, and in which bounds |
| ShareTable.FormReadsBack | src/web/share_removal.py:71-83 | a form filled in from a listed share names that share |
| ShareTable.IntFieldReadsBack | src/web/share_removal.py:120-123 | a printed number below 10^10 is read back from a form field; a longer one is refused |
| ShareTable.OneSharePerKey | src/web/models/share_models.py:3-8 | in every run at most one share per seal, slot and generation |
| ShareTable.RowsNeverChange | src/web/share_upload.py:24-30 | a row id denotes one stored share for ever: no upload changes a stored value and no id comes back |
| ShareTable.FormRemovesWhatWasSeen | src/web/share_removal.py:3-18 | a form filled in from an earlier state removes the very share it saw or nothing, and only once |
| ShareTable.RowsAreConserved | src/web/models/share_removal_models.py:14-30 | rows ever stored equal rows present plus removal audit rows |
| SyncNonces.NonceTable.Claim | src/web/models/sync_models.py:139-159 | a held nonce is refused and nothing written; an envelope is claimed again only a second past its retention |
| SyncNonces.NonceTable.Prune | src/web/models/sync_models.py:162-176 | whatever clock value it uses, every envelope claimed so far stays held until a second past its retention, and no unexpired nonce goes |
| SyncNonces.StepKeeps | src/web/sync_auth.py:165-169 | each step keeps: a claimed envelope's nonce is held until a second past its retention |
| SyncNonces.FreshMeans | src/web/sync_auth.py:165-169 | an envelope is fresh iff its time is within the window of the clock, before or after |
| SyncNonces.ReplayFreeExactly | src/web/sync_auth.py:194-196 | no envelope is claimed twice in any run iff window plus check-to-claim delay is below 3601 seconds |
| StrictSplit.HexRoundTrip | src/desktop/crypto/sss_strict.py:52-57 | reading a printed payload gives it back |
| StrictSplit.FromHexMeans | src/desktop/crypto/sss_strict.py:161-190 | a payload is read in either case, with blanks between bytes but not within one; all else is refused |
| StrictSplit.Reader.ParseRoundTrip | src/desktop/crypto/sss_strict.py:161-190 | parsing undoes printing for every index and 32-byte payload |
| StrictSplit.Reader.RecoverKeyStrict | src/desktop/crypto/sss_strict.py:67-118 | on any list, the key iff all shares parse, the owner shares agree and the last share of every channel present gives the same key |
| StrictSplit.Reader.GenuineRecoverExactly | src/desktop/crypto/sss_strict.py:67-118 | genuine shares in any order, with repeats, recover the key iff s1 and some channel are among them |
| StrictSplit.OnePadPerComplement | src/desktop/crypto/sss_strict.py:8-19 | for every key and complement exactly one pad gives that complement |
| StrictSplit.Reader.ShareAt | src/desktop/crypto/sss_strict.py:52-57 | share 1 prints the pad, the three others key xor pad, each under its own slot |
| StrictSplit.ChannelsFixNothing | src/desktop/crypto/sss_strict.py:8-19 | every other key has exactly one pad with the very same three channel shares |
| StrictSplit.SplitKeyStrict | src/desktop/crypto/sss_strict.py:38-64 | the self-verification never refuses: for every key and pad the four shares are returned |
| BatchPlanner.GreedyIsAhead | scripts/run_benchmark_pipeline.py:104-116 | the first k greedy batches cover at least what the first k of any plan do |
| BatchPlanner.PlanBatches | scripts/run_benchmark_pipeline.py:104-116 | the batches join to the list, fit the cap or hold one case, and no such cut uses fewer |
| Classifier.TrueSizesAreExact | src/desktop/reseal_classify.py:64-78 | true recorded sizes and no collision among the files concerned make the pre-filter exact, legacy records included |
| Classifier.KnownMeans | src/desktop/reseal_classify.py:56-72 | a file is known iff some entry records its hash |
| Classifier.Classify | src/desktop/reseal_classify.py:43-122 | known and unknown lists are those of hashing every file iff the pre-filter passes over no known file |

## Left out

- EncryptFile: the optional pre-collected `metadata` argument, the seal id and the time fields of the metadata; `math.ceil` of a float quotient, exact only below 2^53 bytes, is exact here.
- EncryptRepeatedly: assumes that stale progress files can be read and removed; one source name, output path and chunk size are fixed.
- Discard: file system errors other than failing to remove.
- DecryptFile: the callback's arguments and the progress bytes; the result's timestamps.
- Loss of written but unflushed data when the process is killed.
- SelectRecord: the notes for log and audit.
- FullScanWasTop: assumes sync admission alone while the scan is under way; out-of-band writes during a scan are in the runs of `Rollback` only between scan and back-fill.
- AdmissionKeepsMarkIsTop: case creation from signed records and storage refusals, which roll the transaction back.
- StandardIsExact: how texts become modes, times and commitments in the legacy lookups; they are parameters with their failure cases. A record that arrives between selection and lookup is not in the model.
- TimelockIsExact: the TSA exchange, its token checks and the unwrapping of the envelope, which are parameters.
- Finish: the message texts, details and evidence columns of the audit row.
- StoredLineage: the fallback records built when the record module is missing; desktop case deletion and metadata updates, which bypass the lineage rule; malformed histories.
- RunR1Load: sessions run their steps in order, so the runs start a session afresh where loading or sealing again would keep an earlier R6, R7, U6 or S6; other R and U steps (decryption, classification, encryption) do not touch record or row.
- RunS6: the configuration is set once before S4; later changes between S4 and S6 are not in the runs.
- CheckedShareExactly: lower-casing of letters outside ASCII, none of which becomes a hexadecimal digit or a dash.
- RemoveKeyShare: uploader, upload time and removal time columns.
- ReplayFreeExactly: signature and binding checks before the claim, which only refuse more; the clock is a non-decreasing real.
- SplitKeyStrict: reading the key from a hexadecimal text of up to 64 digits; Python's `int` on a share prefix is a parameter with its values on "1" to "4".
- PlanBatches: sizes are exact reals; collecting, deduplicating and sorting the cases and writing the manifest.
- Classify: the category suggested for an unknown file, parallel hashing, and files that change while they are hashed.
- The standard Shamir splitter and combiner, whose result is any function here.
- Web routes, GUI, PDF rendering and signing, certificates, network calls, privacy keys, statistics and report output.
