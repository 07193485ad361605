# Brain server: verified model

A Dafny model of the engines of the brain server, a local memory server written in
Rust with a TypeScript plugin and Python tooling, and proofs of what they guarantee.
Each engine is modelled in the form its source has: loops over local variables and
stores updated in place are methods and classes, proved against specification
functions about which the theorems are stated.

- **Markdown chunker** (`Utf8Text`, `Utf8Encoding`, `ChunkFlush`, `ChunkParts`, `ChunkSplit`, `ChunkSpans`,
  `Chunker`, `ChunkerProofs`).
  The parser is an arbitrary stream of events with byte ranges. For every stream, every byte
  of an event outside headings is in a chunk or is white space, a code block is never cut by a
  flush, flushes keep to the soft cap, and the heading stack is exactly the headings in force. The splitter of oversized
  chunks conserves its input within stated bounds, uses the least number of pieces, and its
  line spans are right exactly when stated.
- **Supersession and the conflict scan** (`Supersession`, `ConflictScan`). The two notions of
  "current", the expiry column and the link graph, agree over every run; undo is the inverse
  of resolve exactly when stated; the grouped scan equals the quadratic one.
- **Backup formats and restore** (`BackupFormat`, `Restore`). Three wire formats round trip
  through one sniffing decoder and v3 rejects tampered headers; restoring what a backup wrote
  gives the backed-up database; restore is safe at every step, and over any history of
  interrupted attempts the original data is never lost.
- **Alerts and outbox** (`Alerts`, `Outbox`). Once-per-crossing expiry alerts and exactly
  when they repeat, alternating chain alerts; over every interleaving each delivered row is
  published, and at most once, and batches drain in time.
- **Anchor line** (`Anchor`), **reasoning-block stripper** (`Hygiene`), **lock-wait histogram**
  (`LockWaits`), **recall gate** (`RecallGate`), **anchor-helper fixpoint** (`Census`).

`Common` and `CharText` hold shared helpers. `dafny verify dfyconfig.toml` checks the project.

## Where the code and its documentation differ

The model follows the code. The differences are stated as theorems.

- The spans of re-split pieces are documented as line numbers of the source; each re-opened
  fence is counted again and each unfinished cut counts its line twice, so they drift
  (`ChunkSpans.PieceSpans`, `ChunkSpans.SpansRightExactly`, src/chunker.rs:58-62, 297-317).
- Unresolved contradictions are documented as those with both ends current; the query also
  hides one whose end won an unrelated supersession (`Supersession.UnresolvedMissesWinners`).
- Erasing a chunk deletes the links that explain another chunk's expiry, so the two notions of
  "current" can come apart there (`Supersession.PurgeAgreement`,
  `Supersession.PurgeBreaksAgreement`).
- Re-applied holds are documented as protecting every id held before a restore; an id whose
  rows in the image are all released is left free, and a second hold on an id is not
  re-applied (`Restore.ReappliedOutcome`, `Restore.ReappliedCount`).
- Expiry alerts are documented as once per boundary; a scan that misses a proposal, such as a
  failed one, or a clock that steps back makes a later scan alert again
  (`Alerts.MissedScanAlertsAgain`; exactly when: `Alerts.OncePerBoundaryExactly`).
- Calls with the same query are documented to collapse to one request per turn. Within one
  session they can post twice: a request of an earlier session settles and deletes the
  registration of the new request under its key, so the next call starts another
  (`RecallGate.EvictionExample`; exactly when: `RecallGate.CollapsesExactly`).
- An anchor line is documented to carry every required field; only the knowledge root is
  asked for, so a line without its counts parses with zeros (`Anchor.PartialLineParses`;
  exactly which lines parse: `Anchor.ParsesExactly`).
- Undo is documented to count at most 2 changes; it counts one for every incoming
  supersession (`Supersession.UndoCounts`, `Supersession.UndoCountsThree`).

Stripping reasoning blocks is not idempotent; the source promises nothing about a second
pass, and `Hygiene.StripOnceExactly` says when one would change nothing.

## What is assumed

- The Markdown parser's non-empty ranges lie in the text on character boundaries, and text is
  UTF-8, which gives `Utf8Text.WellFormed` (`Utf8Encoding.TextWellFormed`).
- `BackupFormat.Ideal`: JSON and base64 readers undo their writers; a sealed message opens
  under its own key, nonce and associated data and no others, and nothing else opens
  (`BackupFormat.IdealSealExists` gives functions with these properties). This
  idealises AES-256-GCM (section 7 of NIST SP 800-38D) and says nothing about Argon2id
  (RFC 9106), which is an arbitrary function.
- `Restore.Faithful`: besides that, a snapshot reads back as the database it was taken of.
- Whether each file, database, delivery or audit operation succeeds is an input. Tables are
  maps, sets and sequences in key order, foreign keys are enforced, a transaction that fails
  leaves its tables as they were, and no other process writes during a restore or a drain.

## Model

| member | source | states |
|---|---|---|
| `Utf8Encoding.TextWellFormed` | src/chunker.rs:472-482 | the UTF-8 encoding of every text satisfies what the proofs ask of a text |
| `Utf8Encoding.BoundaryExactly` | src/chunker.rs:472-482 | the character boundaries of an encoded text are exactly where its characters begin and end |
| `Utf8Encoding.WhitespaceExactly` | src/chunker.rs:369-381 | an encoded text begins with white space if and only if its first character is Unicode white space, and then all bytes of that character are recognised |
| `ChunkFlush.LineStartOffsets` | src/chunker.rs:447-455 | the table lists where each line begins: strictly increasing, every later entry just after a newline, entry k with exactly k newlines before it, one entry per line |
| `ChunkFlush.ByteToLineCounts` | src/chunker.rs:459-465 | looking a byte up in the table by binary search gives 1 plus the number of newlines before it, for every text and offset |
| `ChunkFlush.SafeSliceExact` | src/chunker.rs:472-482 | on character boundaries the clamping slice is the exact slice |
| `ChunkFlush.TrimLeading` | src/chunker.rs:369-381 | drops exactly the leading blank lines: what is cut is white space cut at a line end, the first line kept is not blank; runs off the end if and only if the whole range is blank |
| `ChunkFlush.TrimTrailing` | src/chunker.rs:383-413 | drops exactly the trailing blank lines and keeps the first line; proves the single-line drop of the original unreachable |
| `ChunkFlush.FlushBuf` | src/chunker.rs:347-443 | a blank range emits nothing; any other range appends one chunk, a verbatim slice with its first and last lines not blank, the given heading, and the line numbers of its first and last byte; the final newline strip has nothing to do |
| `ChunkFlush.TrimKeepsText` | src/chunker.rs:369-418 | every byte of a flushed range is in the chunk or belongs to a Unicode white-space character |
| `ChunkFlush.TrimUnique` | src/chunker.rs:369-418 | the trimmed slice of a range is unique |
| `ChunkSplit.CutPositive` | src/chunker.rs:273-287 | every byte cut of an over-long line is positive, so the cutting loop terminates |
| `ChunkSplit.FenceExactly` | src/chunker.rs:211-245 | a chunk is a closed block if and only if it starts with three backquotes or tildes and what follows its last newline is white space and then the same marker; it is prose if and only if it starts with neither marker; opener and closer are its first and last line |
| `ChunkSplit.CutLongLine` | src/chunker.rs:273-287 | cuts a line over the cap into consecutive parts that cover it, each ending at the last character boundary within the cap |
| `ChunkSplit.PackBody` | src/chunker.rs:248-295 | the pieces are the greedy partition of the body: consecutive parts from the first line to the last, each the longest admissible part that starts there |
| `ChunkParts.GreedyIsLeast` | src/chunker.rs:248-295 | no partition of a body into admissible parts (whole lines within the cap, or capfuls of an over-long line) has fewer parts than the greedy one |
| `ChunkParts.GreedyIsUnique` | src/chunker.rs:248-295 | a body has only one greedy partition |
| `ChunkParts.RenderedIsBody` | src/chunker.rs:248-295 | the texts of consecutive parts are the body up to where they end, without newlines; byte for byte if no line was cut |
| `ChunkSplit.LabelPieces` | src/chunker.rs:297-317 | pieces re-open the fence, keep the heading path, and their line spans follow each other without a gap from the chunk's first line |
| `ChunkSplit.SplitOversizedCode` | src/chunker.rs:211-319 | the result is a split of the chunk: the greedy partition of its body, every part in the re-opened fence, with consecutive line spans |
| `ChunkSplit.SplitUnique` | src/chunker.rs:211-319 | only one list of pieces is a split of a chunk |
| `ChunkSplit.SplitIsLeast` | src/chunker.rs:248-295 | no partition of the chunk's body into admissible parts needs fewer pieces |
| `ChunkSplit.SplitConserves` | src/chunker.rs:211-319 | removing the re-opened fences and the newlines from the pieces and concatenating gives the chunk without newlines, fence lines included; for prose without an over-long line, the chunk byte for byte plus one newline |
| `ChunkSplit.SplitBounds` | src/chunker.rs:211-319 | a piece exceeds the cap by at most its opener, its closer and two newlines; a prose piece never does; a fenced piece starts with the opener line and its closer starts a line |
| `ChunkSpans.PieceSpans` | src/chunker.rs:297-317 | the span of every piece is that of the source lines of its part, shifted by one line for each earlier cut that left its line unfinished and, in a fenced block, one for each earlier piece |
| `ChunkSpans.SpanDrift` | src/chunker.rs:297-317 | the last piece ends away from the end of the chunk by exactly the cuts that left a line unfinished, plus the pieces minus 2 (closed block) or minus 1 (unterminated block), over-long lines included |
| `ChunkSpans.SpansRightExactly` | src/chunker.rs:297-317 | every piece spans the source lines its text comes from if and only if the chunk is prose without a line over the cap, an unterminated block whose body fits one piece, or a closed block whose body fits two pieces divided at a line end and not one |
| `ChunkSpans.SpanDriftExample` | src/chunker.rs:297-317 | a closed block of three 7999-byte lines, of which no split has all spans right |
| `Chunker.ExtendBuf` | src/chunker.rs:324-341 | the pending range becomes the least range covering it and the event; an empty event changes nothing |
| `Chunker.FlushInto` | src/chunker.rs:347-443 | flushing keeps the chunks in step with the recorded flushes |
| `Chunker.HandleEvent` | src/chunker.rs:98-180 | one turn of the loop is one step of the transition function, and keeps the loop invariant |
| `Chunker.CollectChunks` | src/chunker.rs:75-190 | the chunks before re-splitting are, in order, the trimmed chunks of the ranges the transition system flushes |
| `Chunker.ChunkMarkdown` | src/chunker.rs:75-201 | the result is that list with every chunk over the hard cap replaced by its split |
| `ChunkerProofs.EventLands` | src/chunker.rs:152-180 | for every event stream, each event outside headings lies whole in one flushed range |
| `ChunkerProofs.FlushIsHull` | src/chunker.rs:324-341 | a flushed range is the hull of its events and no more: one begins where it begins, one ends where it ends, and all lie inside |
| `ChunkerProofs.CodeBlockIntact` | src/chunker.rs:134-145 | no flush falls inside a code block: all its events, fences included, are in one flushed range |
| `ChunkerProofs.PendingUnderCap` | src/chunker.rs:167-180 | after every event that leaves no heading and no code block open, under 1000 bytes are pending |
| `ChunkerProofs.FlushSizes` | src/chunker.rs:98-189 | every flush is made at a heading, at the end, or on size; on size it is of at least 1000 bytes with nothing open, and before its last event something was open or under 1000 bytes were pending; otherwise it is under 1000 bytes unless a heading or code block was open |
| `ChunkerProofs.DepthIsBalance` | src/chunker.rs:134-145 | the code depth is the most by which code starts exceed code ends from any event on |
| `ChunkerProofs.Coverage` | src/chunker.rs:98-189 | for every event stream, all bytes of an event outside headings that are not white space are in one and the same chunk, a verbatim slice with correct line numbers |
| `ChunkerProofs.ResplitKeeps` | src/chunker.rs:191-201 | after re-splitting every chunk is still there, or consecutive pieces hold its text up to newlines once their re-opened fences are removed |
| `ChunkerProofs.ChunkIsSlice` | src/chunker.rs:347-443 | every chunk is a slice of one flushed range and carries that flush's heading |
| `ChunkerProofs.ReturnedCoverage` | src/chunker.rs:75-201 | of every event outside headings that is not all white space, the rest lies in one verbatim slice of the source, and consecutive returned chunks are that slice or hold it up to newlines once their re-opened fences are removed |
| `ChunkerProofs.ReturnedBounds` | src/chunker.rs:75-201 | every returned chunk is within the hard cap, or a fenced piece over it by at most its opener, its closer and two newlines, of a verbatim slice of one flushed range, and carries that flush's heading |
| `ChunkerProofs.RunHeadings` | src/chunker.rs:105-132 | after any events the loop's stack and breadcrumb are those of the headings completed so far |
| `ChunkerProofs.StackIsInForce` | src/chunker.rs:115-132 | the stack is exactly the titled headings with no later titled heading at their level or above |
| `ChunkerProofs.StackIncreasing` | src/chunker.rs:115-132 | levels strictly increase down the stack, so it is at most six deep |
| `ChunkerProofs.BreadcrumbJoins` | src/chunker.rs:497-503 | the breadcrumb is the titles joined by " > " |
| `Utf8Text.TrimCuts` | src/chunker.rs:115-118 | a heading title loses white space at both ends, all of it and nothing else |
| `ChunkerProofs.ChunkCarriesBreadcrumb` | src/chunker.rs:105-132 | every event's chunk carries the breadcrumb of the headings in force at that event |
| `Supersession.Store.AddLink` | src/consolidate.rs:37-53 | records a typed link once; refuses unknown kinds, self-links and missing ends without a write |
| `Supersession.Store.HeldScan` | src/legal_hold.rs:120-140 | of a list of chunks, returns exactly those with an unreleased hold row |
| `Supersession.Store.ResolveSupersession` | src/consolidate.rs:83-139 | refuses before the first write, or links and expires the loser at `now` only if it was current, with one audit row |
| `Supersession.Store.UndoSupersession` | src/consolidate.rs:394-426 | clears the expiry, removes every incoming supersession, counts the changes, audits only if there were any |
| `Supersession.Store.ApplyAll` | src/handlers/consolidate.rs:207-241 | applies a batch link by link, rejecting each refused one on its own |
| `Supersession.Store.PurgeChunkIds` | src/service/purge.rs:90-196 | refuses the whole list if any chunk on it is held, otherwise removes their rows and every link that touches one, and returns the number of rows removed, repeated and unknown ids not counted |
| `Supersession.PurgeErases` | src/service/purge.rs:90-196 | an erasure is refused if and only if a listed chunk is held, and then changes nothing; otherwise exactly the listed rows and the links of any kind that touch one are gone, and the count is the rows that went |
| `Supersession.LinkEffect` | src/consolidate.rs:37-53 | a link is recorded exactly when its kind is known, its ends differ and both exist; the count returned is the links added, so a repeat is a no-op |
| `Supersession.ResolveEffect` | src/consolidate.rs:83-139 | a resolution is refused exactly for a self-link, a held loser or a missing end, and then changes nothing; otherwise it returns the chunks newly expired and audits exactly those |
| `Supersession.UndoMeans` | src/consolidate.rs:394-426 | after an undo an existing chunk is current and not superseded and every other chunk keeps its standing in both senses; nothing is counted, and nothing changes, if and only if the chunk was neither expired nor superseded; a second undo does nothing |
| `Supersession.UndoCounts` | src/consolidate.rs:390-426 | undo returns one for an expiry plus one for every incoming supersession; on consistent tables that is never 1, and exceeds 2 if and only if at least two chunks supersede the loser |
| `Supersession.UndoCountsThree` | src/consolidate.rs:390-426 | a consistent store on which undo returns 3 |
| `Supersession.BatchIsRun` | src/handlers/consolidate.rs:207-241 | an applied batch is a run of single applies; the links rejected are exactly those unacceptable on the tables before the batch, in order; the count is the chunks newly expired plus the links of other kinds newly recorded |
| `Supersession.AgreementPreserved` | src/consolidate.rs:83-139 | over every run of applies, undos and hold changes, refused ones included, an existing chunk has `valid_to` set if and only if some supersedes link points at it, and every link keeps both ends |
| `Supersession.HeldNeverExpires` | src/consolidate.rs:83-110 | a chunk current at the start and held at every step is current at the end of every run |
| `Supersession.UndoInvertsResolve` | src/consolidate.rs:394-426 | undo after a successful resolve restores rows and links if and only if the loser was neither expired nor superseded before |
| `Supersession.UndoneResolutionTrail` | src/consolidate.rs:394-426 | holds are untouched, the audit log only grows, and the unresolved contradictions return |
| `Supersession.ResolveIdempotent` | src/consolidate.rs:99-110 | resolving again, at any later time, changes nothing and writes no audit row |
| `Supersession.ResolutionKeepsHistory` | src/consolidate.rs:75-110 | no as-of query before the resolution time changes, and default recall loses exactly the superseded chunk |
| `Supersession.ResolvedInterval` | src/consolidate.rs:75-110 | a current chunk resolved at some time is visible exactly from its start, if any, up to but not including that time |
| `Supersession.HoldBlocks` | src/consolidate.rs:83-98 | a hold placed on a chunk makes every resolution against it refused, and no resolution is refused for a hold once every hold on the chunk is released |
| `Supersession.ResolveSettles` | src/consolidate.rs:154-175 | a resolution removes exactly the contradictions touching either chunk from the unresolved set |
| `Supersession.UnresolvedMissesWinners` | src/consolidate.rs:141-175 | the check reports a contradiction of two current chunks if and only if neither chunk has superseded another; the documentation promises it without that condition |
| `Supersession.UnresolvedMissesWinnersExample` | src/consolidate.rs:154-175 | a consistent store with two contradicting current chunks on which the check is silent |
| `Supersession.PurgeAgreement` | src/service/purge.rs:90-196 | erasing a list of chunks keeps the two notions of current in agreement if and only if the list is refused for a hold or no remaining chunk is superseded only by chunks on the list |
| `Supersession.PurgeBreaksAgreement` | src/service/purge.rs:90-196 | a consistent store that an erasure makes inconsistent |
| `ConflictScan.PairMeans` | src/consolidate.rs:524-532 | a pair names the earlier row first, its age gap is the difference of the observation times clamped to 64 bits, and its authority delta recovers the later authority with 0.8 for a missing one |
| `ConflictScan.GroupBySubject` | src/consolidate.rs:511-515 | each group is the rows of one subject in row order |
| `ConflictScan.PairsWithin` | src/consolidate.rs:516-535 | the double loop over a group is the all-pairs comparison of that group |
| `ConflictScan.FindSubjectConflicts` | src/consolidate.rs:504-538 | for every iteration order of the hash map the result is the all-pairs result over all rows, sorted |
| `ConflictScan.ConflictsExact` | src/consolidate.rs:504-538 | the result is strictly sorted by the first id and then the second, and holds exactly the pairs of an earlier and a later row with the same subject and different content |
| `ConflictScan.SortByKey` | src/consolidate.rs:536-537 | a permutation in key order |
| `BackupFormat.EncryptV1` | src/backup.rs:315-327 | writes the timestamp line and the sealed bundle |
| `BackupFormat.EncryptVersioned` | src/backup.rs:334-385 | writes magic, version, truncated length, header and sealed snapshot, with the header bound only in v3 |
| `BackupFormat.BuildBundle` | src/backup.rs:505-512 | writes the manifest length, the manifest and the snapshot |
| `BackupFormat.VersionedRoundTrip` | src/backup.rs:415-500 | decoding any v2 or v3 backup with a header under 2^32 bytes returns its manifest and snapshot |
| `BackupFormat.V1RoundTrip` | src/backup.rs:491-528 | decoding any v1 backup with a plain timestamp returns its manifest and snapshot |
| `BackupFormat.VersionedLayout` | src/backup.rs:334-385 | a v2 or v3 file begins with "BSBK", its version and a zero byte; its header asks for Argon2id with 65536 KiB, 3 passes and 1 lane and carries the salt and nonce drawn; its ciphertext is the snapshot sealed under the key of those parameters, bound to the header in v3 only |
| `BackupFormat.BundleRoundTrip` | src/backup.rs:505-528 | the v1 bundle parses back |
| `BackupFormat.SniffV1` | src/backup.rs:491-497 | a v1 file is taken for a newer format if and only if its timestamp starts with the magic |
| `BackupFormat.ParseIsExact` | src/backup.rs:390-442 | whatever parses is an assembled v2 or v3 file whose header asks for Argon2id within the documented bounds |
| `BackupFormat.ParseAssembled` | src/backup.rs:415-442 | an assembled file parses if and only if its version is known, its header reads, and its KDF and parameters are admitted |
| `BackupFormat.HeaderTamperFails` | src/backup.rs:444-500 | a v3 ciphertext behind any other header never decrypts, under any passphrase |
| `BackupFormat.RelabelFails` | src/backup.rs:444-500 | a v3 file relabelled v2 never decrypts |
| `BackupFormat.V2ManifestSwap` | src/backup.rs:444-500 | a v2 file with another manifest in its header decrypts and reports that manifest |
| `BackupFormat.DecryptedV3IsAuthentic` | src/backup.rs:444-500 | whatever decrypts as v3 is sealed over exactly the header bytes read |
| `Restore.Host.ReadSnapshot` | src/backup.rs:964-990 | succeeds only on a snapshot that passed the sidecar, decryption and the manifest hash, and always when one does |
| `Restore.Host.TakeSafetySnapshot` | src/backup.rs:999-1077 | leaves the live database alone, refuses over any existing safety snapshot, and succeeds only with a complete copy of the live database and its active holds |
| `Restore.Host.Replace` | src/backup.rs:1092-1190 | from the rename on, every disk state is the image plus re-applied holds and audit rows, with the safety snapshot untouched |
| `Restore.Host.RestoreInner` | src/backup.rs:964-1192 | every disk state the restore passes through satisfies `SafeFrom`; a refusal leaves the live database as it was; success means the admitted image is live and the old state is complete beside it; an admitted request over an unobstructed disk succeeds |
| `Restore.Host.RestoreWithOptions` | src/backup.rs:947-962 | the same with the refusal's audit row; over an existing safety snapshot it always refuses |
| `Restore.Host.BackupInner` | src/backup.rs:574-700 | writes the file of the live database in the requested format, then its checksum sidecar; succeeds exactly when no safety snapshot exists and every write does; a failed run never writes a sidecar |
| `Restore.Host.Backup` | src/backup.rs:556-572 | the same with an audit row, and nothing but the audit log changes |
| `Restore.Host.ReapplyHolds` | src/backup.rs:1332-1381 | only unreleased rows for ids held before without a row are added; the counter equals the rows added, whatever inserts fail |
| `Restore.FrozenWhileBakExists` | src/backup.rs:586-598 | over every history of attempts, while a safety snapshot exists nothing but the audit log changes |
| `Restore.NothingIsLost` | src/backup.rs:964-1192 | over every history of backups and restores, each cut short at any step, the original data is live or complete in the safety snapshot, and what is live is the original or an image that passed every check |
| `Restore.BackupIsAdmitted` | src/backup.rs:775-795 | what a backup wrote, in any of the three formats, is admitted as the snapshot of the database it was taken of, and as nothing else, if and only if that database's audit chain verifies, or it has none and the operator allows it |
| `Restore.RestoreGivesBack` | src/backup.rs:964-1192 | a successful restore of what a backup wrote leaves the backed-up database with only re-applied holds and audit rows added, and the previous database complete beside it |
| `Restore.BackupManifest` | src/backup.rs:600-668 | what a backup wrote decrypts to the snapshot of the database and a manifest that lists it first, as "brain.db" with its hash and size, and then the configuration files |
| `Restore.RestoredOutcome` | src/backup.rs:964-1192 | after a successful restore the file matched its sidecar, decrypted and matched its manifest; the audit chain of the image verified, or it has none and the operator allowed it; no hold of the image is lost and none appears that neither database had; with all inserts succeeding an id is held if and only if the image held it, or the replaced database did and the image had no row for it |
| `Restore.HarvestExact` | src/backup.rs:1037-1044 | the holds harvested before a restore are exactly those of the unreleased rows, with their reason and holder |
| `Restore.ReappliedOutcome` | src/backup.rs:1345-1366 | with all inserts succeeding: rows are kept; an id has a row iff the image had one or it was held before; it is held iff the image held it or it was held before and the image had no row |
| `Restore.ReappliedCount` | src/backup.rs:1345-1366 | rows are added exactly for the first active hold on each id the image has no row for |
| `Restore.ReappliedRows` | src/backup.rs:1345-1366 | every row added is the first active hold on its id, unreleased, with its reason and holder, as of now |
| `Restore.LapsedHoldExample` | src/backup.rs:1345-1366 | an image with a released row for a held id, after which the id is no longer held |
| `Alerts.ExpiryWatcher.Tick` | src/alert.rs:552-589 | a tick prunes, records each listed proposal's tier and publishes its transition |
| `Alerts.VisitListed` | src/alert.rs:577-588 | a listed proposal is visited once: its tier is recorded, its one transition published |
| `Alerts.Remembered` | src/alert.rs:552-589 | the tier an id is compared with is the one of the scan just before, none if that scan did not list it |
| `Alerts.ScanLabels` | src/alert.rs:577-588 | for every run, a scan adds for an id exactly the rise from its tier at the previous scan, where a scan that does not list it counts as none |
| `Alerts.AlertsTruthful` | src/alert.rs:578-588 | every alert of a run names a proposal some scan listed, with its true expiry time |
| `Alerts.OncePerCrossing` | src/alert.rs:547-589 | a proposal that no scan listed up to some point and every scan lists from there on gets one "warn" iff some scan saw 300 to 3599 seconds left, then one "critical" iff some scan saw under 300, and nothing else |
| `Alerts.LabelCounts` | src/alert.rs:577-588 | for every run, "critical" is published as often as a stretch of scans that see the id critical begins, "warn" as often as a scan sees it in the warning tier right after none or first |
| `Alerts.CriticalOnce` | src/alert.rs:547-589 | "critical" is published at most once if and only if the scans that see the id critical are consecutive |
| `Alerts.WarnOnce` | src/alert.rs:547-589 | "warn" is published at most once if and only if no two scans see the warning tier right after none or first |
| `Alerts.LabelOrder` | src/alert.rs:547-589 | no "warn" follows a "critical" if and only if no scan begins a warning after one that saw the id critical |
| `Alerts.OncePerBoundaryExactly` | src/alert.rs:547-589 | a run announces each boundary at most once and in order if and only if those three conditions hold of the tiers its scans see |
| `Alerts.MissedScanAlertsAgain` | src/alert.rs:555-589 | after a scan that misses the proposal the next scan that finds it critical alerts again, whatever went before |
| `Alerts.ChainWatcher.Tick` | src/alert.rs:597-637 | publishes on transitions only |
| `Alerts.SeveritiesAlternate` | src/alert.rs:597-637 | published severities alternate, starting with danger, and their parity tells whether the last check passed |
| `Outbox.DrainDomain` | src/alert.rs:391-447 | selecting a batch and delivering it row by row is one walk over the table |
| `Outbox.Bus.DrainWorkflowEvents` | src/alert.rs:373-450 | a pass drains every available domain and returns the number of events published |
| `Outbox.SelectThenDeliver` | src/alert.rs:391-420 | batch selection followed by deliveries refines the single walk |
| `Outbox.DrainKeeps` | src/alert.rs:390-418 | rows stay in place and change only from pending to delivered, only with a matching topic and a successful delivery |
| `Outbox.PublishedAreDelivered` | src/alert.rs:413-420 | exactly the rows newly delivered are published, in table order |
| `Outbox.TickPublishes` | src/alert.rs:373-450 | a pass adds for every domain exactly the events of its newly delivered rows, in table order |
| `Outbox.DeliveredArePublished` | src/alert.rs:373-450 | over every interleaving, each row delivered during the run has an event with its domain and id among those the run published |
| `Outbox.MatchesExactly` | src/alert.rs:391-396 | the topics taken are those that begin with "workflow/" or "case/" in any mix of ASCII case |
| `Outbox.EventsInIdOrder` | src/alert.rs:393-394 | the events of a domain in one tick are in increasing id order |
| `Outbox.EventsOfDrain` | src/alert.rs:421-446 | every event comes from a due row that is delivered by it, carries its run, topic and parent, and has the trusted kind iff topic and key both say so |
| `Outbox.BatchReaches` | src/alert.rs:390-420 | a pending row is delivered in a tick if and only if its topic is of the two families, its delivery succeeds and fewer such rows than a batch stand before it |
| `Outbox.DrainedInTime` | src/alert.rs:373-450 | over every interleaving of enqueues and ticks in which deliveries of a domain succeed, the rows of that domain due at the start that are left are their number minus 100 for each tick that found the domain available, down to none |
| `Outbox.PublishedAtMostOnce` | src/alert.rs:373-450 | over every interleaving of enqueues and ticks, with any deliveries failing, no row is published twice and only delivered rows with a matching topic are published |
| `Anchor.IntRoundTrip` | src/anchor.rs:137-149 | every 64-bit count parses back from its decimal form |
| `Anchor.IntParsesExactly` | src/anchor.rs:170-190 | a printed number parses back if and only if it fits 64 bits |
| `Anchor.RenderWords` | src/anchor.rs:137-149 | the printed line is the prefix and the eight fields in the order of the format, each key with its own value |
| `Anchor.ParseLine` | src/anchor.rs:153-202 | the loop over the fields computes the fold of field assignments, refusing on the first bad field |
| `Anchor.ParsesExactly` | src/anchor.rs:151-202 | a line parses if and only if, trimmed, it starts with the v1 prefix, every later word has a known key and, for a count, a 64-bit number, and the last root given is not empty |
| `Anchor.PartialLineParses` | src/anchor.rs:151-202 | a line with the root alone parses, with every count 0 and no chain |
| `Anchor.RoundTrip` | src/anchor.rs:137-202 | an anchor survives printing and parsing if and only if its fields are free of white space, its root is not empty, its chain is not "none", its schema is not "?" and its counts fit 64 bits |
| `Anchor.ParsedIsPrintable` | src/anchor.rs:153-202 | any line that parses re-renders to a line parsing to the same anchor |
| `Anchor.Compare` | src/anchor.rs:206-256 | reports exactly the components that differ; empty if and only if all fields but the schema agree |
| `Hygiene.MatchOpenTag` | src/hygiene.rs:59-82 | finds an open tag if and only if one of the listed names opens there |
| `Hygiene.StripReasoningBlocks` | src/hygiene.rs:30-53 | the scanning loop returns the kept characters of the scan |
| `Hygiene.ScanDivides` | src/hygiene.rs:30-53 | the scan divides the text into kept characters, blocks closed by the first matching close, and an unclosed tail |
| `Hygiene.ScanSource` | src/hygiene.rs:30-53 | the pieces of the scan concatenate to the text |
| `Hygiene.DivisionUnique` | src/hygiene.rs:30-53 | any such division of a text is the one the scan computes |
| `Hygiene.OrderIrrelevant` | src/hygiene.rs:59-82 | the result does not depend on the order of the tag list |
| `Hygiene.StripDeletes` | src/hygiene.rs:30-53 | the result is a subsequence of the text |
| `Hygiene.StripPrefix` | src/hygiene.rs:30-53 | stripping commutes with prefixes free of `<` |
| `Hygiene.StripLeadingBlock` | src/hygiene.rs:30-53 | a leading block of any case and attributes is dropped exactly |
| `Hygiene.StripIgnoresCase` | src/hygiene.rs:30-53 | texts that differ only in ASCII case lose the same characters |
| `Hygiene.StripCapitalsExample` | src/hygiene.rs:21-53 | a block in capitals with an attribute, closed in another case, is stripped |
| `CharText.LowerCharExact` | src/hygiene.rs:30-53 | the twenty-six capitals become their small letters and nothing else changes |
| `Hygiene.FixedPoint` | src/hygiene.rs:30-53 | a text is unchanged if and only if no tag opens anywhere in it |
| `Hygiene.StripOnceExactly` | src/hygiene.rs:30-53 | a second stripping changes nothing if and only if no removal welds the kept characters around it into an open tag, with the block removed from within the tag name |
| `Hygiene.StripOnce` | src/hygiene.rs:30-53 | a second stripping changes nothing when no `<` is kept before a removed block |
| `Hygiene.NotIdempotent` | src/hygiene.rs:21-53 | with the five tag names of the server, a text that a second stripping changes |
| `Hygiene.ReasoningTagsGood` | src/hygiene.rs:21-21 | the five names hold no `>` and no white space, as the uniqueness results ask of a tag list |
| `LockWaits.LockWaitBucket` | src/concurrency.rs:50-56 | the bucket whose edges enclose the wait |
| `LockWaits.LockWaitHistogram.RecordUs` | src/concurrency.rs:73-76 | after any records each bucket counts the waits that fall in it |
| `LockWaits.LockWaitHistogram.Total` | src/concurrency.rs:87-91 | the total is the number of records |
| `LockWaits.LockWaitHistogram.QuantileEdgeUs` | src/concurrency.rs:93-118 | for p above 0 the greatest bucket edge not above the wait of rank k, where k is the least whole number not below p n, or n for p over 1; the final return is unreachable |
| `LockWaits.TargetIsRank` | src/concurrency.rs:103-106 | the rank asked for is the least whole number not below p n, or n for p over 1 |
| `LockWaits.RankInBucket` | src/concurrency.rs:105-116 | the bucket where the running sum reaches a rank holds the wait of that rank |
| `LockWaits.QuantileMonotone` | src/concurrency.rs:93-118 | quantiles are monotone in the percentile |
| `RecallGate.RecallPlugin.BoundedRecall` | plugin/index.ts:120-140 | at the cap answers empty, otherwise shares the registered request of the key or starts and registers one |
| `RecallGate.RecallPlugin.OnSettled` | plugin/index.ts:134-137 | a settled request evicts whatever its key now maps to |
| `RecallGate.RecallPlugin.OnSessionEnd` | plugin/index.ts:392-397 | resets the counter and forgets every registration |
| `RecallGate.AtMostTenPerSession` | plugin/index.ts:120-140 | over every interleaving the counter is the number of requests started since the last session end, at most ten |
| `RecallGate.OwnKeyOnly` | plugin/index.ts:120-140 | a caller gets the empty result, at the cap only, or a request started under its own key that has not settled |
| `RecallGate.Deduplicated` | plugin/index.ts:120-140 | if no request outlives a session end, at most one request per key is in flight |
| `RecallGate.CollapsesExactly` | plugin/index.ts:88-140 | at every moment of a run at most one request per key of its session is in flight, if and only if no call below the cap comes under the key of a request of its session that is still in flight and whose registration the settlement, in this session, of an older request under that key has removed |
| `RecallGate.EvictionExample` | plugin/index.ts:88-140 | the run call, session end, call, settlement of the first request, call, all under one key, posts it twice in one session |
| `RecallGate.OnePerKeyExactly` | plugin/index.ts:120-140 | at every moment of a run at most one request per key is in flight, whatever its session, if and only if no call below the cap comes under the key of a request of an earlier session in flight |
| `RecallGate.OutlivingExample` | plugin/index.ts:392-397 | the run call, session end, call, all under one key, has two requests of that key in flight |
| `Census.AnchorHelpers` | scripts/test-census.py:443-458 | the in-place iteration terminates with the least set that holds every directly anchored helper and is closed under "hinted and calls a member" |
| `Census.OrderIrrelevant` | scripts/test-census.py:446-458 | the set is the same for every dictionary order |
| `Census.AnchoredIsReached` | scripts/test-census.py:443-458 | every member has a chain of calls through hinted helpers to a directly anchored one |
| `Census.ReachedIsAnchored` | scripts/test-census.py:443-458 | every helper with such a chain is a member |

## Left out

- Event streams are not produced: Markdown parsing itself, and Markdown options, are not part of this model.
- File permissions, symbolic links, temporary file names and durability of renames: a rename is atomic and a write either happens or fails.
- The restore path when no database file exists beforehand, the head-pin comparison that is only logged, and the disclosure of resurrected tombstones.
- Backup's connector-config scan and secret markers: the manifest components of the configuration files are an input.
- Time stamps are integers; the database compares their text forms.
- Histogram counts are unbounded and the percentile is a real number, so 64-bit overflow and floating-point rounding are not modelled.
- `set_wal_snapshot`, the pool and busy counters, and lock-wait timing in src/concurrency.rs.
- Near-duplicate, exact-duplicate and stale-source scans in src/consolidate.rs: queries over the vector index, grouping and the file system.
- The rows that the conflict scan reads are an input; the SQL filter that selects current rows is not modelled.
- `fingerprint` in src/anchor.rs, hashing of the row census; `should_skip` and `clean` in src/hygiene.rs, a prefix test.
- Server-sent events, replay after reconnect, webhook delivery and the freshness watcher in src/alert.rs; the payload of an outbox event and its sanitising.
- `brace_deltas`, the brace lexer, and the reader classification in scripts/test-census.py; regular expressions appear as the facts they extract from a helper.
- BackupFormat.VersionedRoundTrip: for headers under 2^32 bytes, because the length field is cut to 32 bits.
- BackupFormat.V1RoundTrip: for timestamps without a newline that do not start with the magic, as the clock writes them.
- Restore.BackupIsAdmitted: under the conditions of the two round trips, which `Restore.Drawn` states.
- ChunkerProofs.ChunkCarriesBreadcrumb: for streams with no code block inside a heading, as the Markdown grammar has them.
- Enqueueing into the outbox: rows arrive as inputs of the runs; reserved topics, idempotency keys and lineage in src/workflow/outbox.rs are not modelled.
- Erasure's other tables: vectors, relationships, proposals, feedback, traces, orphaned entities and tombstones in src/service/purge.rs.
- Supersession.Store.ResolveSupersession: the content of the audit row is the hash it records; the audit chain is not part of this model.
