# Proofs about the repository's gates and forensic programs

The repository's release depends on a set of hand-written programs: two lexers that walk Rust
files, a reader of the session journal, a driver that judges a database restored under
concurrent writers, a call-graph gate, two canonicalising transformations, and three decision
procedures. This project models twelve of them and proves what each is for.

Code that runs as a loop is a method with that loop, proved equal to a recursive specification
(`Stripped`, `Lexemes`, `Parse`, `Canonical`, `Redacted`, `Owed`, ...) or to a declarative
predicate; what the program promises is then proved about the specification, over every input
or every run. Where a promise turned out false of the code, a lemma gives the input, and the
condition under which the promise holds is proved next to it, as an if-and-only-if where there is one.

- **Rust lexers.** `RustSource` is a program as a list of pieces and its printer. `strip_noise`
  (`NoiseScan`, over an array in place) is idempotent on every text; on printed programs it leaves exactly
  the code. `iter_literals` (`LiteralScan`) inverts the printer, and a continuation line spliced
  into a literal changes no text it yields. `SpaceRuns` and `SpaceScan` account for every run of spaces.
- **Session journal.** Frames (`JournalFrames`, `JournalCodec`) and envelopes
  (`JournalEnvelopes`), for every hash function with a 32-byte output: round trip, torn tails,
  isolation of damage, recovery of the hashed bytes.
- **Backup under concurrent writers.** `BackupWriters` is a transition system with any number of
  writers, any interleaving, failed commits and kills; `BackupVerdict` is the driver.
- **Environment gate.** `EnvGraph` (reachability on cyclic graphs) and `EnvDebt` (the partition).
- **Canonical forms.** `CanonicalConfig`, `CanonicalProof`, `Redaction`, `RedactionProof`.
- **Decision procedures.** `GhaCondition`, `GhaProof`, `LaneReachability`; `LimitsGate`,
  `LimitsProof`; `ReleaseGate`, `ReleaseProof`.

Some promises, taken as widely as they are written, do not hold of the code. For each there is
an input, and the condition that separates the inputs for which it holds:

- `strip_noise` loses its place on a char literal of a double quote (`QuoteCharLoses`) and keeps a
  string body that spells an identifier only when its escapes are left out (`EscapesMask`); on
  printed programs it does right exactly without either (`StripPrintedIff`).
- `iter_literals` yields one line too many for a literal that ends the file in a lone backslash
  (`LoneBackslash`), and for no other (`LinesLineUp`). A char literal with a longer escape can open
  a literal that the program does not have (`LongEscapeLoses`): it is passed just when its closing
  apostrophe does not look like the start of a char literal (`LongEscapeReads`).
- A row number below 1 hides a missing row (`RowZeroHides`) and makes the two drivers disagree
  (`ArchiveCancels`); without one neither happens, and with one both do (`PassExact`, `DriversAgreeExactly`).
- A mark that rises by one proves no commit (`RisingMarkNeedsNoCommit`), a rise by two does (`RiseOfTwoIsACommit`).
- The caller search misses chains through a helper named like the qualified key (`SharedNameMisses`);
  it finds exactly the other chains (`SearchIsReachPast`).
- `canonical_config` applied twice rewrites its own mark when a path is part of the word `HOME`
  (`MarkRespelled`), and for plain paths only then (`WholeIdempotentIff`).
- A key that is empty, holds a dot or ends in a bracketed number shares a canary with another site
  (`NotApartCollides`), other keys do not (`SitesDiffer`, `CanariesDiffer`); a secret under a key with a dot is judged by
  what stands behind it (`LeafUnderKey`, `VersionedTokenStays`).
- Of two different arms recorded for one id the later silently counts (`RepeatedRowOverrides`);
  order is irrelevant exactly without such rows (`TableOrderIrrelevant`).
- An open self-handoff passes the release gate (`SelfHandoffPasses`).

`SignedCancels` and `TruncatingIsCaught` concern two variants that the repository keeps as known to be broken.

## Model

| member | source | states |
|---|---|---|
| NoiseScan.StripNoise | scripts/check-test-env-globals.py:105-173 | the index loop over the copied text, with its five branches, returns the specified stripping on every text, unterminated comments and strings included |
| NoiseScan.LineComment | scripts/check-test-env-globals.py:105-173 | the loop for a line comment blanks the comment in place, touches nothing else and stops at the newline |
| NoiseScan.BlockComment | scripts/check-test-env-globals.py:105-173 | the depth counter consumes exactly the nested comment and blanks all of it but its newlines |
| NoiseScan.RawString | scripts/check-test-env-globals.py:105-173 | the body of a raw string, up to the quote with as many hashes, is blanked; a lone `r` is code |
| NoiseScan.QuotedString | scripts/check-test-env-globals.py:105-173 | a string body is blanked unless its collected characters spell an identifier; delimiters stay |
| NoiseStripper.StripShape | scripts/check-test-env-globals.py:105-173 | length and every newline position are kept and a character changes only to a space |
| NoiseStripper.StripKeepsLines | scripts/check-test-env-globals.py:430 | a line number counted on the stripped text up to any offset is the line number in the original |
| NoiseStripper.StripIdempotent | scripts/check-test-env-globals.py:105-173 | stripping stripped text changes nothing, on every text |
| NoiseStripper.IdentSays | scripts/check-test-env-globals.py:166 | an identifier is a letter or underscore followed by letters, digits and underscores |
| NoisePrinter.StripPrintedIff | scripts/check-test-env-globals.py:105-173 | on a printed program no character of a comment or of a non-identifier string body survives and all code does, however they are nested, exactly when no char literal holds a double quote and no such body spells an identifier once its escapes are dropped |
| NoisePrinter.EscapesMask | scripts/check-test-env-globals.py:146-162 | a string of a letter, an escape and a letter is left whole though its body is no identifier |
| NoisePrinter.QuoteCharLoses | scripts/check-test-env-globals.py:105-173 | a char literal of a double quote makes the scanner swap code and strings, so that even a comment character survives |
| RustSource.BlockLenPrinted | scripts/check-message-whitespace.py:200-213 | a nested comment is consumed to its own end at every depth, whatever follows |
| LiteralScan.IterLiterals | scripts/check-message-whitespace.py:189-263 | the whole-file loop yields exactly the specified literals, in order and each with its line list, on every text |
| LiteralScan.ReadLiteral | scripts/check-message-whitespace.py:227-261 | the inner loop returns the literal's text and lines and stands behind it on the right line, closed or not |
| LiteralScan.SkipBlock | scripts/check-message-whitespace.py:200-213 | a comment is stepped over and the line counter agrees with the newlines passed |
| LiteralLines.LinesLineUp | scripts/check-message-whitespace.py:229-261 | for every literal of every file: what is yielded are the file's characters between the quotes, in order and all but continuations, each with one plus the newlines before it; there is one line too many exactly when the literal runs to the end of the file and an odd number of backslashes ends it |
| LiteralLines.LoneBackslash | scripts/check-message-whitespace.py:243-244 | such a file: five lines are yielded for a literal text of four characters |
| LiteralLines.DanglingIff | scripts/check-message-whitespace.py:235-246 | the reader stops in a lone backslash exactly when the body reaches the end of the text and an odd number of backslashes ends it |
| LiteralLexer.OffsetsIncrease | scripts/check-message-whitespace.py:230-258 | characters are yielded in source order, none twice |
| LiteralLexer.LiteralOpens | scripts/check-message-whitespace.py:220-227 | every literal opens at a quote that no letter, digit or underscore stands in front of |
| LiteralLexer.ByteStringSkipped | scripts/check-message-whitespace.py:227 | a byte string yields nothing |
| LiteralPrinter.LexemesOfPrinted | scripts/check-message-whitespace.py:189-263 | on every program printed from code, comments, raw strings, char literals with any escape, lifetimes and ordinary literals the reader yields exactly the ordinary literals, in order: it never loses its place |
| LiteralPrinter.LongEscapeReads | scripts/check-message-whitespace.py:214-218 | in any text a char literal with a longer escape is passed whole exactly when its closing apostrophe does not look like the start of a char literal; otherwise that one is passed with it, and reading goes on behind |
| LiteralPrinter.LongEscapeLoses | scripts/check-message-whitespace.py:124 | in an array of two char literals, the first with a longer escape, the reader opens a literal the program does not have |
| LiteralPrinter.BodyPrinted | scripts/check-message-whitespace.py:229-258 | a literal's body is read back item by item, continuations resolved to nothing, escapes kept as spelled |
| SpliceLines.SpliceKeepsTexts | scripts/check-message-whitespace.py:235-242 | inserting a backslash, a newline and any blanks inside a literal of any file, at a non-escape position before a non-blank, leaves the text of every yielded literal of the file unchanged |
| SpliceLines.SpliceMovesLines | scripts/check-message-whitespace.py:229-261 | and every character of every literal is then yielded with the line it had, or with the next one when it stands behind the splice |
| LiteralSplice.TokenStable | scripts/check-message-whitespace.py:190-263 | a token that ends before a quote is read the same whatever follows that quote |
| SpaceScan.FindAll | scripts/check-message-whitespace.py:136-145 | one pattern adds exactly the matches it makes left to right that stand after three words |
| SpaceScan.OffendingRuns | scripts/check-message-whitespace.py:128-146 | the runs reported, in order and each once, are exactly the offending ones of both patterns, with their texts |
| SpaceScan.UnreportedRuns | scripts/check-message-whitespace.py:149-169 | the count is the number of interior runs of four or more that are not reported |
| SpaceRuns.RunsAccounted | scripts/check-message-whitespace.py:128-169 | interior runs of four or more equal reported plus unreported for every literal without layout escapes, despite overlapping patterns, consumed boundary characters and the quote offset |
| SpaceRuns.MatchedIff | scripts/check-message-whitespace.py:136-145 | a run of the pattern's shape is matched exactly when no match ends in the character in front of it |
| SpaceRuns.MissedIsConsumed | scripts/check-message-whitespace.py:136-145 | otherwise it is the match in front of it that took its left boundary |
| SpaceRuns.BoundariesSay | scripts/check-message-whitespace.py:102-110 | the characters that may stand around a run of either pattern |
| SpaceRuns.RunSays | scripts/check-message-whitespace.py:114 | a run is counted where four spaces stand and no space in front of them |
| SpaceRuns.AfterProseSays | scripts/check-message-whitespace.py:142-145 | a run is reported only where at least three words begin in front of it, leading quotes aside |
| SpaceRuns.LaidOutSays | scripts/check-message-whitespace.py:128-135 | a literal is not graded exactly when it holds a newline or tab, or spells one |
| SpaceRuns.OffendingInterior | scripts/check-message-whitespace.py:128-146 | whatever is reported is an interior run of the body, at the offset less one |
| SpaceScan.ScanText | scripts/check-message-whitespace.py:266-274 | one report per offending literal of the file, in order, on the line its first run stands on |
| JournalFrames.ParseFrames | scripts/f23-journal-forensics.py:47-71 | the offset loop returns the frames and the manner of stopping (clean, torn, refused) that the recursive reading specifies, on every byte string |
| JournalCodec.RoundTrip | scripts/f23-h1-legacy-journal.py:155-160 | reading the concatenation of framed bodies yields exactly those bodies, all with a good digest |
| JournalCodec.TornTail | scripts/f23-journal-forensics.py:53-67 | any byte prefix yields exactly the frames wholly inside it and is never refused |
| JournalCodec.TornJournal | scripts/f23-journal-forensics.py:47-71 | a truncated journal yields the longest list of written bodies that fits, each good |
| JournalCodec.ParseSpells | scripts/f23-journal-forensics.py:47-71 | whatever the bytes, they are the spelling of the frames read followed by what stopped the reader: nothing is skipped or invented |
| JournalCodec.DamageIsIsolated | scripts/f23-journal-forensics.py:59-71 | replacing one frame's body or digest leaves the result of every other frame as it was |
| JournalCodec.DamageIsFlagged | scripts/f23-journal-forensics.py:68-70 | a damaged digest is always flagged, a damaged body unless it collides with the original under the hash |
| JournalCodec.BadHeaderRefused | scripts/f23-journal-forensics.py:59-62 | a header whose second number is not the inverse of its first is refused after all frames in front of it were read |
| JournalCodec.LengthTamperRefused | scripts/f23-journal-forensics.py:59-62 | altering only the length field, or only its inverse, is refused for every other value |
| JournalCodec.BigEndian | scripts/f23-journal-forensics.py:59-60 | a length field is the number whose base-256 digits are its bytes, the first weighing most |
| JournalCodec.InverseFlips | scripts/f23-journal-forensics.py:59-61 | the second number of a header has exactly the other bit at each of the 32 places |
| JournalCodec.MagicsSpell | scripts/f23-journal-forensics.py:59-61 | the two magics are the byte strings the format names |
| JournalEnvelopes.MaterialRecovered | scripts/f23-h1-legacy-journal.py:133-152 | for every event, even one containing the text that introduces a checksum, the bytes that were hashed and the checksum are recovered exactly |
| JournalEnvelopes.SpliceRecovered | scripts/f23-journal-forensics.py:74-87 | the last occurrence is the spliced one, because neither the checksum nor the closing characters hold a comma |
| JournalEnvelopes.RecoveredSpliced | scripts/f23-journal-forensics.py:74-87 | conversely whatever is recovered, spliced again, is the body that was read |
| JournalEnvelopes.HexSpells | scripts/f23-h1-legacy-journal.py:133-152 | a checksum is spelled two small hexadecimal digits per byte, the high half first |
| JournalEnvelopes.SpliceSays | scripts/f23-h1-legacy-journal.py:133-152 | the checksum member, under its name, goes in front of the brace that closes the material |
| JournalEnvelopes.Report | scripts/f23-journal-forensics.py:90-137 | the loop's exit code: 2 when a header is refused or a checksum is no ASCII text, otherwise 1 when some frame is inconsistent and 0 when none is |
| JournalEnvelopes.VerdictSays | scripts/f23-journal-forensics.py:90-137 | the exit code, said of the frames alone: 0 exactly when no header is refused and each frame's digest is the hash of its body and each envelope is some material with that material's own checksum spliced in; 2 exactly for a refused header or a checksum of a well-sealed frame that is no text; 1 otherwise |
| JournalEnvelopes.ChainReportsClean | scripts/f23-h1-legacy-journal.py:181-199 | any truncation of any chained journal the writer can produce is reported self-consistent |
| JournalEnvelopes.DamagedChainReported | scripts/f23-journal-forensics.py:90-137 | a chained journal with the body or the digest of one frame replaced is answered 1, unless the replaced body collides with the written one under the hash |
| JournalEnvelopes.ConsistentIff | scripts/f23-journal-forensics.py:102-113 | an envelope frame with a good digest is consistent exactly when it is some material with that material's own checksum spliced in |
| JournalEnvelopes.ChainAt | scripts/f23-h1-legacy-journal.py:181-199 | each body of a chain carries its number and the previous body's checksum, at every index |
| BackupWriters.WriterMain | scripts/sqlite-backup-writer.py:110-138 | the commit/publish/START loop takes only steps of the transition system and ends with as many rows as commits succeeded, the marker showing that number and START up after the first |
| BackupWriters.PublishProgress | scripts/sqlite-backup-writer.py:36-49 | write-temp-and-rename passes through states in which the marker still shows the old number, never a partial one |
| BackupWriters.NextSound | scripts/sqlite-backup-writer.py:110-134 | every step of a writer, a kill at any point included, keeps the invariant and never takes back a row or START |
| BackupWriters.MarkersUnderReport | scripts/sqlite-backup-writer.py:110-134 | in every state of every interleaving a writer's committed rows are exactly 1..k and its marker shows k or k - 1 (absent for 0) |
| BackupWriters.RunMonotone | scripts/sqlite-backup-writer.py:36-49 | rows and markers never decrease along a run and START stays up |
| BackupWriters.StartedIsReadable | scripts/sqlite-restore-rollback-proof.py:131-150 | once START is up every later read of the marker gives a number between 1 and the committed rows, at most one behind |
| BackupWriters.MarkerSays | scripts/sqlite-restore-rollback-proof.py:131-150 | a marker reads as n exactly when its text is n in decimal, zeros in front and space around it aside; it is unreadable exactly when absent, empty exactly when blank |
| BackupWriters.TruncatingIsCaught | scripts/sqlite-backup-writer.py:52-64 | the in-place publisher has a run in which START is up and the marker reads as empty |
| BackupVerdict.ReadProgress | scripts/sqlite-restore-rollback-proof.py:131-150 | every writer's number, or an error naming the first marker that is missing, empty or no number |
| BackupVerdict.ReadProgressSucceeds | scripts/sqlite-restore-rollback-proof.py:131-150 | in every run, markers read at any times after their START was seen are all readable, each with a number from 1 to the rows committed by then and at most one behind |
| BackupVerdict.AccountRows | scripts/sqlite-restore-rollback-proof.py:153-180 | the loop's totals are the sums of shortfalls and of excesses over the writers, with each shortfall recorded |
| BackupVerdict.SignedIsDifference | scripts/sqlite-restore-rollback-proof.py:183-191 | the signed total is missing minus surplus, for all maps |
| BackupVerdict.AccountsAgree | scripts/sqlite-restore-rollback-proof.py:153-180 | nothing missing and nothing surplus exactly when every writer's count is what was needed |
| BackupVerdict.SignedCancels | scripts/sqlite-restore-rollback-proof.py:183-191 | the signed total is zero while 107 rows are lost |
| BackupVerdict.Judge | scripts/sqlite-restore-rollback-proof.py:477-524 | the driver's verdict from counts, integrity and an unreadable database is the specified one |
| BackupVerdict.RollbackSays | scripts/sqlite-restore-rollback-proof.py:477-524 | whatever was restored, the rollback driver passes exactly a readable, sound database that has each row from 1 to each mark, some mark being positive, and says vacuous exactly for a sound one of which nothing was demanded |
| BackupVerdict.UnsoundFails | scripts/sqlite-restore-rollback-proof.py:497-524 | a database that cannot be read or is not sound fails, in both drivers, in every arm and for all marks |
| BackupVerdict.PassExact | scripts/sqlite-restore-rollback-proof.py:489-524 | PASS means, for all marks, that something was demanded and no row at or below a mark is missing, exactly when the database holds no row number below 1 |
| BackupVerdict.PassExactly | scripts/sqlite-restore-rollback-proof.py:489-524 | on such a database PASS, and the vacuous verdict, hold exactly when they should, integrity included |
| BackupVerdict.CountExact | scripts/sqlite-restore-rollback-proof.py:489-494 | the count up to n reaches n exactly when no row is missing, for all n, exactly when no row number is below 1 |
| BackupVerdict.RowZeroHides | scripts/sqlite-restore-rollback-proof.py:489-494 | a row numbered 0, which the query also counts, hides a missing one |
| BackupVerdict.SnapshotPasses | scripts/sqlite-restore-rollback-proof.py:477-524 | in every run, any snapshot that holds the rows committed at launch passes against marks read before launch |
| BackupVerdict.WindowAccuracy | scripts/sqlite-restore-rollback-proof.py:413-424 | in every run a mark's increase across a window differs from the commits made in it by at most one |
| BackupVerdict.RiseOfTwoIsACommit | scripts/sqlite-restore-rollback-proof.py:413-424 | in every run a mark that rises by two across a window proves a commit made in it |
| BackupVerdict.RisingMarkNeedsNoCommit | scripts/sqlite-restore-rollback-proof.py:416-425 | a run in which a mark rises across a window without any commit, so the liveness guard alone does not prove one |
| BackupVerdict.ArchiveJudge | scripts/sqlite-backup-consistency-proof.py:289-338 | the second driver's verdict, with its one signed total and its exemption for the quiescent arm |
| BackupVerdict.ArchiveSays | scripts/sqlite-backup-consistency-proof.py:289-338 | the archive driver says the same, but passes in the quiescent arm also where nothing was demanded and never says vacuous there |
| BackupVerdict.DriversAgreeExactly | scripts/sqlite-backup-consistency-proof.py:289-338 | outside the quiescent arm the two drivers give the same verdict for all marks exactly when the database holds no row number below 1 |
| BackupVerdict.ArchiveCancels | scripts/sqlite-backup-consistency-proof.py:304-331 | on another database an impossible row of one writer pays for a lost row of another and the second driver passes |
| EnvGraph.Closure | scripts/check-test-env-globals.py:532-540 | the worklist ends on cyclic dependencies and returns exactly the workspace packages reachable from the start |
| EnvGraph.CallersSay | scripts/check-test-env-globals.py:463-487 | the callers of a key are the functions other than itself that mention it |
| EnvGraph.ResolveCallers | scripts/check-test-env-globals.py:500-515 | the three-level frontier search finds a kind of test exactly when some chain of at most three calls, looked up as the search looks names up, reaches it |
| EnvGraph.SearchIsReachPast | scripts/check-test-env-globals.py:463-515 | on every call graph, cyclic or not, the search finds exactly the kinds reached over at most three call edges along chains in which no helper bears a qualified root key's name |
| EnvGraph.SearchIsReach | scripts/check-test-env-globals.py:463-515 | whatever it finds is reached over at most three call edges, and everything so reached is found when no helper shares the key's name |
| EnvGraph.SharedNameMisses | scripts/check-test-env-globals.py:500-510 | with such a helper an unserialized test three edges away is missed |
| EnvGraph.ClassifyPending | scripts/check-test-env-globals.py:489-528 | a helper write is unattributable exactly for a missing or colliding name; otherwise it is UNSERIALIZED-HELPER only if an unserialized test reaches its key, and exactly then - unreached exactly when nothing does - over chains past the key's own name, or over all chains when no helper shares it |
| EnvDebt.Partition | scripts/check-test-env-globals.py:921-948 | the loop's three buckets are the specified ones in order, and the used keys are exactly those that covered a site |
| EnvDebt.BucketsSay | scripts/check-test-env-globals.py:921-948 | a pair is live exactly when a hazardous site of it is a direct write or has no debt line and its binary runs at least two tests, sole exactly when the same holds with fewer than two, excused exactly when it has hazardous sites and all are listed helper writes |
| EnvDebt.FindingsShow | scripts/check-test-env-globals.py:921-948 | a live or sole finding shows exactly the pair's direct writes and unlisted helper writes, an excused one exactly its listed helper writes |
| EnvDebt.BucketsInOrder | scripts/check-test-env-globals.py:921-948 | the buckets keep the order of the pairs, at most one finding per pair |
| EnvDebt.SplitSites | scripts/check-test-env-globals.py:921-948 | the inner loop splits the hazardous sites of a pair into covered and uncovered, in order |
| EnvDebt.ExactlyOneBucket | scripts/check-test-env-globals.py:921-948 | a pair with a hazardous site is in exactly one of live, sole and excused, any other in none |
| EnvDebt.DirectNeverExcused | scripts/check-test-env-globals.py:921-948 | an excused pair has no direct write and all its hazardous sites are listed as debt; a direct write always fails the pair and is shown |
| EnvDebt.OtherPairsUntouched | scripts/check-test-env-globals.py:921-948 | one more debt line leaves the bucket and the sites of every pair without that site key as they were |
| EnvDebt.LineMovesItsSites | scripts/check-test-env-globals.py:921-948 | a new debt line moves exactly the helper sites of its key from failing to covered |
| EnvDebt.Gate | scripts/check-test-env-globals.py:971-1066 | exit 2 exactly when a control fails; exit 0 exactly when both hold, nothing is complained of, every debt line names a helper's write and no binary of at least two tests has a direct or unlisted write |
| EnvDebt.SiteKeysDiffer | scripts/check-test-env-globals.py:860-868 | sites of different files or functions have different keys |
| CanonicalConfig.CanonicalText | scripts/portability-migrate-state.py:134-146 | the line loop over its section dictionary returns the canonical form of the text with both home paths replaced |
| CanonicalConfig.HeaderSays | scripts/portability-migrate-state.py:139 | a header is any name between an opening and a closing bracket |
| CanonicalProof.CanonicalIff | scripts/portability-migrate-state.py:129-146 | two texts have the same canonical form exactly when they have the same headers and, per header, the same multiset of lines |
| CanonicalProof.CanonicalIdempotent | scripts/portability-migrate-state.py:134-146 | the canonical form is its own canonical form |
| CanonicalHome.WholeIdempotentIff | scripts/portability-migrate-state.py:134-146 | for non-empty paths without angle brackets or newlines, applying the whole function twice is applying it once, for all texts, exactly when neither path is part of the word HOME |
| CanonicalHome.PathsGone | scripts/portability-migrate-state.py:134 | for such paths nothing of either is left after both replacements |
| CanonicalHome.FromText | scripts/portability-migrate-state.py:135-146 | the canonical form holds no plain text that the file did not hold |
| CanonicalHome.MarkRespelled | scripts/portability-migrate-state.py:134 | with a root that the mark spells, the second application rewrites the mark |
| CanonicalProof.ReadBack | scripts/portability-migrate-state.py:144-146 | reading the output again gives the same sections, sorted: nothing but order is lost |
| CanonicalProof.ReorderInvariant | scripts/portability-migrate-state.py:120-124 | files that differ only in the order of section blocks, of lines within blocks and in blank lines have one canonical form |
| Redaction.Redact | scripts/portability-corpus-gen.py:122-143 | the recursion returns the specified document and appends the specified records to the caller's sink, in order, behind what was there |
| RedactionProof.RedactedLeaves | scripts/portability-corpus-gen.py:122-143 | shape, keys and every other leaf stay, each secret leaf becomes its canary, and the records are those of the secret leaves in document order |
| RedactionProof.OneRecordEach | scripts/portability-corpus-gen.py:139-142 | there are as many records as secret leaves |
| RedactionProof.SecretIsReplaced | scripts/portability-corpus-gen.py:134-143 | a secret at any site is replaced by that site's canary, which is recorded under the file and the site's path |
| RedactionProof.OthersStay | scripts/portability-corpus-gen.py:134-143 | a text that is no secret at its site stays at that site |
| RedactionProof.RedactTwice | scripts/portability-corpus-gen.py:122-143 | redacting again changes neither document nor sink, canaries being secret themselves |
| RedactionProof.NonInterference | scripts/portability-corpus-gen.py:122-143 | two documents have one redaction exactly when they agree but for leaves secret in both; then their sinks are equal too |
| RedactionProof.LeafUnderKey | scripts/portability-corpus-gen.py:135 | wherever it stands, a key is classified by what is left of it behind its last dot and before a bracket, which is the key itself exactly when it holds neither |
| RedactionProof.VersionedTokenStays | scripts/portability-corpus-gen.py:134-143 | so a secret under `token.v1` is kept and not recorded |
| RedactionProof.LeafUnderIndex | scripts/portability-corpus-gen.py:129-135 | list positions do not change the name a leaf is classified by |
| RedactionProof.LeafNameIs | scripts/portability-corpus-gen.py:135 | the classified name is what stands behind the last dot and in front of the next bracket, for every path |
| RedactionProof.SecretSays | scripts/portability-corpus-gen.py:98-105 | a secret has at least eight characters and, unless all are forced, stands under a name that holds one of six words, whatever the case, and is none of nine |
| RedactionProof.SitesDiffer | scripts/portability-corpus-gen.py:108-116 | different sites of a document have different key paths when no key is empty, holds a dot or ends in a bracketed number |
| RedactionProof.CanaryNamesSite | scripts/portability-corpus-gen.py:108-116 | two canaries are equal exactly when file and key path are |
| RedactionProof.CanariesDiffer | scripts/portability-corpus-gen.py:108-143 | two secret leaves under such keys, in one document or in two files, carry one canary - in the redacted documents and in the records - exactly when they are the same site of the same file, the hash telling the two texts apart and file names holding no NUL |
| RedactionProof.NotApartCollides | scripts/portability-corpus-gen.py:124-133 | every other key takes part in a collision of two sites |
| RedactionProof.EveryDottedKeyCollides | scripts/portability-corpus-gen.py:125 | below the root every key with a dot has the path of the keys around the dot |
| RedactionProof.BracketedKeysCollide | scripts/portability-corpus-gen.py:131 | a key ending in a bracketed number, or being one, has the path of a list position |
| RedactionProof.EmptyKeysCollide | scripts/portability-corpus-gen.py:125 | an empty key at the root leaves no trace in the path |
| RedactionProof.DottedKeysCollide | scripts/portability-corpus-gen.py:108-116 | a key with a dot gives two leaves one path and one canary |
| GhaProof.EvalIsTruth | scripts/check-windows-attribution.py:481-512 | for every formula over the atoms, written with the parentheses precedence needs and any others, the evaluator returns its truth value over the atoms' values when all atoms can be read and None otherwise, short-circuits notwithstanding |
| GhaProof.EvalIff | scripts/check-windows-attribution.py:464-512 | on any tokens the answer is b exactly when there are none and b is true, or they spell a readable formula of truth value b |
| GhaProof.AtomSays | scripts/check-windows-attribution.py:481-512 | `startsWith` is answered true exactly when the ref is the prefix and something behind it, a comparison exactly on equality, the marker exactly when it stands somewhere in the messages, the publication atom as the negated flag, as true on a push without one and else not at all; no other atom is answered |
| GhaProof.EvalSaysIff | scripts/check-windows-attribution.py:464-512 | on any tokens the answer is b exactly when there are none and b is true, or they spell a formula that denotes b, the atoms meaning what `AtomSays` states |
| GhaProof.FoldGathered | scripts/check-windows-attribution.py:464-478 | an n-ary node folds to the conjunction or disjunction of all its operands, or to an error if one operand does |
| LaneReachability.CheckLanes | scripts/check-windows-attribution.py:564-614 | reported are exactly the cases routed against what is wanted, with the admitting jobs, and the jobs unreadable in some case; a workflow without Windows test jobs is reported |
| LaneReachability.SilentIff | scripts/check-windows-attribution.py:564-614 | nothing is reported exactly when there is a Windows test job and, in every case, each of their conditions is empty or a readable formula and one is empty or true just when a push must be admitted |
| LaneReachability.LanesReach | scripts/check-windows-attribution.py:533-561 | a silent check means that ordinary lane pushes and marked branch pushes reach a Windows test job and unmarked branch pushes reach none |
| LaneReachability.WindowsLegAnswers | .github/workflows/ci.yml:1069-1070 | on every push without a publication flag the condition is answered true exactly for a branch whose name begins with `lane/` or a message with the marker |
| LaneReachability.WindowsLegSilent | .github/workflows/ci.yml:1069-1070 | a workflow whose one Windows test leg carries this condition is silent: the three fixed pushes are routed as wanted |
| LimitsGate.HostSpread | scripts/check-model-limits-freshness.py:473-496 | least and greatest context over all hosts serving an id, None exactly for fewer than two rows |
| LimitsGate.ScanPassthrough | scripts/check-model-limits-freshness.py:597-700 | the nested loops yield exactly the findings that the rows, the arms and the pins call for |
| LimitsGate.ScanFirstParty | scripts/check-model-limits-freshness.py:737-843 | the same for arms found by the first fragment that occurs in the id |
| LimitsGate.Observe | scripts/check-model-limits-freshness.py:609-629 | the dictionary filled by the loop holds, per in-scope id, every context, every known output and every host of its vendor rows |
| LimitsProof.NoFailIff | scripts/check-model-limits-freshness.py:631-715 | no finding is a FAIL exactly when every observed id has an acceptable arm or is an open-weights id with a host spread of at least two |
| LimitsProof.RowsAreCovered | scripts/check-model-limits-freshness.py:597-715 | then every in-scope vendor row with a context is covered: its arm, unless pinned on exactly these numbers, exceeds neither the row's context nor its known output and reaches nine tenths of the vendor floor |
| LimitsProof.RowsAreCoveredRaw | scripts/check-model-limits-freshness.py:609-715 | the same on catalogue rows alone: rows without a context do not count, outputs that repeat the context are unknown, and an id without an arm is open-weights with two hosts apart by a factor of two |
| LimitsProof.RowOrderIrrelevant | scripts/check-model-limits-freshness.py:609-629 | the set of findings does not depend on the order of catalogue rows |
| LimitsProof.TableOrderIrrelevant | scripts/check-model-limits-freshness.py:604 | the table does not depend on the order of recorded arms exactly when rows of one id record one arm |
| LimitsProof.RepeatedRowOverrides | scripts/check-model-limits-freshness.py:604 | of two arms recorded for one id the later silently counts, so there order matters |
| ReleaseGate.ReadFiles | scripts/check-release-readiness.py:413-424 | every parsed record is kept and every unclean file is a problem, also when it yielded a record |
| ReleaseGate.ClassifyAll | scripts/check-release-readiness.py:368-383 | the kind per path, a later record of one path counting, and a problem for each missing or unknown kind |
| ReleaseProof.ClassifySays | scripts/check-release-readiness.py:368-383 | a kind counts exactly when it is one of the three words with at most space around it |
| ReleaseGate.BlockingSet | scripts/check-release-readiness.py:463-502 | what core owes and what was handed out with nothing carrying it, in order, the well-formed handoffs of all defects, and a problem per malformed one |
| ReleaseProof.OwesSays | scripts/check-release-readiness.py:484-502 | core owes what is not met under its name; elsewhere is owed what is not met or blocked, is another owner's and has a blank handoff |
| ReleaseProof.WellFormedSays | scripts/check-release-readiness.py:214 | a handoff is well-formed exactly when it is an owner, a slash, a repository, a hash and a number, none of them empty |
| ReleaseGate.CrossCheck | scripts/check-release-readiness.py:536-561 | a problem for exactly the features and tasks that their tracker labels as bugs |
| ReleaseProof.HidesSays | scripts/check-release-readiness.py:536-551 | a feature or task is labelled as a bug exactly when the issue its number reads as, zeros in front aside, carries one of five labels |
| ReleaseGate.LedgerFor | scripts/check-release-readiness.py:574-580 | the open criteria of the first record bearing the name, None when none does |
| ReleaseGate.ResolveHandoffs | scripts/check-release-readiness.py:582-611 | a problem for exactly the targets that do not exist, or are closed and either unledgered or still owing |
| ReleaseGate.Sift | scripts/check-release-readiness.py:643-654 | a bucket split by milestone: kept in order, noted per other milestone, or collected as claimed by no release |
| ReleaseProof.MilestoneSays | scripts/check-release-readiness.py:638-642 | an issue's milestone is the one its tracker has for the number it reads as |
| ReleaseGate.Run | scripts/check-release-readiness.py:386-720 | the one answer of the gate: the first reason not to judge, or all problems, the blocking items in order and the deferrals |
| ReleaseProof.LivePassIff | scripts/check-release-readiness.py:386-720 | a live run exits 0 exactly when all files parse and are classified, some entry is a defect, every handoff of a defect is well-formed, exists and is no closed carrier that is unledgered or owing, no label contradicts a kind, and every criterion still owed on a defect sits under another release's milestone |
| ReleaseProof.OfflinePassIff | scripts/check-release-readiness.py:504-518 | an offline run exits 0 exactly when the structure is sound and no defect owes anything: milestones excuse nothing there |
| ReleaseProof.PlacedOnce | scripts/check-release-readiness.py:632-662 | every owed criterion of a numbered issue is in exactly one of kept, deferred and unclaimed, and one of an unnumbered issue is reported |
| ReleaseProof.DeferredIff | scripts/check-release-readiness.py:643-654 | a numbered issue is noted under a milestone exactly when that is its own and not this release |
| ReleaseProof.RefNamesOne | scripts/check-release-readiness.py:574-577 | numbered issues of different repositories or spellings have different names |
| ReleaseProof.SelfHandoffPasses | scripts/check-release-readiness.py:463-502 | what another lane owes may name its own open issue as handoff and the gate passes |

## Left out

- Processes, files, the network, `gh`, SQLite and the clock: their results are inputs (texts, byte strings, records, tracker maps, sets of rows, the outcome of each commit).
- Message texts, printing, argument parsing, the self-tests and the order in which problems or findings are listed.
- SHA-256, JSON and YAML: the hash is any function with a 32-byte output, an event any byte string; collisions are named where they matter.
- Regular expressions beyond the patterns used. Word characters are ASCII letters, digits and `_` (the lookbehind in `iter_literals` uses Unicode `isalnum`), `\d` and `isdigit` are ASCII digits, and `lower()` folds ASCII only.
- Byte strings `b"..."` are not in the printed programs: the reader does not take them for literals.
- PassExactly: for databases without row numbers below 1; that this is the exact condition is `PassExact`.
- CanariesDiffer: no fixed-length hash is free of collisions, so the claim is made of any two sites whose texts the hash tells apart.
- Gate: whether the skip list and the debt file's own lines are well-formed is a number of complaints given to it; `--shared-process-targets` is not modelled.
- SiteKeysDiffer: for function names without a colon, and for paths already relative to the root.
- WholeIdempotentIff: paths that are empty or hold `<`, `>` or a newline are left out.
- PlacedOnce: an unnumbered issue whose text spells a numbered one's name may appear to be deferred as well; it is reported in any case.
- Redact: dictionary keys are strings, and a repeated key, which a parsed document cannot have, is kept as a second field.
- EvalIsTruth: atoms are tokens; that the substitutions and replacements on the text find exactly these atoms is not modelled, nor are Python expressions other than the operators, parentheses and Boolean constants. Truth is taken over the script's own readings of the atoms: it compares strings exactly and reads `!` before a comparison as negating the comparison, where GitHub ignores case and binds `!` tighter.
- ReadProgress: a marker's number is plain decimal digits with surrounding space; other spellings `int()` takes are errors.
- ScanPassthrough: the patterns for scope and the id normalisation are parameters, numbers are integers, and the nine-tenths test is exact where the script rounds a float; no integer below 2^50 is affected.
- ScanFirstParty: the informational notes of that scan and `scan_open_weights_arms` are not modelled.
- Run: the milestone, the parsed ledger and the answers of the trackers are inputs; uncorroborated classifications are only printed and are not modelled.
- The guards with which the drivers abort before judging, but for the readable markers (`ReadProgress`), the rise of the marks (`WindowAccuracy`) and the empty demand (`Judge`).
- The rest of the repository: the Rust engine is not part of this model, nor are the receipt, ledger and routing checks, which would add only simple members.
