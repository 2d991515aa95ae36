# Verified model of the Athena ledger, shards, mount lock and metric files

A Dafny 4.11 model of four stateful parts of the repository and of the version string they depend on, with proofs of
what they keep over whole runs. `dafny verify dfyconfig.toml` checks everything.

## What is modelled

* **Ledger** (`CanonicalJson`, `JsonReader`, `HashChain`, `Framing`, `LedgerTable`, `LedgerClient`, `VerifyLedger`,
  `VerifyMain`). The payload serializer with a reader of JSON text to compare it with, the NUL-framed entry hash at the
  level of UTF-8 bytes and what that framing determines, the table with its CHECK constraint and id sequence, the
  client's genesis seeding and append, the verifier's replay loop and its continuity check. SHA-256 is any function `h`
  from bytes to 64 lowercase hex characters. Nothing says it is injective, so a commitment theorem reads: the histories
  are equal, or these two bodies, one from each table, differ and have one digest.
* **Monthly segments** (`Calendar`, `SegmentHash`). Gregorian month windows in UTC, the id list of a month, and the
  chain of segment hashes. Instants are microseconds since the epoch.
* **Parquet shards** (`DataFrame`, `ParquetShard`). The export of one hour as a loop over symbols on a tree of files. A
  `Job` carries the query result in whatever order it arrived and, for each symbol, what happens to its write: it
  succeeds, raises, or the process is killed before, during or after the rename. Frames are compared as
  `_data_equals` does.
* **Readonly mount** (`ReadonlyMount`). The lock and unlock transitions over an executor whose next calls are fixed by a
  script of faults; a raising chattr call may or may not have taken effect. A `status()` that raises ends the call, as
  both of its calls are outside the guarded part.
* **Metric files** (`MetricText`, `ReadonlyMetric`, `LoggerSync`, `SweepProtocol`). Rendering and reading back of the two
  text files, runs of emitters with crashes and denied renames, and the interleaving of concurrent logger-sync emitters,
  in which a sweep's stat and unlink are separate steps.
* **Policy version** (`PolicyVersion`). The leftmost regex search that cuts the SHA out of `git describe` output.

Code that updates state is modelled by classes and loops, each proved equal to a function of the old state; the theorems
are about those functions, over every run. What the functions themselves compute is fixed as
well: hashed and published texts, columns, file names, time windows, limits and errors are spelled out by literals or by
an independent description.

## Where code and documentation differ

The model follows the code.

* Python's `$` also matches before one final newline. A symbol, a commit text or an archived segment hash that ends in a
  newline therefore passes (`NewlineSymbolPasses`, `ExtractExact`, `NewlineIsAcceptedAndDiverges`); the newline stays in
  the shard's file name and in the chained hash and is dropped from the SHA.
* The continuity check is documented to verify that the month is chained to the previous archive. It recomputes the hash
  and reports it but compares it with nothing: `Audit` shows that the verdict depends on the archive's shape only, and
  `WrongArchivePasses` that any digest in it is accepted. `ContinuityReproduces` and `ContinuityCommits` say what a
  reader of the report may conclude from comparing.
* The sweep of stale tmp files is documented never to remove an in-flight file. It stats and unlinks in two steps, so
  with a process id reused after a crash it can. `OpenIsSafeExactly` gives the exact condition, which is about the
  emitter's own opening alone, and `PromptRenameCanFail` is a whole run that loses its file.
* A failing path is documented to leave the mount PARTIAL. `PartialExactly` gives the condition, and
  `EffectiveFaultIsLocked` one failing path that ends in LOCKED.
* The tmp file and rename are documented to keep a killed export from blocking its hour. They do so for the shard being
  written; one that was renamed before the kill makes every retry in the default mode raise (`FailModeNeverResumes`),
  while a call in check mode completes the hour (`CheckCompletes`).
* Hashing raises when a stored prev hash or policy SHA is not ASCII; the verifier then has no report to give.
* Both metric readers let the `OverflowError` of an infinite value through, and the logger-sync reader also an
  `IndexError` on a line without a value. `ReaderErrorsExactly` and `ReaderOverflowsExactly` say on which files,
  `ReaderRaises` gives two, and `UnreadableFileStays` shows that no later emit repairs such a file. The emitters never
  write one: `LastSuccessIsRefined`, `HistoryIsRefined`.
* The framing is documented as unambiguous because no field holds a NUL. `FramingExact` shows that this is needed for
  every single entry, and the theorems beside it what remains when hashing must not raise or the prev is known. The
  client writes NUL-free fields only, so its tables are committed to by their last hash; for other clean tables
  `TipCommitsExactly` gives the condition.

## Model

| member | source | states |
|---|---|---|
| JsonReader.SerializeIsCanonical | packages/athena-execution/athena/execution/ledger/hash_chain.py:48-56 | Two payloads serialise to one text exactly when they are equal up to the order of object keys, at every depth |
| JsonReader.SerializeRoundTrip | packages/athena-execution/athena/execution/ledger/hash_chain.py:48-56 | Reading the serialised text by the RFC 8259 grammar gives back the payload up to key order, with nothing left over |
| JsonReader.ReadsPrinted | packages/athena-execution/athena/execution/ledger/hash_chain.py:56 | Compact JSON text in front of a closing delimiter is read as the printed value, and the reader stops where it ends |
| JsonReader.ReadsChar | packages/athena-execution/athena/execution/ledger/hash_chain.py:56 | Every string escape, surrogate pairs included, is read back as its character |
| JsonReader.EscapeIsShortest | packages/athena-execution/athena/execution/ledger/hash_chain.py:48-56 | Every character is written in the one shortest printable text that reads as it |
| CanonicalJson.SortKeysKeeps | packages/athena-execution/athena/execution/ledger/hash_chain.py:56 | Sorting the keys changes a payload only in the order of its keys |
| CanonicalJson.SortKeysDecides | packages/athena-execution/athena/execution/ledger/hash_chain.py:56 | Sorting keys at every depth identifies exactly the payloads that differ in key order |
| CanonicalJson.SortKeysAscend | packages/athena-execution/athena/execution/ledger/hash_chain.py:56 | In the serialised value the keys of every object, at every depth, ascend strictly, character by character |
| CanonicalJson.SampleText | packages/athena-execution/athena/execution/ledger/hash_chain.py:56 | A payload whose keys arrive as b, a is written as {"a":1,"b":[null,true,false]} |
| CanonicalJson.TokensSpelled | packages/athena-execution/athena/execution/ledger/hash_chain.py:56 | The texts of null, the booleans, integers, the empty string, array and object |
| CanonicalJson.SerializePrintable | packages/athena-execution/athena/execution/ledger/hash_chain.py:19-21 | The serialised text is printable ASCII, so it never holds a raw NUL |
| HashChain.BodyUnique | packages/athena-execution/athena/execution/ledger/hash_chain.py:81-91 | If one entry is NUL-free, an equal joined body forces the other entry to be NUL-free and all fields to agree, up to null and empty prev |
| HashChain.JoinNulOneSided | packages/athena-execution/athena/execution/ledger/hash_chain.py:14-30 | The NUL framing of any number of fields is unambiguous as soon as one side is NUL-free |
| Framing.SameBodyIffSamePieces | packages/athena-execution/athena/execution/ledger/hash_chain.py:81-91 | Two entries, NULs or not, have one joined body exactly when the pieces between the NULs of their four texts agree and the user does |
| Framing.FramingExact | packages/athena-execution/athena/execution/ledger/hash_chain.py:28-30 | The framing determines an entry's fields exactly when they are NUL-free: every entry with a NUL has the same body as another one |
| Framing.FramingExactEncodable | packages/athena-execution/athena/execution/ledger/hash_chain.py:81-91 | Among entries whose prev and SHA are ASCII, so that hashing does not raise, it determines exactly those with NUL-free prev and SHA and no ASCII piece that could be cut off payload or event |
| Framing.FramingExactSamePrev | packages/athena-execution/athena/execution/ledger/hash_chain.py:81-91 | With the prev given as well, it determines exactly those with a NUL-free SHA, no ASCII piece in the payload after its first NUL and none in the event before its last |
| HashChain.FramingAmbiguousWithNul | packages/athena-execution/athena/execution/ledger/hash_chain.py:28-30 | An example of two such bodies: a NUL moves from the end of the payload to an empty policy SHA |
| HashChain.BodySpelled | packages/athena-execution/athena/execution/ledger/hash_chain.py:81-91 | The pre-image is prev, payload, policy SHA, event and decimal user id in UTF-8, in this order, with one NUL byte between them |
| Encoding.Utf8Injective | packages/athena-execution/athena/execution/ledger/hash_chain.py:86-90 | Encoding fields as UTF-8 loses nothing |
| Encoding.Utf8CharIsShortest | packages/athena-execution/athena/execution/ledger/hash_chain.py:86 | Each code point is encoded in its shortest form, as RFC 3629 demands, with lead and trail bytes in range |
| Encoding.Utf8OfAscii | packages/athena-execution/athena/execution/ledger/hash_chain.py:85-90 | ASCII text is encoded byte for byte |
| Encoding.Utf8Samples | packages/athena-execution/athena/execution/ledger/hash_chain.py:86 | The two-, three- and four-byte encodings of three characters |
| Encoding.StrUnique | packages/athena-execution/athena/execution/ledger/hash_chain.py:89 | A decimal number is cut off a text in one way only, so printed ids and user ids are recoverable |
| Encoding.NoLeadingZero | packages/athena-execution/athena/execution/ledger/hash_chain.py:89 | A printed number has no leading zero |
| VerifyLedger.VerifyChain | scripts/verify_ledger.py:32-83 | The replay loop returns exactly the local reports, raises exactly when a stored prev or SHA is not ASCII, and returns none exactly on a clean table |
| VerifyLedger.NoReportsIffClean | scripts/verify_ledger.py:48-83 | No report exactly when every row links to the recomputed hash of the row before and carries its own hash |
| VerifyLedger.ReportsExactly | scripts/verify_ledger.py:48-83 | A report is made exactly for a row whose prev differs from the hash recomputed from the entry before it, or whose own stored hash differs from its recomputed one |
| VerifyLedger.RowReportedTwice | scripts/verify_ledger.py:58-78 | A row with both faults is reported twice, its link first |
| VerifyLedger.PrevReportsIgnoreStoredHashes | scripts/verify_ledger.py:40-42 | The prev reports depend on ids and hashed columns only: no stored hash has a say in them |
| VerifyLedger.OneHashChanged | scripts/verify_ledger.py:75-81 | One stored hash overwritten in a clean table gives exactly one report, about that row |
| VerifyLedger.OneEntryChanged | scripts/verify_ledger.py:40-42 | One entry changed under a kept prev and stored hash gives exactly its own report and, unless it is the last row, one prev break of the next |
| VerifyLedger.ReportsStayLocal | scripts/verify_ledger.py:40-42 | Changing k rows of a clean ledger gives at most 3k reports, each about a changed row or its successor |
| VerifyLedger.TipCommitsToHistory | scripts/verify_ledger.py:44-83 | Two clean ledgers with one last hash have the same length and hashed columns, or two of their row bodies collide, provided every row of one is framed (a NUL-free table is) |
| VerifyLedger.TipCommitsExactly | scripts/verify_ledger.py:44-83 | Unless a clean ledger's own rows collide, its last hash commits to it exactly when every row is framed |
| VerifyLedger.UnframedHasTwin | scripts/verify_ledger.py:44-83 | A clean ledger with an unframed row has a twin with other hashed columns but the same bodies and hashes, on which the verifier reports nothing |
| VerifyLedger.TwoReadingsOfOneRow | scripts/verify_ledger.py:44-83 | Two clean one-row ledgers with one hash and one body that differ in payload and policy SHA |
| VerifyLedger.TamperIsDetected | scripts/verify_ledger.py:3-5 | A table that differs from a clean, framed one in a hashed column but keeps the last hash is reported, makes hashing raise, or exhibits a collision; UnframedHasTwin shows what happens otherwise |
| VerifyLedger.TruncationIsInvisible | scripts/verify_ledger.py:44-83 | Every prefix of a clean ledger passes, so a cut-off tail is not reported |
| VerifyMain.Audit | scripts/verify_ledger.py:112-165 | The verdict is OK exactly on a clean table with no continuity asked or a well-shaped archive, CHAIN_BROKEN exactly on an unclean but hashable one, VERIFY_FAILED otherwise; reports found before a failure are kept |
| VerifyMain.ArchiveLoads | scripts/verify_ledger.py:95-109 | Every archive the monthly job writes passes the shape check, under its own hash and month |
| VerifyMain.AcceptsExactly | scripts/verify_ledger.py:95-109 | An archive is accepted exactly when it is an object with a month and, under segment_hash, a text of 64 lowercase hex digits and perhaps one newline |
| VerifyMain.RefusalsSpelled | scripts/verify_ledger.py:95-109 | The error of a refused archive: unreadable, no object, its missing keys in order, or no hash |
| VerifyMain.ArchiveSpelled | scripts/monthly_ledger_chain.py:112-124 | Every column of the month is in the archive under its own key |
| VerifyMain.MonthLabelSpelled | packages/athena-execution/athena/execution/ledger/segment_hash.py:98 | A month label is the year in four digits, a hyphen and the month in two |
| VerifyMain.ContinuityReproduces | scripts/verify_ledger.py:137-153 | Fed the archive of the month before, the verifier recomputes exactly the hash the monthly job publishes next |
| VerifyMain.ContinuityCommits | scripts/verify_ledger.py:143-155 | Recomputed hashes are equal when previous hash, id list and policy SHA are, and only then unless a collision is at hand |
| VerifyMain.WrongArchivePasses | scripts/verify_ledger.py:95-155 | The published archive with any other digest in it is accepted too; the recomputed hash is the next published one exactly when the digest was the right one, up to a collision |
| VerifyMain.RecomputeSpelled | scripts/verify_ledger.py:137-155 | The continuity part holds the archive's month and hash, the asked month, and its digest on top of that hash |
| VerifyMain.NewlineIsAcceptedAndDiverges | scripts/verify_ledger.py:85-108 | A hash with a final newline passes the shape check and chains to another hash, or a collision is at hand |
| LedgerClient.Connection.Insert | packages/athena-execution/athena/execution/ledger/client.py:129-145 | An insert appends the row under the next id exactly when the id is free and 1 with a null prev or above 1 with a prev, and otherwise changes no row; the id is burned either way |
| LedgerClient.Client.Open | packages/athena-execution/athena/execution/ledger/client.py:54-65 | Opening a client seeds genesis when row 1 is missing and otherwise leaves the table alone; it raises, giving no client, exactly when row 1 is still missing |
| LedgerClient.Client.EnsureGenesis | packages/athena-execution/athena/execution/ledger/client.py:67-99 | Genesis seeding is the specified one, idempotent on a table that has row 1, and raises exactly when row 1 is still missing |
| LedgerClient.Client.Append | packages/athena-execution/athena/execution/ledger/client.py:101-152 | An append leaves the specified table, returns the inserted row's id, and raises exactly on an empty table when no insert fails |
| LedgerClient.SeededChained | packages/athena-execution/athena/execution/ledger/client.py:67-99 | The first client leaves one genesis row of its user under id 1, and the chain conditions hold |
| LedgerClient.SeededColumns | packages/athena-execution/athena/execution/ledger/client.py:84-99 | Every column of the genesis row: id 1, null prev, event text, user, build, hash, the parameter hash of the empty object, stamps |
| LedgerClient.SeededPayload | packages/athena-execution/athena/execution/ledger/client.py:72-76 | The genesis payload as stored, character by character around the policy SHA |
| LedgerClient.AppendKeepsChain | packages/athena-execution/athena/execution/ledger/client.py:113-145 | One append on a chained table adds one row linked to the tip, or only burns an id |
| LedgerClient.AppendedColumns | packages/athena-execution/athena/execution/ledger/client.py:113-145 | Every column of an appended row: next id, the tip's stored hash, canonical payload, build, event text, user, recomputable hash, parameter hash, stamps |
| LedgerClient.RunKeepsChain | packages/athena-execution/athena/execution/ledger/client.py:5-16 | Every run of client constructions and appends, by any users and any builds, keeps the chain and grows the table only at its end |
| LedgerClient.ChainedMeansVerified | scripts/verify_ledger.py:32-83 | On every reachable table the verifier reports nothing and only the first row has a null prev |
| LedgerClient.RunIsLog | packages/athena-execution/athena/execution/ledger/client.py:101-152 | After any run the table is the log of its successful appends, in order, under the ids the sequence gave them |
| LedgerClient.RunTipCommits | packages/athena-execution/athena/execution/ledger/client.py:101-152 | The last hash of a table written by a run, whatever builds took part, fixes every row against any other clean table, or a collision is at hand |
| LedgerClient.HistoriesCommit | packages/athena-execution/athena/execution/ledger/client.py:101-152 | Two histories, each with its builds, users and failures, that end in one hash made the same genesis and the same successful appends: event, policy SHA, user, and payload up to key order; or two row bodies collide |
| LedgerClient.RunCreatesInOrder | packages/athena-execution/athena/execution/ledger/schema.sql:29 | If the database clock never goes back, rows are created in id order |
| LedgerClient.RunKeepsPastSegments | packages/athena-execution/athena/execution/ledger/segment_hash.py:11-14 | If the database clock never goes back, no run that starts after a month ends changes that month's ids or segment hash |
| Calendar.MonthsTileTime | packages/athena-execution/athena/execution/ledger/segment_hash.py:68-82 | Every instant lies in exactly one month window, the December roll-over included |
| Calendar.GregorianMonths | packages/athena-execution/athena/execution/ledger/segment_hash.py:68-82 | The twelve month lengths in days, February by the rules for 4, 100 and 400, as distances between month starts |
| Calendar.KnownStarts | packages/athena-execution/athena/execution/ledger/segment_hash.py:68-82 | The month boundaries agree with the Unix epoch and with known dates, in days and in microseconds |
| Calendar.MonthLength | packages/athena-execution/athena/execution/ledger/segment_hash.py:68-70 | The window of a month is as many days long as the Gregorian calendar says |
| SegmentHash.SegmentCoversItsMonth | packages/athena-execution/athena/execution/ledger/segment_hash.py:76-87 | The queried window is the month's tile, and the digest is of the ids found in it |
| SegmentHash.SegmentSpelled | packages/athena-execution/athena/execution/ledger/segment_hash.py:83-104 | The pre-image is the previous hash or nothing, the digest of the id text and the policy SHA, in this order, with one NUL byte between them |
| SegmentHash.JoinIdsSpelled | packages/athena-execution/athena/execution/ledger/segment_hash.py:85 | The id text is the decimal ids with one newline between them |
| SegmentHash.IdsBetweenExact | packages/athena-execution/athena/execution/ledger/segment_hash.py:76-83 | An id is listed exactly when a row created in the window has it |
| SegmentHash.SegmentEnds | packages/athena-execution/athena/execution/ledger/segment_hash.py:97-104 | Entry count, first and last id are those of the month's rows and bound all their ids |
| SegmentHash.MonthsPartitionSpan | packages/athena-execution/athena/execution/ledger/segment_hash.py:76-102 | Over consecutive months the listed ids are the span's ids as a bag and the entry counts sum to the span's rows |
| SegmentHash.MonthsInOrder | packages/athena-execution/athena/execution/ledger/segment_hash.py:57-59 | If rows were created in id order, the months' lists joined are the span's ids in id order |
| SegmentHash.JoinIdsInjective | packages/athena-execution/athena/execution/ledger/segment_hash.py:83-87 | The id text determines the id list; only the empty month has the empty text |
| SegmentHash.JoinNulHeads | packages/athena-execution/athena/execution/ledger/segment_hash.py:61-67 | The outer framing is unambiguous whatever the policy SHA holds |
| SegmentHash.ChainCommits | packages/athena-execution/athena/execution/ledger/segment_hash.py:83-95 | Two segment chains with one last hash have the same months' id lists and SHAs, or two of their pre-images collide |
| SegmentHash.EmptyMonthIsCounted | packages/athena-execution/athena/execution/ledger/segment_hash.py:6-9 | A month without entries still changes the chain hash, or a collision is at hand |
| SegmentHash.MonthlyRunIsChain | scripts/monthly_ledger_chain.py:89-97 | The monthly job, fed each previous hash, produces the chain hash of its months |
| SegmentHash.MonthlyRunsCommit | scripts/monthly_ledger_chain.py:89-97 | Two monthly runs with one last hash covered the same id lists and SHAs, or a collision is at hand |
| SegmentHash.MonthIsClosed | packages/athena-execution/athena/execution/ledger/segment_hash.py:76-83 | Rows created after a month leave its id list as it was |
| SegmentHash.SegmentsReproduce | packages/athena-execution/athena/execution/ledger/segment_hash.py:11-14 | Recomputing all months on a later table that only appended rows gives the hashes published month by month |
| SegmentHash.MonthLabelNotHashed | packages/athena-execution/athena/execution/ledger/segment_hash.py:88-97 | On top of one previous hash and SHA, two months of any tables share a segment hash exactly when they list the same ids, up to a collision: the month label is not part of the pre-image |
| DataFrame.DataEqualsIsBagEquality | packages/athena-feature-store/athena/feature_store/parquet_shard.py:125-148 | The comparison holds exactly when the column sets agree and the rows are equal as bags, nulls and duplicates included |
| DataFrame.NullsLast | packages/athena-feature-store/athena/feature_store/parquet_shard.py:146-147 | Nulls sort behind every other cell |
| ParquetShard.ShardStore.ExportHourShard | packages/athena-feature-store/athena/feature_store/parquet_shard.py:151-262 | A call leaves the specified tree and ends the specified way, for every fate of every write |
| ParquetShard.ShardStore.ExportOne | packages/athena-feature-store/athena/feature_store/parquet_shard.py:201-252 | One symbol's file operations, in order, have the specified effect |
| ParquetShard.ShardsAreImmutable | packages/athena-feature-store/athena/feature_store/parquet_shard.py:16-17 | In either mode and under every outcome no existing shard is changed or removed |
| ParquetShard.ReturnedAccounts | packages/athena-feature-store/athena/feature_store/parquet_shard.py:195-262 | On normal return written plus matched is the number of distinct symbols, null counting once |
| ParquetShard.ReturnedWroteMissing | packages/athena-feature-store/athena/feature_store/parquet_shard.py:195-262 | A call that returns wrote exactly the shards that were missing and lists them in the order the symbols first occur |
| ParquetShard.NoTmpResidue | packages/athena-feature-store/athena/feature_store/parquet_shard.py:243-249 | A call that is not killed leaves no tmp file behind |
| ParquetShard.ExportRejects | packages/athena-feature-store/athena/feature_store/parquet_shard.py:163-195 | A table other than ticks, quotes and news and then a naive hour are refused with the tree unchanged; an aware hour without rows returns zero counts |
| ParquetShard.ReturnsExactly | packages/athena-feature-store/athena/feature_store/parquet_shard.py:163-262 | A call returns exactly when the table is ticks, quotes or news, the hour is aware and every queried symbol is usable and either has its shard with the same data, in check mode, or lacks it and has a smooth write |
| ParquetShard.FirstStuckDecides | packages/athena-feature-store/athena/feature_store/parquet_shard.py:209-249 | A call that does not return ends as the first symbol that does not go through has it: bad symbol, existing shard, unreadable shard, drift, failed write or kill |
| ParquetShard.FateLeaves | packages/athena-feature-store/athena/feature_store/parquet_shard.py:233-249 | Each fate of a write leaves the shard exactly behind a rename, the tmp file exactly after a kill before it, and every other file alone |
| ParquetShard.FailModeNeverResumes | packages/athena-feature-store/athena/feature_store/parquet_shard.py:216-222 | Once any queried symbol has its shard, as after a kill behind one rename, no call in fail mode ever returns |
| ParquetShard.CheckDecidesDrift | packages/athena-feature-store/athena/feature_store/parquet_shard.py:223-231 | On a shard that is there, check mode matches exactly on equal columns and bag of rows and otherwise raises drift |
| ParquetShard.TmpIsNotShard | packages/athena-feature-store/athena/feature_store/parquet_shard.py:233-243 | A tmp file never has a shard's name |
| ParquetShard.PartitionNamesHour | packages/athena-feature-store/athena/feature_store/parquet_shard.py:106-114 | The partition carries the calendar date and hour of day of its hour |
| ParquetShard.NamesSpelled | packages/athena-feature-store/athena/feature_store/parquet_shard.py:199-240 | The names of shards, of the null shard and of tmp files |
| ParquetShard.QueriedWindow | packages/athena-feature-store/athena/feature_store/parquet_shard.py:169-183 | The query takes exactly the source rows whose time column, which each table names, lies in the hour; null times never do |
| ParquetShard.UniqueSymbolsInOrder | packages/athena-feature-store/athena/feature_store/parquet_shard.py:198 | Symbols are taken in the order of their first rows |
| Basics.FilterKeepsOrder | packages/athena-feature-store/athena/feature_store/parquet_shard.py:200-206 | The rows of one symbol keep the order of the query |
| ParquetShard.ShardPathInjective | packages/athena-feature-store/athena/feature_store/parquet_shard.py:106-114 | Distinct hours or symbols go to distinct files, and no symbol shares the null sentinel's file |
| ParquetShard.SentinelIsInvalid | packages/athena-feature-store/athena/feature_store/parquet_shard.py:48-52 | A symbol equal to the null sentinel is rejected |
| ParquetShard.SymbolClassSpelled | packages/athena-feature-store/athena/feature_store/parquet_shard.py:32-40 | The class is one to 32 ASCII letters, digits, underscores and hyphens |
| ParquetShard.ValidSymbolExactly | packages/athena-feature-store/athena/feature_store/parquet_shard.py:43-57 | A symbol without a final newline is accepted exactly when it is in the documented class and not the sentinel; with one, exactly when the rest is in the class |
| ParquetShard.NewlineSymbolPasses | packages/athena-feature-store/athena/feature_store/parquet_shard.py:43-57 | Every text of the class, the sentinel included, is accepted with a newline at its end, outside the class, and its shard keeps the newline in its name |
| ParquetShard.ExportLeavesTable | packages/athena-feature-store/athena/feature_store/parquet_shard.py:106-114 | A call for one table changes no file of another |
| ParquetShard.ExportAgrees | packages/athena-feature-store/athena/feature_store/parquet_shard.py:169-262 | One call, killed or failed at any step, keeps every shard equal to its symbol's rows of its hour; a returned call completes its hour |
| ParquetShard.RunAgrees | packages/athena-feature-store/athena/feature_store/parquet_shard.py:169-262 | After any run of calls for any tables, retries and crashes included, each table whose source did not change agrees with it, and every hour of it that returned once is complete |
| ParquetShard.CheckCompletes | packages/athena-feature-store/athena/feature_store/parquet_shard.py:223-226 | On a tree that agrees with the source, whatever killed or failed calls left, one undisturbed check-mode call returns and completes its hour |
| ParquetShard.CheckedHoursReturn | packages/athena-feature-store/athena/feature_store/parquet_shard.py:169-262 | In any run where each attempted hour of the table has such a call somewhere, each hour returned once, as conservation needs |
| ParquetShard.RowsConserved | packages/athena-feature-store/athena/feature_store/parquet_shard.py:169-262 | With complete hours, each row occurs under the table as often as in the source, all copies in one shard |
| ParquetShard.RunConservesRows | packages/athena-feature-store/athena/feature_store/parquet_shard.py:169-262 | Conservation, all copies of a row in one shard, for any run over any tables in which every hour attempted for this table returned once |
| ReadonlyMount.Executor.IsImmutable | packages/athena-alpha-defense/athena/alpha_defense/f5/readonly_mount.py:140-141 | A probe reads the bit or raises, changing no bit |
| ReadonlyMount.Executor.Write | packages/athena-alpha-defense/athena/alpha_defense/f5/readonly_mount.py:134-138 | A chattr call sets the bit unless it raises without effect |
| ReadonlyMount.ChattrSpelled | packages/athena-alpha-defense/athena/alpha_defense/f5/readonly_mount.py:134-138 | A chattr call is recorded, uses up its fate, and sets that one bit unless it raises without effect |
| ReadonlyMount.Controller.Status | packages/athena-alpha-defense/athena/alpha_defense/f5/readonly_mount.py:258-260 | Status is the specified one; a raising probe ends it |
| ReadonlyMount.StatusMeans | packages/athena-alpha-defense/athena/alpha_defense/f5/readonly_mount.py:212-217 | A status that returns is LOCKED exactly when every bit is set and UNLOCKED exactly when none is |
| ReadonlyMount.StatusRaisesExactly | packages/athena-alpha-defense/athena/alpha_defense/f5/readonly_mount.py:258-260 | A status call raises exactly when one of its probes does |
| ReadonlyMount.Controller.Transition | packages/athena-alpha-defense/athena/alpha_defense/f5/readonly_mount.py:268-302 | The transition has the specified outcome under any script of faults |
| ReadonlyMount.Controller.ApplyTo | packages/athena-alpha-defense/athena/alpha_defense/f5/readonly_mount.py:279-291 | The guarded loop body skips, changes or records an error as specified |
| ReadonlyMount.Controller.Lock | packages/athena-alpha-defense/athena/alpha_defense/f5/readonly_mount.py:262-263 | lock() is the transition to immutable |
| ReadonlyMount.Controller.Unlock | packages/athena-alpha-defense/athena/alpha_defense/f5/readonly_mount.py:265-266 | unlock() is the transition to mutable |
| ReadonlyMount.TransitionUnderFaults | packages/athena-alpha-defense/athena/alpha_defense/f5/readonly_mount.py:268-302 | Under arbitrary faults other bits stay, bits move only to the target, ok and already are true, states are counted right, and a raise uses up a fault |
| ReadonlyMount.ReportNamesFirstFault | packages/athena-alpha-defense/athena/alpha_defense/f5/readonly_mount.py:288-291 | The error message is that of the first path that failed, absent exactly when none did; with distinct paths the error results are exactly the failures |
| ReadonlyMount.ReportSpelled | packages/athena-alpha-defense/athena/alpha_defense/f5/readonly_mount.py:279-291 | With distinct paths a result is error on a fault, already if the bit was at the target before the call, and ok otherwise; the message is path, exception type and text of the first fault |
| ReadonlyMount.CallsSpelled | packages/athena-alpha-defense/athena/alpha_defense/f5/readonly_mount.py:262-287 | Locking a clear path is one chattr +i that sets it, unlocking a set path one chattr -i that clears it |
| ReadonlyMount.FaultFreeTransition | packages/athena-alpha-defense/athena/alpha_defense/f5/readonly_mount.py:223-227 | A call without faults reaches the target state with no error and one chattr call per path whose bit differed |
| ReadonlyMount.TransitionRaisesExactly | packages/athena-alpha-defense/athena/alpha_defense/f5/readonly_mount.py:268-302 | A transition raises exactly when a probe of its first or its last status does |
| ReadonlyMount.PartialExactly | packages/athena-alpha-defense/athena/alpha_defense/f5/readonly_mount.py:16-18 | With errors or without, a returned transition reports PARTIAL exactly when it left one protected bit set and one clear |
| ReadonlyMount.EffectiveFaultIsLocked | packages/athena-alpha-defense/athena/alpha_defense/f5/readonly_mount.py:16-18 | One chattr call that raises after it took effect ends in LOCKED with an error message |
| ReadonlyMount.RetryNeverLosesGround | packages/athena-alpha-defense/athena/alpha_defense/f5/readonly_mount.py:226-227 | The number of paths not at the target never rises from call to call |
| ReadonlyMount.PendingCounts | packages/athena-alpha-defense/athena/alpha_defense/f5/readonly_mount.py:226-227 | That number is the count of protected paths whose bit is not the target |
| ReadonlyMount.RetryConverges | packages/athena-alpha-defense/athena/alpha_defense/f5/readonly_mount.py:16-18 | With at most f raising calls in all, f + 1 calls reach the target on every path |
| MetricText.SplitUnlines | packages/athena-alpha-defense/athena/alpha_defense/f5/metrics.py:64 | A file written line by line is read back line by line |
| MetricText.LineEnds | packages/athena-alpha-defense/athena/alpha_defense/f5/metrics.py:64 | A line ends before a line feed, a carriage return, or both together |
| MetricText.GaugeLine | packages/athena-alpha-defense/athena/alpha_defense/f5/metrics.py:65-71 | A gauge line splits into its name and the printed number |
| MetricText.InfinitiesSpelled | packages/athena-alpha-defense/athena/alpha_defense/f5/metrics.py:73 | Words that float() takes for infinities, and some it does not |
| ReadonlyMetric.RenderBody | packages/athena-alpha-defense/athena/alpha_defense/f5/metrics.py:77-107 | The rendering loop produces the specified body |
| ReadonlyMetric.ReadPrevTimestamp | packages/athena-alpha-defense/athena/alpha_defense/f5/metrics.py:57-74 | The line scan returns the specified reading and raises OverflowError exactly on an infinite first value |
| ReadonlyMetric.ReaderOverflowsExactly | packages/athena-alpha-defense/athena/alpha_defense/f5/metrics.py:64-73 | The reader raises exactly when the first line that carries the metric and a value has an infinite one; lines without a value are passed over |
| ReadonlyMetric.ReaderMeans | packages/athena-alpha-defense/athena/alpha_defense/f5/metrics.py:57-74 | Otherwise the reader returns the number on the first line with a value, and 0 without a file, such a line or a number |
| ReadonlyMetric.ReaderRaises | packages/athena-alpha-defense/athena/alpha_defense/f5/metrics.py:64-73 | A file whose gauge reads inf makes it raise |
| ReadonlyMetric.UnreadableFileStays | packages/athena-alpha-defense/athena/alpha_defense/f5/metrics.py:132-165 | On a file with an infinite lock or unlock time every emit raises and the file never changes again |
| ReadonlyMetric.BodyReadsBack | packages/athena-alpha-defense/athena/alpha_defense/f5/metrics.py:57-107 | Each of the three time gauges of a rendered body is read back, no other line being mistaken for it |
| ReadonlyMetric.ScraperReadsState | packages/athena-alpha-defense/athena/alpha_defense/f5/metrics.py:85-90 | Exactly the gauge of the rendered state reads 1 and the two others read 0 |
| ReadonlyMetric.NamesSpelled | packages/athena-alpha-defense/athena/alpha_defense/f5/metrics.py:5-10 | The published metric names and state labels |
| ReadonlyMetric.LinesSpelled | packages/athena-alpha-defense/athena/alpha_defense/f5/metrics.py:77-107 | The fourteen lines of the file |
| ReadonlyMetric.EmitSpelled | packages/athena-alpha-defense/athena/alpha_defense/f5/metrics.py:43-56 | A time without a zone is refused, no time counts as 0, and up to nine denied renames are survived |
| ReadonlyMetric.MetricDir.EmitMetric | packages/athena-alpha-defense/athena/alpha_defense/f5/metrics.py:110-165 | An emit leaves the specified file and ends the specified way, with up to ten rename attempts |
| ReadonlyMetric.HistoryIsRefined | packages/athena-alpha-defense/athena/alpha_defense/f5/metrics.py:132-165 | Over any run, crashes before the rename included, the success values read back are the latest non-zero success times, the transition value is the last landed emit's (0 on a refresh), and no emit fails to read the file |
| ReadonlyMetric.EmitPublishes | packages/athena-alpha-defense/athena/alpha_defense/f5/metrics.py:132-165 | A landed emit publishes its own state, its time as the transition, and as the success of its action unless it is zero; the other success stays |
| LoggerSync.ReadPrevLastSuccess | scripts/emit_logger_sync_metric.py:45-59 | The line scan returns the specified reading; it raises IndexError exactly on a gauge line with nothing after the name and OverflowError exactly on an infinite value |
| LoggerSync.ReaderErrorsExactly | scripts/emit_logger_sync_metric.py:49-59 | IndexError exactly when the first line with the gauge name and a blank holds only white space after it, OverflowError exactly when its second word is an infinity |
| LoggerSync.ReaderMeans | scripts/emit_logger_sync_metric.py:45-59 | Otherwise the reader returns the number on the first gauge line, and 0 when there is no file, no such line or no number |
| LoggerSync.ReaderRaises | scripts/emit_logger_sync_metric.py:49-59 | The line with no value raises IndexError, the value inf OverflowError |
| LoggerSync.UnreadableFileStays | scripts/emit_logger_sync_metric.py:118-142 | On such a file every later emit raises, successful or not, and the file never changes again |
| LoggerSync.BodyReadsBack | scripts/emit_logger_sync_metric.py:45-108 | The last success of a rendered body is read back, whatever the duration prints as |
| LoggerSync.ScraperReadsBody | scripts/emit_logger_sync_metric.py:96-108 | Each of the three gauges is found under its own name |
| LoggerSync.NamesSpelled | scripts/emit_logger_sync_metric.py:96-108 | The published metric names |
| LoggerSync.LinesSpelled | scripts/emit_logger_sync_metric.py:96-108 | The nine lines of the file |
| LoggerSync.CodesAndUnits | scripts/emit_logger_sync_metric.py:62-67 | Exit codes 0, 23, 24 and 30 are success, times are whole seconds rounded toward zero, and a duration that is no number prints as 0.0 |
| LoggerSync.LimitsSpelled | scripts/emit_logger_sync_metric.py:73-142 | A sweep leaves exactly the files younger than 300 seconds, and up to nine denied renames are survived |
| LoggerSync.MetricDir.SweepStaleTmpFiles | scripts/emit_logger_sync_metric.py:73-93 | A lone sweep removes exactly the tmp files at least 300 seconds old |
| LoggerSync.MetricDir.EmitMetric | scripts/emit_logger_sync_metric.py:111-142 | An emit leaves the specified file and keeps every other young tmp file |
| LoggerSync.LastSuccessIsRefined | scripts/emit_logger_sync_metric.py:118-127 | Over any sequential run the value read back is the clock of the latest published success, else 0 |
| LoggerSync.EmitPublishes | scripts/emit_logger_sync_metric.py:111-142 | A landed emit publishes its exit code, its duration, and its own time after a success or else the time it read |
| LoggerSync.LastSuccessNeverFalls | scripts/emit_logger_sync_metric.py:118-127 | If the clock never goes back, the value read back never falls |
| SweepProtocol.OutputNeverTorn | scripts/emit_logger_sync_metric.py:126-142 | In every interleaving with crashes and reused process ids the output is absent or the complete body that an emitter of the run rendered from what it read |
| SweepProtocol.LoneEmitterIsEmit | scripts/emit_logger_sync_metric.py:111-142 | Taken one after the other by one emitter, the steps of the protocol leave exactly what the sequential emit leaves |
| SweepProtocol.OtherStepsSpelled | scripts/emit_logger_sync_metric.py:45-142 | A denied rename changes nothing, a crash leaves all files, and a reader error or a missing tmp file ends the emitter |
| SweepProtocol.YoungTmpSurvives | scripts/emit_logger_sync_metric.py:78-93 | If its name was not condemned by a pending unlink when an emitter opened its tmp file, it still has the file while younger than 300 seconds, whatever the other emitters do and whatever ids they reuse |
| SweepProtocol.OpenIsSafeExactly | scripts/emit_logger_sync_metric.py:78-93 | An opening is safe in every continuation, the file being there as long as its writer is younger than 300 seconds, exactly when no live sweep has condemned the name |
| SweepProtocol.StatCondemnsExactly | scripts/emit_logger_sync_metric.py:86-90 | A stat condemns a file exactly when it is at least 300 seconds old, and the unlink then removes that file alone |
| SweepProtocol.PromptRenamePublishes | scripts/emit_logger_sync_metric.py:132-141 | After such an opening a rename within 300 seconds publishes the emitter's own body |
| SweepProtocol.WriterOpened | scripts/emit_logger_sync_metric.py:128-131 | Every writer of a run has one opening of its own, at the time it says |
| SweepProtocol.FreshPidsAreSafe | scripts/emit_logger_sync_metric.py:128 | Runs that never reuse a process id never open a condemned name |
| SweepProtocol.FreshPidsPublish | scripts/emit_logger_sync_metric.py:128-141 | In such runs every rename within 300 seconds of the opening publishes the emitter's own body |
| SweepProtocol.CarelessOpenLosesFile | scripts/emit_logger_sync_metric.py:88-90 | After a condemned opening, one unlink removes the file at age zero and the rename fails |
| SweepProtocol.ReusedPidIsCondemned | scripts/emit_logger_sync_metric.py:78-79 | A run that reuses one process id reaches a condemned opening, so the promise that an in-flight tmp is never unlinked does not hold without the condition |
| SweepProtocol.PromptRenameCanFail | scripts/emit_logger_sync_metric.py:126-142 | One whole run in which an emitter renames at the instant it opened its tmp file and publishes nothing |
| PolicyVersion.ExtractNormalForm | packages/athena-core/athena/core/version.py:30-38 | Every extraction is 7 to 40 hex digits with optional -dirty, or the fallback |
| PolicyVersion.ExtractOrUnknown | packages/athena-core/athena/core/version.py:30-38 | A text that ends in no SHA gives unknown-dev; every extraction is of digits, lowercase letters and hyphens |
| PolicyVersion.ExtractExact | packages/athena-core/athena/core/version.py:30-38 | A SHA is extracted exactly from the texts that end in it, at the start or after -g, with or without one final newline |
| PolicyVersion.ExtractAfterTag | packages/athena-core/athena/core/version.py:26-29 | Whatever the tag is, the SHA and suffix after the last -g are returned |
| PolicyVersion.ExtractIdempotent | packages/athena-core/athena/core/version.py:33-38 | Extracting from an extraction changes nothing |
| PolicyVersion.ExtractIsAscii | packages/athena-core/athena/core/version.py:33-38 | An extraction is ASCII without NUL |

## Left out

- JsonReader.SerializeIsCanonical: floats, values that go through `default=str`, keys that are not strings and lone surrogates are not modelled; payloads are built from null, booleans, integers, Unicode scalar text, arrays and string-keyed objects.
- LedgerClient.RunKeepsChain: runs start after genesis is in place; a failed first genesis insert and a table emptied afterwards are the deferred cases the repository lists, and several connections appending at once are outside its own scope.
- VerifyLedger.VerifyChain: rows are taken as fetched in id order; DuckDB and the printing of the result are not modelled.
- ParquetShard.RunAgrees: partition directories are tuples of table, year, month, day and hour rather than path text, hours are aligned UTC hours, and the source does not change during the run.
- ParquetShard.ReturnedAccounts: byte counts, file digests and durations of the result are not modelled.
- ReadonlyMetric.HistoryIsRefined: a transition time is given in whole seconds of magnitude up to 2^53, where `int(float(text))` is exact; the conversion of a datetime to a float is not modelled.
- LoggerSync.ReaderErrorsExactly: the words that spell an infinity are fixed; which long decimal numerals overflow a double is left to the reader of numbers.
- LoggerSync.MetricDir.EmitMetric: the clock stands still during one emit; time passing between the steps is the subject of SweepProtocol.
- SweepProtocol.YoungTmpSurvives: the 300 seconds count from opening the tmp file, not from the end of its write, since a sweep may stat it while it is being written.
- JsonReader.ReadsPrinted: the reader takes integers only and lowercase hex digits in `\u` escapes, which is what the serializer emits.
- ReadonlyMount.Executor.Write: sudo, subprocess timeouts and the parsing of lsattr output are replaced by a script of outcomes.
- SHA-256 itself, DuckDB, Polars, pydantic, boto3, keyring, git and systemd are replaced by plain data.
- VerifyMain.Audit: starts with an open database and the parsed archive value; the indented text of the archive file, argument parsing, exit codes and log output are left out.
- MetricText: the classes of white space and line breaks are those of Python's str, by code point (`LineBreaksSpelled`, `SpacesSpelled`); other text functions of Python are not modelled.
- The DTO field lists, settings, secrets accessors, time-zone helpers, gate scripts and the storage set-up scripts are not modelled.
