# CivicOS verification

A Dafny model of the parts of CivicOS whose correctness is decided by their own code, and proofs about them for all
inputs and all runs. `dafny verify dfyconfig.toml` checks the whole project.

What is modelled, and in which files:

- **The audit chain** (`AuditChain`, `AuditDigest`, `AuditRuns`, `AuditTable`). The hash-linked log, the batched
  verification pass, and the three ways entries are linked: to the newest id (`record_event`), not at all (the login
  signal handlers; also `apps/portal/services.py`, `apps/forms/views.py` and `apps/forms/wagtail_hooks.py`), and to
  the newest timestamp (the account views; also `apps/volunteers/admin.py` and its `anonymize_volunteer` command). The
  digest is a parameter and no digest is assumed injective: wherever two digests would have to differ, the theorem
  ends in "or these two rows collide". `AuditDigest` then puts SHA-256 over the sorted-key JSON text in its place;
  `JsonText` writes out that text character by character and proves that an independent JSON reader gets the value back.
- **The secret scan and its gate** (`DiffScan`, `DiffRead`, `DiffRoundTrip`, `DiffUnreadable`, `DiffExact`,
  `DiffPitfalls`, `DiffForged`, `DiffMeaning`, `ShipGate`, `ExactPaths`, `GateExact`, `GateNames`, `GateTree`,
  `GateAllowlist`, with `Lines` for `splitlines` and `Decimal` for numerals). A printer for `git diff --unified=0`, the
  scanner as a line machine on git's text, exactly which diffs it reads back, what an open gate is worth, and when any
  allowlist opens it.
- **Single-use export downloads** (`ExportDownload`). The download transaction with its rollback, the expiry sweep, the
  worker and the staff screen as methods over shared tables, and rely-guarantee reasoning over runs.
- **Availability templates** (`Availability`). The overlap check as a guard on the table.
- **The consent matrix** (`ConsentMatrix`, `ConsentEnricher`, `ConsentMeaning`, with `Ascii` for letter case). The
  validator and the enricher, and exactly when the second satisfies the first.
- **The operation inventory** (`YamlOperations`, `YamlRoundTrip`, `YamlLines`, `YamlMeaning`, `Traceability`,
  `TraceabilityTexts`). The line parser for the OpenAPI document, exactly which documents it reads back, the generator
  of the inventory and its validator.
- **The authority manifest and the per-block assessment** (`AuthorityManifest`, `Item05Assessment`, with `Counting`).
  Validators whose verdict rests on counting.
- **The encrypted field** (`EncryptedField`) and **the outbox publisher** (`OutboxPublisher`).

Where a method is proved against a function, that function has its meaning stated a second time without it. `DiffMeaning`,
`YamlMeaning` and `ConsentMeaning` do this for the loops on arbitrary input, lemmas ending in `Says` field by field.

## Where the code does not do what it promises

Each of these is proved for all inputs it speaks of, and with the exact condition where the code meets its promise on
some inputs only.

- A log written only by `record_event` verifies exactly when every covered field comes back from its column as written
  (`AuditRuns.RecordedRunAcceptedIff`). Two kinds of events do not. `record_event_from_request` passes the blank string
  as address when the request has no audit context, and the address column stores a blank as null
  (`AuditRuns.RequestWithoutContextIsReported`). A float such as `1e16` in `event_detail` is hashed as `1e+16` and comes
  back from a binary JSON column as an integer (`AuditRuns.LargeFloatIsReported`).
- The login signal handlers leave `prev_hash` blank, so each of their entries but the first of the log is reported
  (`AuditRuns.MixedRunVerdict`); the account views are accepted exactly when the newest timestamp is on the newest id
  (`AuditRuns.NewestWriterAcceptedIff`).
- `verify_chain` with a `start_id` behind the first entry reports an intact log (`AuditRuns.WindowVerdict`). With
  `batch_size=0` it reports every log intact, and a negative one raises (`AuditTable.AuditLog.VerifyChain`).
- A rewritten last entry with its hash, a cut-off end, and every field outside the hash escape the pass
  (`AuditChain.RehashedEntryReported`, `AuditChain.RemovedEntriesReported`, `AuditChain.SideFieldsUnseen`).
- From git's text the scanner is right, for all patterns, exactly when no added line starts with `++` or holds one of the
  other characters `splitlines` splits at, and every file that gains lines has a name the scanner reads;
  this takes for granted that removed lines and hunk headings do not come apart into lines that say something
  (`DiffExact.GitScannerExact`). Where they come apart into added lines, a readable diff is scanned right exactly when
  none of these falls under a current path (`DiffForged.GitForgedIff`). Names are read when git prints them plainly;
  behind a name with a blank git prints a tab, which the scanner takes for a part of the name, and a quoted name leaves
  the path of the file before (`DiffUnreadable.NamesReadIffPlain`). What stands behind a form feed in an added line is
  never shown to the patterns (`DiffPitfalls.SeparatorHidesTail`), and a form feed and a plus sign in a removed line forge
  a finding (`DiffPitfalls.SeparatorForgesLine`).
- The gate can open on matching lines no record was written for. While no file has been named plainly nothing is
  reported at all, so a diff of files with quoted names passes with an empty allowlist (`GateNames.QuotedFilesPass`).
  Lines of a quoted file are reported under the file before, where one record can stand for two findings
  (`GateNames.OneRecordCoversTwo`); that is so exactly when two files believed under one path share a matching line number
  and digest (`GateNames.OpenGateIsOneToOne`). Every matching line has a record exactly when each is reported, by its own
  file or another, under its real path (`GateNames.OpenGateReviewsReportIff`), which for all patterns comes down to plain
  names (`GateNames.CoveredIffPlain`).
- The gate can also stay shut for good. A finding in a file whose name holds a blank locks it: no allowlist at all opens
  it (`GateTree.BlankNameLocksGate`). The digest check numbers the pieces `splitlines` makes, so a separator in an
  unchanged line makes it look at another line than the one git numbered (`GateTree.KeptSeparatorShifts`), and unless that
  one has the same digest no allowlist opens the gate (`GateTree.KeptSeparatorLocksGate`). Nor does any when a finding's
  path is one no record may have, say of a folder named `[slug]`, or when there are more keys than triage ids: some
  allowlist opens the gate exactly when neither is so and the tree bears out every finding
  (`GateAllowlist.CanOpenIff`).
- An export found expired during a download is neither marked expired nor disposed of: the 404 is raised inside the
  transaction, and the disposal code behind it is never reached (`ExportDownload.RefusalChangesNothing`). A file that
  cannot be opened uses up its token all the same (`ExportDownload.ServedOnlyToOwner`).
- The enricher accepts rows with a repeated id, or with a number for an id, and then writes a matrix the validator refuses
  (`ConsentEnricher.EnrichedValidatesIff`).
- The OpenAPI line parser knows neither the path `/` nor a path with a colon, and gives their operations to the path
  before (`YamlRoundTrip.OperationsOfPrint`). From text it returns the declared operations exactly when they stand below
  other paths and their ids hold no quote and no blank at an end, and neither holds a line separator
  (`YamlRoundTrip.YamlInvertsPrinterIff`). An operationId below a method it does not know replaces that of the row before
  (`YamlRoundTrip.StrayIdOverwrites`).
- An accepted authority manifest may pin one artifact twice with different hashes
  (`AuthorityManifest.RepeatedArtifactAccepted`), and may give a hash as the list of its digits
  (`AuthorityManifest.DigitListAccepted`).
- A text sealed under a key that is gone reads as empty, and saving the row again erases it
  (`EncryptedField.ResaveRekeys`). Setting `FERNET_KEYS` for the first time is such a loss unless some listed setting
  makes the fallback key (`EncryptedField.LeavingTheFallback`).

## Model

| member | source | states |
|---|---|---|
| AuditChain.AcceptedSound | apps/audit/models.py:320-357 | in a log without findings every entry stores its predecessor's hash and its own recomputed one |
| AuditChain.SoundAccepted | apps/audit/models.py:320-357 | and a log in which every entry does has no findings |
| AuditChain.LastHashBinds | apps/audit/models.py:238-250 | two accepted logs with one last hash have the same length, links, hashes and covered fields everywhere, or two of their rows collide |
| AuditChain.RewritingIsReported | apps/audit/models.py:266-273 | a log rewritten in any way that keeps its last hash is reported, or a collision is at hand |
| AuditChain.HashesDistinct | apps/audit/models.py:320-357 | no hash occurs twice in an accepted log, or two of its rows collide |
| AuditChain.ReplaceRow | apps/audit/models.py:353-357 | replacing one row puts findings at that row and at the link after it, nowhere else |
| AuditChain.EditedFieldsReported | apps/audit/models.py:332-351 | editing covered fields in place gives exactly one finding, at the edited entry |
| AuditChain.EditedHashReported | apps/audit/models.py:324-357 | overwriting a stored hash gives one finding there and one at the successor, if there is one |
| AuditChain.EditedLinkReported | apps/audit/models.py:324-351 | overwriting a link gives two findings, both at that entry |
| AuditChain.RehashedEntryReported | apps/audit/models.py:324-357 | an entry rewritten with its hash is found only through its successor; the last entry not at all |
| AuditChain.RemovedEntriesReported | apps/audit/models.py:324-330 | cutting entries out gives exactly one finding, at the first entry kept behind the gap; cutting off the end gives none |
| AuditChain.SideFieldsUnseen | apps/audit/models.py:240-249 | the fields outside the hash do not influence the findings |
| JsonText.ValueRead | apps/audit/models.py:250 | a JSON reader gets every value whose numbers are JSON numerals back from its text, whatever follows it |
| JsonText.DumpsInjective | apps/audit/models.py:250 | the sorted-key JSON text of a value determines the value |
| JsonText.EscapeSpelling | apps/audit/models.py:250 | the text is ASCII: what stands for itself, what is escaped in two characters, and what as one code unit or two |
| JsonText.ArrSpelling | apps/audit/models.py:250 | members are parted by a comma and a blank |
| JsonText.ObjSpelling | apps/audit/models.py:250 | fields are parted by a comma and a blank, key and value by a colon and a blank |
| AuditDigest.HashedTextSays | apps/audit/models.py:240-250 | read as JSON the hashed text holds each covered column, and the link, under its own key |
| AuditDigest.KeysSorted | apps/audit/models.py:250 | the keys stand in their sorted order |
| AuditDigest.HashedTextInjective | apps/audit/models.py:240-250 | the hashed text determines every covered field and the link |
| AuditDigest.LastHashBindsText | apps/audit/models.py:238-250 | two accepted logs with one last hash agree on all covered fields, or two of the hashed texts are a SHA-256 collision |
| AuditDigest.HashedTextTellsApart | apps/audit/models.py:240-250 | the JSON text meets the condition of that theorem for all logs |
| AuditRuns.RunVerdict | apps/audit/models.py:320-357 | the findings on any interleaving of all writers, entry by entry |
| AuditRuns.RecordedRunAcceptedIff | apps/audit/services.py:45-86 | a log written by `record_event` alone, with failures and id gaps, is accepted exactly when every covered field comes back from its column as written |
| AuditRuns.ChangedEventIsReported | apps/audit/models.py:332-351 | behind an accepted log an event whose covered fields come back changed gives exactly one finding |
| AuditRuns.LargeFloatIsReported | apps/audit/models.py:238-250 | a large float in the details is reported, its numeral coming back as an integer |
| AuditRuns.MixedRunVerdict | apps/auth_extension/signals.py:91-103 | with signal handlers interleaved and covered fields that come back there is exactly one finding for each of their entries that is not first, and no other |
| AuditRuns.NewestWriterAcceptedIff | apps/auth_extension/views.py:45-61 | an entry linked by newest timestamp, its covered fields coming back, is accepted exactly when that timestamp is on the newest id |
| AuditRuns.RisingClockLinksNewest | apps/auth_extension/views.py:45-46 | under strictly rising timestamps the account views link as `record_event` does |
| AuditRuns.RunIncreasing | apps/audit/services.py:48-56 | ids rise along every run of the writers |
| AuditRuns.WindowIff | apps/audit/models.py:292-296 | the window holds, in log order, exactly the entries from `start_id` to `end_id`, both included |
| AuditRuns.WindowVerdict | apps/audit/models.py:292-298 | the findings on any window of an accepted log: one false alarm exactly when the window starts behind the first entry |
| AuditRuns.EveryEndAccepted | apps/audit/models.py:295-296 | an accepted log is accepted up to every `end_id` |
| AuditRuns.RequestWithoutContextIsReported | apps/audit/services.py:112-140 | an event recorded from a request without audit context is reported |
| AuditTable.ChainVerificationResult.AddViolation | apps/audit/models.py:41-43 | a violation is appended and the result is no longer ok |
| AuditTable.ChainVerificationResult.Check | apps/audit/models.py:321-351 | one turn of the loop adds exactly the findings about one row |
| AuditTable.ChainVerificationResult.CheckBatch | apps/audit/models.py:320-357 | a batch adds the findings of a pass over it and hands on the last stored hash |
| AuditTable.ChainVerificationResult.CheckInBatches | apps/audit/models.py:300-359 | for every positive batch size the slices amount to one pass over all rows, and the loop ends |
| AuditTable.AuditLog.Save | apps/audit/models.py:226-233 | a new entry is hashed as it is in memory and appended under a new id |
| AuditTable.AuditLog.RecordEvent | apps/audit/services.py:45-86 | the appended entry is linked to the newest id; a failure leaves the table as it was |
| AuditTable.AuditLog.WriteFromSignal | apps/auth_extension/signals.py:77-106 | the appended entry has a blank link |
| AuditTable.AuditLog.NewestRow | apps/auth_extension/views.py:45 | the row found has a greatest timestamp |
| AuditTable.AuditLog.WriteFromView | apps/auth_extension/views.py:41-65 | the appended entry is linked to a row with a greatest timestamp |
| AuditTable.AuditLog.VerifyChain | apps/audit/models.py:291-361 | for every positive batch size the result is that of one pass over all entries from `start_id` to `end_id`, both included |
| Lines.SplitJoinedIff | scripts/validate_ship_secret_scan.py:116 | splitting a written text gives its lines back exactly when no line holds a separator |
| Lines.SplitSays | scripts/validate_ship_secret_scan.py:116 | splitting takes any text apart into pieces without separators and the breaks between them |
| Lines.SplitUnique | scripts/validate_ship_secret_scan.py:116 | and there is only one way to take it apart so |
| DiffExact.GitScannerExact | scripts/validate_ship_secret_scan.py:109-149 | from git's text, where what `splitlines` cuts off removed lines and hunk headings says nothing, the scanner reports, for all patterns, exactly the matching added lines, in order, with path and line number in the new file, if and only if added lines start without `++` and hold no separator and the names of files gaining lines are read |
| DiffExact.ScannerExact | scripts/validate_ship_secret_scan.py:116-149 | the same, under the same assumption, for every printer and classifier that agree line by line |
| DiffExact.LinesReadScanned | scripts/validate_ship_secret_scan.py:116-149 | under that assumption, with readable added lines, the scanner reports every matching added line under the path it believes in, whatever the names |
| DiffForged.ForgedIff | scripts/validate_ship_secret_scan.py:116-144 | where what is cut off reads as added lines or says nothing, a readable diff is scanned right, for all patterns, exactly when no such line falls under a current path |
| DiffForged.GitForgedIff | scripts/validate_ship_secret_scan.py:116-144 | the same for the lines git prints |
| DiffRoundTrip.ScanFiles | scripts/validate_ship_secret_scan.py:117-148 | what the scanner reports about any files: deletions, several hunks and quoted, blank or plain names included |
| DiffRoundTrip.ScanQuiet | scripts/validate_ship_secret_scan.py:116 | a text says what its lines say, as long as nothing cut off inside a line says anything |
| DiffRead.HeaderClassified | scripts/validate_ship_secret_scan.py:123-128 | a printed hunk header is read as the new-file position of its first added line |
| DiffUnreadable.UnreadableLineMisread | scripts/validate_ship_secret_scan.py:131-142 | an added line that starts with `++` or holds a separator is never reported as it is, whatever else the text holds |
| DiffUnreadable.ScannedIffNamesRead | scripts/validate_ship_secret_scan.py:117-122 | the findings are right exactly when the scanner believes in the path of every file that gains lines |
| DiffUnreadable.NamesReadIffPlain | scripts/validate_ship_secret_scan.py:117-119 | that is so exactly when those files have names without blanks that git does not quote, but for a quoted name that happens to equal what another name is taken for |
| DiffExact.FirstMatchIff | scripts/validate_ship_secret_scan.py:133-143 | the reported pattern is the first that matches |
| DiffExact.ReportIff | scripts/validate_ship_secret_scan.py:134-142 | a finding is reported exactly when it points at an added, matching line of the new file |
| DiffExact.ReportAscends | scripts/validate_ship_secret_scan.py:144 | findings about one file rise strictly in line number |
| DiffPitfalls.SeparatorHidesTail | scripts/validate_ship_secret_scan.py:116-134 | of an added line with a form feed only the first part is shown to the patterns |
| DiffPitfalls.SeparatorForgesLine | scripts/validate_ship_secret_scan.py:116-142 | a form feed and a plus sign in a removed line are reported as an added line |
| DiffExact.ScanAddedLines | scripts/validate_ship_secret_scan.py:109-149 | the loop computes the scan |
| DiffMeaning.FindingsOfAnyLines | scripts/validate_ship_secret_scan.py:113-149 | for any lines, which of them are findings, in which order, and with which path, line number, digest and pattern; it stops exactly at a hunk header without a position |
| DiffMeaning.PositionRead | scripts/validate_ship_secret_scan.py:124-128 | the position is the whole number behind the first plus sign that has a digit behind it |
| DiffExact.FindFirst | scripts/validate_ship_secret_scan.py:133-143 | the inner loop finds the first matching pattern or shows there is none |
| ShipGate.ParseAllowlist | scripts/validate_ship_secret_scan.py:64-96 | returns the records the entries of an acceptable file say, and nothing exactly for files that are not acceptable |
| ShipGate.ParsesSays | scripts/validate_ship_secret_scan.py:69-95 | acceptable, field by field: version, forms of the four fields, exact paths, and neither keys nor triage ids repeated |
| ExactPaths.ExactPathIff | scripts/validate_ship_secret_scan.py:89-91 | a path is exact when it is relative, has no component `..` and no wildcard |
| ShipGate.WriteReport | scripts/validate_ship_secret_scan.py:152-184 | one line per finding, reviewed under a record with its key or unreviewed when there is none |
| ShipGate.RunGate | scripts/validate_ship_secret_scan.py:187-251 | exit code 0 exactly when the gate opens; there is no report exactly for an unacceptable allowlist, and otherwise it counts the records and lists every finding the gate got as far as having, opened or refused |
| ShipGate.UnreviewedListed | scripts/validate_ship_secret_scan.py:171-181 | a report lists exactly the findings without a record as unreviewed |
| ShipGate.RefusalShows | scripts/validate_ship_secret_scan.py:214-225 | the two sets differ exactly when some finding is listed as unreviewed or some record has no finding |
| GateExact.OpenGateReviewsAll | scripts/validate_ship_secret_scan.py:214-235 | a passing report has no unreviewed line |
| GateExact.DiffReportPlaces | scripts/validate_ship_secret_scan.py:131-144 | no two findings are about one line of one file, type changes that print a path twice included |
| GateExact.OpenGateCounts | scripts/validate_ship_secret_scan.py:214-235 | whatever was scanned, an open gate has as many records as findings exactly when no two findings share a key, and never more |
| GateExact.ReadableGateIsOneToOne | scripts/validate_ship_secret_scan.py:214-235 | in particular, on a diff the scanner reads right an open gate pairs findings and records one to one |
| GateNames.ScannedKeysIff | scripts/validate_ship_secret_scan.py:117-142 | the reported keys are those of the matching added lines, under the paths the scanner believes in |
| GateNames.OpenGateIsOneToOne | scripts/validate_ship_secret_scan.py:214-235 | whatever the names, an open gate pairs findings and records one to one exactly when no two files believed under one path share a matching line number and digest; otherwise there are fewer records |
| GateNames.OpenGateReviewsReportIff | scripts/validate_ship_secret_scan.py:214-235 | behind an open gate every matching added line has a record exactly when each is reported under its real path, by its own file or another |
| GateNames.CoveredIffPlain | scripts/validate_ship_secret_scan.py:117-119 | for all patterns that is so, apart from lucky names, exactly when files gaining lines have names without blanks that git does not quote |
| GateNames.QuotedFilesPass | scripts/validate_ship_secret_scan.py:117-130 | a diff of files whose names git quotes opens the gate with an empty allowlist, whatever it adds |
| GateNames.OneRecordCoversTwo | scripts/validate_ship_secret_scan.py:214-216 | one record opens the gate on two findings when a quoted file adds the line of the file before at the same number |
| GateTree.MatchingRecordsCurrentIff | scripts/validate_ship_secret_scan.py:99-106 | in any tree, records with the findings' keys pass the digest check exactly when the findings' own lines do |
| GateTree.GateOpensIff | scripts/validate_ship_secret_scan.py:196-236 | in any tree and for any names the gate opens exactly when the allowlist is well formed, holds the findings' keys, no fewer and no more, and the tree has each finding's digest at its line |
| GateTree.GateOpensAtHeadIff | scripts/validate_ship_secret_scan.py:196-236 | in a tree at the head of a readable diff whose lines ahead of added ones hold no separator, the first two conditions suffice |
| GateTree.StaleFindingLocksGate | scripts/validate_ship_secret_scan.py:197-199 | a finding the tree does not bear out keeps every allowlist from opening the gate |
| GateTree.BlankNameLocksGate | scripts/validate_ship_secret_scan.py:99-106 | with a finding in a file whose name holds a blank no allowlist opens the gate, unless the tree has a file of that name with a tab behind |
| GateTree.KeptSeparatorShifts | scripts/validate_ship_secret_scan.py:103-106 | in any written file the digest check of a line looks at the piece with the line's number, while the line is the piece behind all pieces of the lines before it |
| GateTree.KeptSeparatorLocksGate | scripts/validate_ship_secret_scan.py:99-106 | when that piece has another digest no allowlist opens the gate on a readable diff, even at head |
| GateAllowlist.CanOpenIff | scripts/validate_ship_secret_scan.py:64-106 | some allowlist opens the gate exactly when every finding is current under a path an allowlist may name and there are triage ids enough for the keys |
| Lines.LineFoundAt | scripts/validate_ship_secret_scan.py:103 | a line without separators is the piece behind all pieces of the lines before it, which are as many as those lines when none holds a separator |
| ExportDownload.ExportTables.Get | apps/consent/views.py:176-274 | one attempt delivers to the owner of a ready, unexpired request with a file, or changes nothing |
| ExportDownload.ExportTables.Sweep | apps/consent/tasks.py:516-551 | exactly the overdue ready requests become expired, with one audit entry each (field by field in `SweptShows`) |
| ExportDownload.ExportTables.MarkDelivered | apps/backoffice/views/consent.py:95-113 | exactly a ready request is marked, and it keeps its token |
| ExportDownload.ExportTables.Finish | apps/consent/tasks.py:399-418 | the request becomes ready whatever its status has become, and keeps owner and token |
| ExportDownload.WritersObeyRely | apps/consent/tasks.py:399-551 | sweep, worker and staff screen keep owners and tokens and log no download |
| ExportDownload.DeliveredAtMostOnce | apps/consent/views.py:218-231 | over any run with any interference a request is delivered at most once, and its download entries are exactly its deliveries |
| ExportDownload.TokenIsSingleUse | apps/consent/views.py:219-221 | a token that delivered once is refused ever after |
| ExportDownload.RefusalChangesNothing | apps/consent/views.py:186-216 | every refused attempt leaves the tables and the documents unchanged |
| ExportDownload.ServedOnlyToOwner | apps/consent/views.py:186-231 | an attempt delivers exactly when the asker presents the token of a request of their own that is ready, not past its expiry and has a file |
| ExportDownload.DeliveryToOwner | apps/consent/views.py:218-274 | a delivery spends the token, logs one download by the owner, changes nothing else, and serves the file if it opens |
| ExportDownload.MissingFileIff | apps/consent/views.py:213-216 | the missing file is complained about exactly to the owner of a ready request in time without one |
| ExportDownload.SweptIsClosed | apps/consent/tasks.py:517-541 | after a sweep a request can be downloaded exactly when it could before and was not overdue |
| ExportDownload.ReadyAgainStaysSpent | apps/consent/tasks.py:399-418 | a delivered request that a late worker makes ready again cannot be downloaded |
| Availability.OverlapIffSharedDate | apps/appointments/models.py:1366-1374 | the overlap test holds exactly when some date lies in both ranges, an open end counting as infinity |
| Availability.TemplateTable.Check | apps/appointments/models.py:1345-1386 | what each outcome of `clean` says about the draft and the stored rows |
| Availability.TemplateTable.Save | apps/appointments/models.py:1319-1386 | a validated save is accepted exactly when the row is complete, meets the constraints and no other row blocks it |
| Availability.AcceptableSays | apps/appointments/models.py:1319-1386 | what a save accepts, field by field |
| Availability.AcceptedIffUnambiguous | apps/appointments/models.py:1354-1386 | the check refuses exactly the saves that would make some date ambiguous |
| Availability.RunsStayUnambiguous | apps/appointments/models.py:1319-1386 | the table stays unambiguous over any run of inserts, edits and deletions |
| Availability.AtMostOneActive | apps/appointments/models.py:1224-1234 | `active_on` finds at most one template per staff member and weekday on every date |
| ConsentMatrix.OfficialOps | scripts/validate_item01_consent.py:42-55 | the loops fill the dictionary of the document's operations, later ids replacing earlier ones |
| ConsentMeaning.EntryBehindId | scripts/enrich_item01_consent_matrix.py:119-123 | in both scripts each id leads to the last entry that has it under a method word, in whatever case, and no other id is there |
| ConsentMeaning.OfficialSays | scripts/validate_item01_consent.py:47-54 | the validator compares with the path, the upper-cased method and the sorted statuses of that entry |
| ConsentMatrix.CheckRow | scripts/validate_item01_consent.py:77-95 | no error exactly when the row has all columns, a known disposition and the operation's method, path and statuses, given as a list, as the keys of an object or as the characters of a text |
| ConsentMeaning.RowOkSays | scripts/validate_item01_consent.py:77-95 | what a row must hold to pass, column by column |
| ConsentMatrix.CheckRows | scripts/validate_item01_consent.py:65-95 | no error exactly when every row passes and no id repeats |
| ConsentMatrix.Validate | scripts/validate_item01_consent.py:58-103 | no error exactly when rows and operations correspond one to one with equal method, path and statuses |
| ConsentMatrix.CountFollows | scripts/validate_item01_consent.py:97-101 | for rows that pass, equal counts mean the same as nothing missing |
| ConsentMatrix.CollectAgree | scripts/enrich_item01_consent_matrix.py:119-123 | enricher and validator see the same operation under every id |
| ConsentEnricher.Matrix.IndexRows | scripts/enrich_item01_consent_matrix.py:126 | each id, text or other scalar, leads to its last row |
| ConsentEnricher.Matrix.Enrich | scripts/enrich_item01_consent_matrix.py:119-147 | refused exactly when the ids differ; otherwise the last row of each id is updated and nothing else |
| ConsentMeaning.EnrichedSays | scripts/enrich_item01_consent_matrix.py:126-133 | of the rows with one id only the last is updated, from the operation of that id |
| ConsentMeaning.UpdatedSays | scripts/enrich_item01_consent_matrix.py:74-84 | every cell of an updated row: the operation's, the fixed ones, and the rest as it was |
| ConsentMeaning.ErrorStatusesSay | scripts/enrich_item01_consent_matrix.py:53-54 | error definitions are the statuses other than `default` and those starting with a 2, in document order |
| ConsentEnricher.EnrichedRow | scripts/enrich_item01_consent_matrix.py:132-147 | an updated row keeps its id and group and passes every check exactly when its id is a text and not empty and it has a group |
| ConsentEnricher.EnrichedValidatesIff | scripts/enrich_item01_consent_matrix.py:119-147 | what the enricher writes is valid exactly when ids are unique, texts and not empty and every row has a group |
| YamlOperations.YamlOperations | scripts/govstack_traceability.py:82-101 | the loop computes the line machine's rows |
| YamlMeaning.RowsOfAnyLines | scripts/govstack_traceability.py:82-101 | for any lines, which of them become rows, in which order, and from which lines each row's path, method and operation come |
| YamlLines.PathLineIff | scripts/govstack_traceability.py:88 | what a line must be made of to be read as a path line |
| YamlLines.VerbLineIff | scripts/govstack_traceability.py:93-95 | and as a method line |
| YamlLines.IdRestIff | scripts/govstack_traceability.py:98 | what must stand behind `operationId:` |
| YamlLines.IdTextSays | scripts/govstack_traceability.py:98-100 | the id is the stripped text up to the next quote, or empty where only a blank was left for it |
| YamlOperations.VerbIsNoId | scripts/govstack_traceability.py:93-100 | a method line without a path, which falls through, is never taken for an operationId |
| YamlRoundTrip.ClassifyReadsYaml | scripts/govstack_traceability.py:88-100 | how the three expressions read path, method and operationId lines, quoted or not |
| YamlRoundTrip.OperationsOfPrint | scripts/govstack_traceability.py:82-101 | what the parser returns for any document in the layout, misread ones included |
| YamlRoundTrip.LinesInvertedIff | scripts/govstack_traceability.py:87-100 | from printed lines the parser returns exactly the declared rows if and only if operations stand below known paths and their ids are unquoted and trimmed |
| YamlRoundTrip.SeparatorLost | scripts/govstack_traceability.py:87 | a path or operationId with a line separator never comes back from any text |
| YamlRoundTrip.ParserInvertsPrinterIff | scripts/govstack_traceability.py:82-101 | from the text of a document the same holds, with the added condition that neither paths nor ids hold a line separator |
| YamlRoundTrip.YamlInvertsPrinterIff | scripts/govstack_traceability.py:82-101 | the same for the parser's own expressions and the OpenAPI layout |
| YamlRoundTrip.StrayIdOverwrites | scripts/govstack_traceability.py:98-100 | an operationId below an unknown method replaces that of the last row |
| YamlRoundTrip.UnknownVerbIsSilent | scripts/govstack_traceability.py:93 | a line of a method the parser does not know is skipped |
| Traceability.WriteOfficialRows | scripts/govstack_traceability.py:158-199 | the loops add a row for each declared artifact not discovered |
| Traceability.OfficialRowSays | scripts/govstack_traceability.py:158-198 | which operation or artifact row each index is, with every field there and nothing claimed to be verified |
| Traceability.Number | scripts/govstack_traceability.py:176-198 | the rows are numbered from 1 in their order |
| Traceability.BuildTraceability | scripts/govstack_traceability.py:310-318 | the loop gives each block its official rows followed by its local row |
| Traceability.Validate | scripts/govstack_traceability.py:342-357 | the loops return the first problem |
| Traceability.AcceptedIff | scripts/govstack_traceability.py:342-357 | nothing is raised exactly for documents whose every block opens with a first official row and has only complete rows with known states |
| Traceability.AcceptedSays | scripts/govstack_traceability.py:342-357 | the same, field by field |
| Traceability.IdsAreUnique | scripts/govstack_traceability.py:176-181 | no two rows of the whole inventory share an id, however many rows a block has |
| Traceability.EveryArtifactInventoried | scripts/govstack_traceability.py:158-183 | the rows of a block cite exactly the declared and the discovered artifacts |
| Traceability.InventoriedOnce | scripts/govstack_traceability.py:165-174 | an artifact only inventoried has one row |
| Traceability.GeneratedIsAcceptedIff | scripts/govstack_traceability.py:310-357 | the validator accepts the generated inventory exactly when every block has something discovered or declared |
| TraceabilityTexts.TextsTell | scripts/govstack_traceability.py:176-199 | the ids, citations and local rows as written tell apart what these results rely on |
| TraceabilityTexts.OfficialIdTells | scripts/govstack_traceability.py:181 | the zero-padded id of a row determines block and index |
| TraceabilityTexts.FirstIdIff | scripts/govstack_traceability.py:351 | only the id with index 1 is taken for a first official one |
| TraceabilityTexts.ShippedTextsAccepted | scripts/govstack_traceability.py:310-357 | the acceptance result for the texts as written |
| TraceabilityTexts.ConsentOperationsInventoried | scripts/govstack_traceability.py:137-141 | the Consent inventory opens with the operations of a readable document's text, in order |
| Decimal.ReadPad3 | scripts/govstack_traceability.py:181 | a zero-padded index is read back as the index, whatever its length |
| AuthorityManifest.BuildManifest | scripts/govstack_authority_manifest.py:83-107 | a manifest is built exactly when every pinned artifact is there, with one entry per authority, and behind each path the hash of its own content (`EntryForSays`) |
| AuthorityManifest.AcceptedIff | scripts/govstack_authority_manifest.py:110-129 | accepted exactly when each approved repository is listed once, nothing else, at its commit, with its artifact set and hashes the digit check lets through |
| AuthorityManifest.PinsSays | scripts/govstack_authority_manifest.py:119-129 | what pins an authority: its commit, all its artifacts and no others, and what passes for a hash |
| AuthorityManifest.BuiltIsAccepted | scripts/govstack_authority_manifest.py:83-129 | the validator accepts whatever the builder writes |
| AuthorityManifest.RepeatedArtifactAccepted | scripts/govstack_authority_manifest.py:122-125 | an accepted manifest stays accepted when an artifact is pinned again with another hash |
| AuthorityManifest.DigitListAccepted | scripts/govstack_authority_manifest.py:126-129 | an accepted manifest stays accepted when a hash is given as the list of its digits |
| Item05Assessment.Validate | scripts/validate_item05_per_block_assessment.py:29-44 | passes exactly when every block is assessed in every dimension once, by well-formed records and no others |
| Item05Assessment.AcceptedSays | scripts/validate_item05_per_block_assessment.py:29-44 | the same, field by field |
| Item05Assessment.FullTableIff | scripts/validate_item05_per_block_assessment.py:34-44 | count and absence of repetitions mean the same as full coverage |
| Item05Assessment.ProductSize | scripts/validate_item05_per_block_assessment.py:34 | the table has blocks times dimensions cells |
| EncryptedField.BuildRing | apps/core/fields.py:38-60 | the keys in their order, or the fallback key |
| EncryptedField.FirstKeySeals | apps/core/fields.py:20-60 | the first listed key seals, or the secret key where none is listed, and a text reads back exactly when a later key, or its secret key, makes the same key |
| EncryptedField.ReadsBackIff | apps/core/fields.py:85-99 | a text reads back under another deployment exactly when that still has the sealing key |
| EncryptedField.RotationLosesNothing | apps/core/fields.py:63-71 | over any history of saves and prepended keys every row reads as the text last saved in it |
| EncryptedField.ResaveRekeys | apps/core/fields.py:85-99 | saving again moves a row to the first key; a row whose key is gone is erased |
| EncryptedField.LeavingTheFallback | apps/core/fields.py:38-49 | under any key list what was written with the fallback key reads back exactly when some listed setting makes that key |
| OutboxPublisher.Worker.Publish | apps/appointments/scheduler_tasks.py:114-142 | for every behaviour of runtime and broker the log is claim, hand-off, outcome over and over; the count is that of accepted published marks; the loop ends when claims run out |
| OutboxPublisher.RoundShows | apps/appointments/scheduler_tasks.py:118-141 | each round: the runtime's claim, the broker's answer for its key, and the mark that answer asks for, refused or not |
| OutboxPublisher.MarksMatchClaims | apps/appointments/scheduler_tasks.py:118-141 | every outcome call carries id, token and generation of the claim just before it, and every claim has one |

## Left out

- SHA-256, the regular expressions of the secret scan, Fernet, the JSON and YAML readers, git, file access and clocks
  are parameters or outside the model.
- Database locks and concurrency: each `atomic` block is one step. In the export model everybody else's writes may fall
  between any two steps.
- Audit: the address masking of the account views and signal handlers, the guards against update and delete (an entry
  is never written twice here), values in `event_detail` that JSON cannot hold, dictionary keys that are no text, and
  numbers whose text is no JSON numeral.
- AuditTable.AuditLog.NewestRow: among equal timestamps the first row is taken; `AuditRuns` allows any of them.
- DiffExact.GitScannerExact: what `splitlines` cuts off removed lines and hunk headings may say nothing here and may read
  as added lines in `DiffForged.ForgedIff`; where it reads as a label, a hunk header or a context line, nothing is stated.
- DiffScan.HunkStart: digits are the ASCII ones; on a text git does not print, Python would also read others.
- DiffScan: git settings that change the `b/` prefix, or that print names beyond ASCII unquoted. The escaped form of a
  quoted name is given with the file.
- ShipGate.ParseAllowlist: a file that is JSON but no object makes the script stop with an uncaught error, and is not
  modelled; digits in a triage id are the ASCII ones.
- ShipGate.WriteReport: the text of the report lines, the base and head names and the error message.
- ShipGate.RunGate: the two `rev-parse` calls count as part of git's answer, and failures to write the report are not
  modelled.
- ExportDownload.ExportTables.Sweep: the disposal calls; requests that change between the query and their save, whose
  status the sweep then overwrites, which is within `Rely`; and the recovery of stuck requests, which changes only their
  status and is within `Rely`.
- ExportDownload.ExportTables.Finish: writing the file, the retries, and the branch that reuses a document and writes no
  audit entry, which is also within `Rely`.
- ExportDownload: creating a request is covered only by what `Rely` and `FreshTokens` allow.
- Availability: batches of rows validated together before any is stored, and writes that skip `clean`. Day and time
  fields are integers; foreign keys other than a missing staff key are not checked.
- ConsentMatrix.CheckRow: cells other than texts, lists of texts and objects are all one value, so a disposition that
  Python cannot hash and statuses that Python cannot sort, at which the script stops, count as errors.
- ConsentMatrix.Validate: the run without a document, and the order of the errors.
- ConsentEnricher.EnrichedValidatesIff: paths of the document are texts.
- ConsentEnricher: how path parameters, schemas and security are drawn from an operation, the Markdown rendering and
  the authority block.
- YamlRoundTrip: documents are those whose paths start with a slash and whose other lines say nothing to the parser,
  separators included; methods are the five the parser knows. Text is what `read_text` returns, with one line feed
  behind each line.
- Traceability: `json_operations` and the listing of Payments artifacts, whose rows come in as discovered rows; the
  fixed texts of the descriptive fields; `--check` and `--generate`.
- AuthorityManifest: fields other than `sha256` that have a wrong JSON kind count as missing, and the script raises at
  either; `true` and `1.0` count as the version 1, as in Python.
- Item05Assessment.Validate: the headings looked for in the accompanying document, and missing record fields, at which
  the script raises.
- EncryptedField.ReadsBackIff: bytes given to the field are stored as they are and not followed further.
- OutboxPublisher.Worker.Publish: a runtime call that itself raises stops the worker and is not modelled.
- The local scheduler fake, the paging of the Consent API, `Slot.clean` and id-prefix parsing would add easy members.
- Booking, slot generation, the lease runtime and the Consent services: their code is not part of this model.
