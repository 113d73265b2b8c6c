# Ledger verification

A Dafny model of a personal-accounting ledger: the binary reader for legacy HSQLDB tables, statement admission,
bank reconciliation, the import of ledger years, and the close with its statements and reports. Each algorithm that
the Rust code runs over changing state is a method (or a class with methods) proved equal to a specification function;
what the code promises is then proved about that function, for all inputs or over all runs.

Check the whole project with `dafny verify dfyconfig.toml`.

## What is modelled

Amounts, ids and codes are bounded integers with explicit range checks (`i64`, `i32`, `u32`); exact sums that the
code takes in 128 bits are unbounded integers. Errors are `Result` values that keep the code's order of checks.

* **HSQLDB tables.** `BigInteger` decodes and encodes two's-complement integers of any length. `Cells` is the cell
  codec over a byte buffer. `RowIndex` walks an abstract index of row offsets with cycle detection; `Table` decodes
  row blocks and walks them in files. On arbitrary bytes the walk terminates, and succeeds exactly when every offset
  reachable through positive links decodes and none is reached twice; a tree of rows laid out in blocks is read back
  whatever bytes surround it. `CellLayout` and `Utf8` say byte by byte what the readers accept.
* **Statement admission.** `Fields`, `AmountText` and `Calendar` hold the quote-aware splitter, exact amounts and
  calendar dates; `Admission` is the row parser and the admission loop. `AdmissionProperties` accounts for every line;
  `AdmissionRules` and `AdmittedRows` say field by field which lines become which rows, and why the others do not.
  `Layouts` and `LayoutIndependence` render records under any profile, with the quoting of section 2, items 5 to 7, of
  RFC 4180 and both line breaks, and prove that admission reads the same records back from any layout. `RejectedLines`
  says which rejected lines affect the snapshot.
* **Reconciliation.** `Evidence` validates inputs and measures date distances; `Subsets`, `Candidates` and
  `CandidateSearch` enumerate bounded exact matches; `Certificates` folds decisions into a certificate and verifies it.
  `CandidateProperties`, `CertificateProperties` and `CandidateCertificates` prove that the enumeration is sound and
  complete, the bridge is conserved, the order of decisions does not matter and disjoint candidates can be accepted;
  `CandidateOrder` and `CertificateContents` say what the list and the certificate hold.
* **Import.** `YearFiles` is a year file with keyed tables and guarded writes on a mount where each write may be done,
  be lost with an error, or take effect although an error is reported. `LedgerSets` has the manifest and id
  allocation, `Renumbering` the plan of an import, `Import` its writes in order. `ImportRuns` proves what any run of
  creating, opening and importing leaves behind, with several sets open on one mount.
* **Close and reports.** `Relations` gives joins, filters, groups and order a small relational semantics.
  `TrialBalance`, `Statements`, `ReportQuery`, `Reports` and `Comparison` are the queries and tables over it, with the
  double-entry theorem and the agreement of grouped reports with direct sums; `StatementContents` and `ReportContents`
  say what they hold in terms of accounts and postings. `Journal`, `Closing` and `ClosingRuns`
  are the close/reopen state machine with its text journal, again with failing writes. `LedgerRuns` mixes imports,
  closes and reopens in one run.

`Wrappers`, `Numbers`, `Sequences`, `Sorting` and `Text` are shared groundwork.

### Where the code does not do what one would expect

* `crates/sim-ledger/src/statement.rs:205-206` says that row-level errors cannot affect the accepted snapshot. A row
  that is rejected only because the running total overflows can: its identity stays taken, so that a later row of the
  same identity is refused. `RejectedLines.OverflowedRowAffectsSnapshot` is a concrete statement, and
  `RejectedLines.RejectedInert` the exact condition: a rejected line is inert unless it overflowed, a later line has its
  identity, and the first such line fits the running total.
* A close or reopen writes the state first and the journal second
  (`crates/sim-lib-ledger-close/src/lock.rs:31-37`). If only the first write takes effect the state runs ahead of the
  journal: `ClosingRuns.TornClose` is a concrete run, `ClosingRuns.StepAgrees` and `ClosingRuns.RunAgrees` the exact
  condition for every call and all along a run, and `ClosingRuns.RunEndAgrees` the one at its end.
* If the second write takes effect and yet is reported as failed, the call returns an error and is journaled:
  `ClosingRuns.UnheardClose` is a concrete close, `ClosingRuns.JournalOfSuccesses` the exact condition under which the
  journal lists the calls that reported success.
* `crates/sim-ledger/src/import.rs:175-176` says that the cursor advances only after everything is written. That holds,
  but a failed import can leave the year's file, and then no import of that year succeeds on the mount again:
  `LedgerRuns.TornImport` is a concrete run, `LedgerRuns.ImportMakesFile` and `LedgerRuns.YearStaysSpent` the exact
  conditions.

## Model

| member | source | states |
|---|---|---|
| BigInteger.DecodeBigInteger | crates/sim-ledger-odb/src/hsqldb/row.rs:376-395 | a non-empty byte string of any length decodes exactly when its big-endian two's-complement value fits 64 bits, and then to that value; the empty string and an oversized value get their own errors |
| BigInteger.EssentialRange | crates/sim-ledger-odb/src/hsqldb/row.rs:383-389 | a string whose first byte is not a sign extension cannot be expressed in one byte less, so the bytes that are inspected decide overflow |
| BigInteger.LongEssentialOverflows | crates/sim-ledger-odb/src/hsqldb/row.rs:383-389 | more than eight essential bytes never fit 64 bits |
| BigInteger.EncodeBigInteger | crates/sim-ledger-odb/src/hsqldb/row.rs:397-409 | the bytes left after stripping sign extensions from the eight-byte form are the shortest encoding |
| BigInteger.ShortestIsUnique | crates/sim-ledger-odb/src/hsqldb/row.rs:397-409 | the encoding decodes to its argument, no other byte string of that value is shorter, and none of the same length differs |
| Cells.CheckedPow10 | crates/sim-ledger-odb/src/hsqldb/row.rs:422-431 | the power of ten, refused exactly when it leaves 64 bits |
| Cells.WriteLenBytes | crates/sim-ledger-odb/src/hsqldb/row.rs:258-262 | appends length and bytes, or nothing when the length leaves 32 bits |
| Cells.TryWriteCell | crates/sim-ledger-odb/src/hsqldb/row.rs:246-283 | appends the encoding of a cell for its column, or refuses the pair and leaves the buffer alone |
| Cells.ReadNumericAt | crates/sim-ledger-odb/src/hsqldb/row.rs:236-241 | a decimal written at scale two is read back as the same hundredths |
| Cells.ReadDateAt | crates/sim-ledger-odb/src/hsqldb/row.rs:232-235 | a day written as milliseconds is read back as the same day |
| Cells.ReadCellAt | crates/sim-ledger-odb/src/hsqldb/row.rs:214-283 | reading at the place of an encoded cell gives the cell and the position behind it, whatever surrounds it |
| CellLayout.CellExact | crates/sim-ledger-odb/src/hsqldb/row.rs:214-244 | a cell is read exactly where it stands, on arbitrary bytes: zero marker or any other, words, lengths within the buffer, valid text, days in range, and decimals at every scale with the factor that the scale asks for |
| CellLayout.LengthRefused | crates/sim-ledger-odb/src/hsqldb/row.rs:214-244 | a negative length is refused with its value |
| CellLayout.ScaleRefused | crates/sim-ledger-odb/src/hsqldb/row.rs:236-241 | a number beyond 64 bits overflows; otherwise a scale above two is refused with its value |
| Utf8.ValidUtf8Exact | crates/sim-ledger-odb/src/hsqldb/row.rs:226-231 | text bytes are accepted exactly when they encode Unicode scalar values |
| RowIndex.WalkCovers | crates/sim-ledger-odb/src/hsqldb/table.rs:21-40 | a walk that succeeds has visited exactly the offsets reachable through positive links, none of them twice |
| RowIndex.WalkRowsInOrder | crates/sim-ledger-odb/src/hsqldb/table.rs:21-40 | its rows are those of all reachable nodes, in order |
| RowIndex.WalkFlaw | crates/sim-ledger-odb/src/hsqldb/table.rs:21-40 | a walk that fails has met a node that does not decode and reports the decoder's refusal, or one for the second time and reports its offset |
| RowIndex.WalkExact | crates/sim-ledger-odb/src/hsqldb/table.rs:9-40 | the walk succeeds exactly when all reachable offsets decode and none is reached twice |
| RowIndex.WalkTree | crates/sim-ledger-odb/src/hsqldb/table.rs:21-40 | a stored finite tree is read back as its rows in order |
| Table.DecodeNodes | crates/sim-ledger-odb/src/hsqldb/table.rs:63-78 | the index words of a block, of which the first pair of links counts, read within the block |
| Table.DecodeCells | crates/sim-ledger-odb/src/hsqldb/table.rs:80-88 | the cells of the columns in order, read within the block |
| Table.DecodeRow | crates/sim-ledger-odb/src/hsqldb/table.rs:42-91 | the block at an offset: bounds checked before anything is read, then links, then cells |
| Table.Traversal.WalkRow | crates/sim-ledger-odb/src/hsqldb/table.rs:21-40 | the recursion over mutable rows and visited offsets is the walk; it ends because unvisited in-file offsets run out |
| Table.ReadTable | crates/sim-ledger-odb/src/hsqldb/table.rs:9-19 | reading a table is the walk from the root over an empty visited set |
| Table.TableExact | crates/sim-ledger-odb/src/hsqldb/table.rs:9-91 | on arbitrary bytes, reading succeeds exactly when every reachable offset decodes and none is reached twice; the result is the rows of all reachable offsets in order |
| Table.BlockAt | crates/sim-ledger-odb/src/hsqldb/table.rs:42-91 | a block with any number of index nodes decodes to the links of the first node and to its cells, whatever balance, parent and all words of later nodes say, and whatever room is left behind the cells |
| Table.TableRoundTrip | crates/sim-ledger-odb/src/hsqldb/table.rs:9-91 | any finite tree of writable rows laid out at distinct positive offsets, with any number of indexes and arbitrary words in all nodes but for the links of the first, is read back as its rows in order |
| CellLayout.RowBlockExact | crates/sim-ledger-odb/src/hsqldb/table.rs:42-91 | on arbitrary bytes, an offset decodes to a row exactly when a block stands there: a size within the file, a node for each index within it, and the cells of the columns within it; the links are those of the first node |
| CellLayout.BlockRefused | crates/sim-ledger-odb/src/hsqldb/table.rs:48-61 | negative offsets, sizes below four and sizes beyond the file are refused with their values before anything else is read |
| Fields.SplitFields | crates/sim-ledger/src/statement.rs:363-386 | the character loop with its quote state splits as the recursive definition does |
| Fields.SplitRefusesOddQuotes | crates/sim-ledger/src/statement.rs:380-383 | a line is malformed exactly when it holds an odd number of quotes |
| Fields.SplitRoundTrip | crates/sim-ledger/src/statement.rs:363-386 | splitting undoes rendering with RFC 4180 quoting, whichever fields are enclosed |
| Fields.SplitExact | crates/sim-ledger/src/statement.rs:363-386 | any line: bare text and text in quotes extend a field, doubled quotes inside quotes stand for one, delimiters outside quotes end it; exactly the lines made of such pieces split |
| AmountText.ParseAmount | crates/sim-ledger/src/model.rs:23-92 | digits with at most two fractional digits and an optional sign parse to their hundredths; refused when malformed or when the magnitude exceeds the largest 64-bit integer |
| AmountText.ParseInvertsPrint | crates/sim-ledger/src/model.rs:23-103 | parsing inverts printing for every amount but the least |
| AmountText.AmountExact | crates/sim-ledger/src/model.rs:23-92 | exactly the texts of an optional minus, whole digits and optionally a dot with one or two digits are accepted, as 100 times the whole plus tenths or hundredths, when that fits 64 bits |
| AmountText.ScaledValue | crates/sim-ledger/src/statement.rs:416-442 | the checked multiplications and additions give the exact hundredths, or overflow exactly when those leave 64 bits |
| AmountText.ParseStatementAmount | crates/sim-ledger/src/statement.rs:388-449 | statement amounts by separator, declared digits and column sign, with each refusal in its order |
| AmountText.StatementAmountExact | crates/sim-ledger/src/statement.rs:388-449 | exactly the texts of an optional minus, whole digits and optionally the separator with at most the declared digits are accepted, with the sign of minus or column and not of both |
| AmountText.AmbiguousExact | crates/sim-ledger/src/statement.rs:393-398 | the sign is ambiguous exactly for an empty text, a plus, a parenthesis, or a minus in a debit column |
| AmountText.PrecisionExact | crates/sim-ledger/src/statement.rs:409-411 | otherwise excess precision is reported exactly for a fraction of more bytes than declared digits |
| Utf8.ByteLengthIsUtf8 | crates/sim-ledger/src/statement.rs:409-411 | those bytes are the bytes of the fraction in UTF-8 |
| AmountText.FormsAgree | crates/sim-ledger/src/statement.rs:388-449 | with dot, two digits and no negation the statement form and the ledger form accept the same texts with the same value, except that only the statement form accepts one trailing dot |
| Calendar.OrdinalNextDay | crates/sim-ledger/src/reconciliation.rs:586-593 | the day number of the next calendar day is one more |
| Calendar.OrdinalCountsDays | crates/sim-ledger/src/reconciliation.rs:586-593 | day numbers order valid dates and differ by the days between them |
| Evidence.IsoTextOrdinal | crates/sim-ledger/src/reconciliation.rs:569-594 | an ISO date text is parsed to the day number of its date |
| Evidence.DateOrdinalExact | crates/sim-ledger/src/reconciliation.rs:569-585 | exactly the texts of three numerals with hyphens, month from 1 to 12 and day from 1 to 31, have a day number |
| Evidence.DistanceCountsDays | crates/sim-ledger/src/reconciliation.rs:568-597 | up to the year 2^63/366, the day numbers are 64-bit integers and the distance of two dates is the number of days between them, refused exactly when that exceeds 32 bits |
| Evidence.DistanceMetric | crates/sim-ledger/src/reconciliation.rs:568-597 | distances are symmetric and obey the triangle inequality |
| Admission.Admitter.AdmitLine | crates/sim-ledger/src/statement.rs:226-256 | one line: blank and header skipped, refused rows kept with their reason, totals checked after the identity is reserved |
| Admission.AdmitStatement | crates/sim-ledger/src/statement.rs:207-269 | the admission loop over all lines is the fold of its steps |
| AdmissionProperties.CanonicalDateFacts | crates/sim-ledger/src/statement.rs:451-486 | an accepted date text is a real calendar date and comes out as its ISO form |
| AdmissionProperties.ParseRowFacts | crates/sim-ledger/src/statement.rs:296-361 | an admitted row has a fresh non-empty identity, the profile's currency and a canonical date |
| AdmissionRules.CanonicalDateExact | crates/sim-ledger/src/statement.rs:451-486 | exactly the texts that spell a calendar date from year one on, in the order and with the separator of the format, are accepted, as that date's ISO text |
| AdmissionRules.AmountFieldExact | crates/sim-ledger/src/statement.rs:328-341 | the amount is that of the signed column, or of the one of debit and credit that is filled, a debit turned |
| AdmissionRules.ParseRowExact | crates/sim-ledger/src/statement.rs:296-361 | a line is parsed to a row exactly when its fields say that row: trimmed identity, date, the profile's currency in the currency column, amount, description; and the identity is free |
| AdmissionRules.ParseRowRefusals | crates/sim-ledger/src/statement.rs:296-341 | when a line is malformed, without identity, a duplicate, without a date, in another currency, or without an amount: for the reason of its column, or because debit and credit are both filled or both empty |
| AdmittedRows.TakenExact | crates/sim-ledger/src/statement.rs:311-360 | the identities taken are exactly those that some body line so far says |
| AdmittedRows.AdmitSucceeds | crates/sim-ledger/src/statement.rs:207-293 | a statement is admitted exactly for an acceptable profile, references that are not empty and UTF-8 text; the version and the encoding have errors of their own |
| AdmittedRows.AdmittedExact | crates/sim-ledger/src/statement.rs:207-269 | a line becomes a row exactly when its fields say the row, no line before it says one of its identity, and the sum of the rows before it leaves room; every other body line is rejected for lack of room or for the row parser's reason; the snapshot carries cutoff, source, profile, balances and the sum as given |
| AdmittedRows.AdmittedCurrencies | crates/sim-ledger/src/statement.rs:318-326 | with a currency column, every row of a snapshot has the profile's currency in it |
| AdmittedRows.ForeignRejected | crates/sim-ledger/src/statement.rs:318-326 | a dated line with a free identity and another currency stands among the rejections with both currencies, whatever its amount |
| AdmissionProperties.RunAccounted | crates/sim-ledger/src/statement.rs:226-256 | rows and rejections together are exactly the non-empty lines behind the header, each once with its own ordinal and bytes, in increasing order |
| AdmissionProperties.RefusedInert | crates/sim-ledger/src/statement.rs:296-361 | emptying a line that the row parser refuses changes nothing but the list of rejections |
| AdmissionProperties.RefusedInertSnapshot | crates/sim-ledger/src/statement.rs:207-269 | the same for the snapshot of a whole statement |
| AdmissionProperties.RejectionReserves | crates/sim-ledger/src/statement.rs:238-255 | a rejection leaves the taken identities alone exactly when the row parser made it, and not when the total overflowed |
| AdmissionProperties.SnapshotValid | crates/sim-ledger/src/statement.rs:207-269 | every snapshot passes the statement side of the reconciliation's validator; each date is parsed by the distance function and is its own ISO form |
| Layouts.NumberParses | crates/sim-ledger/src/statement.rs:388-449 | a number printed in the declared digits is read back with the sign of its column or its minus |
| Layouts.DateParses | crates/sim-ledger/src/statement.rs:451-486 | a date printed in either format is read back as its ISO form |
| Layouts.RowReadBack | crates/sim-ledger/src/statement.rs:296-361 | a rendered record with a free identity is read back as itself; currency and description matter only where they have a column |
| LayoutIndependence.DocumentLines | crates/sim-ledger/src/statement.rs:226-231 | lines joined into a document are its lines again, whether each ends in LF or CRLF and whether or not the last is terminated |
| LayoutIndependence.LayoutAdmitted | crates/sim-ledger/src/statement.rs:207-486 | records rendered under any usable profile, with any line ends, are admitted with nothing rejected: same identities, dates, amounts, descriptions and their sum |
| LayoutIndependence.LayoutsAgree | crates/sim-ledger/src/statement.rs:532-572 | any two layouts of the same records are admitted as the same records |
| RejectedLines.OverflowInert | crates/sim-ledger/src/statement.rs:226-256 | emptying the line of a row that was rejected for overflow leaves rows and total unchanged exactly when the first later line of its identity, if there is one, overflows too |
| RejectedLines.RejectedInert | crates/sim-ledger/src/statement.rs:204-206 | the same for any rejected line: it is inert unless it overflowed and the first later line of its identity fits the running total |
| RejectedLines.RejectedInertSnapshot | crates/sim-ledger/src/statement.rs:204-269 | the same for the snapshots of two whole statements that differ in one rejected line |
| RejectedLines.OverflowedRowAffectsSnapshot | crates/sim-ledger/src/statement.rs:204-256 | a concrete profile and three-line statement: its second row is rejected for overflow, and with that line emptied the snapshot has one row more |
| Evidence.ValidateRows | crates/sim-ledger/src/reconciliation.rs:433-451 | row identities non-empty and distinct, one non-empty currency |
| Evidence.ValidateMovements | crates/sim-ledger/src/reconciliation.rs:452-466 | voucher ids distinct, the rows' currency |
| Evidence.Validate | crates/sim-ledger/src/reconciliation.rs:424-474 | the checks in their order, the statement total last |
| Evidence.ValidateExact | crates/sim-ledger/src/reconciliation.rs:424-474 | validation passes exactly for non-empty references, distinct identities, one non-empty currency and a total equal to the checked sum of the rows |
| Evidence.ValidateRefusals | crates/sim-ledger/src/reconciliation.rs:424-474 | an overflow is reported exactly for inputs valid up to a sum of rows beyond 64 bits; all else is an invalid input |
| Subsets.Generator.Visit | crates/sim-ledger/src/reconciliation.rs:543-561 | the recursive generator emits, behind its prefix, every combination and restores the prefix |
| Subsets.Combinations | crates/sim-ledger/src/reconciliation.rs:542-566 | the combinations of a size, in order |
| Subsets.CombosExact | crates/sim-ledger/src/reconciliation.rs:542-566 | they are exactly the increasing index lists of that size, each once, as many as the binomial coefficient |
| Candidates.MaxDateDistance | crates/sim-ledger/src/reconciliation.rs:495-508 | the nested loops give the largest distance between the two sides, or the first refusal |
| Candidates.MaxDistanceBounds | crates/sim-ledger/src/reconciliation.rs:495-508 | that maximum is within a bound exactly when every pair of dates is |
| Candidates.JudgeRows | crates/sim-ledger/src/reconciliation.rs:476-493 | one pair: currency, both checked sums, then the dates |
| Candidates.JudgeExact | crates/sim-ledger/src/reconciliation.rs:476-493 | a judged pair becomes a candidate exactly when currencies and exact sums agree and all dates are within the bound |
| Candidates.JudgeOk | crates/sim-ledger/src/reconciliation.rs:476-508 | judging a pair succeeds exactly when its currencies differ, or all partial sums fit and the sums then differ or every date can be compared with every other side's date |
| Candidates.PairsExact | crates/sim-ledger/src/reconciliation.rs:230-236 | the nested loops examine exactly the pairs within the cardinality bound with one side of size one |
| Candidates.PairsNoDup | crates/sim-ledger/src/reconciliation.rs:230-236 | no pair is examined twice |
| Candidates.PairsCount | crates/sim-ledger/src/reconciliation.rs:230-240 | the number of examined pairs in terms of binomial coefficients |
| CandidateSearch.Search.Examine | crates/sim-ledger/src/reconciliation.rs:236-267 | work is counted and bounded before a pair is judged |
| CandidateSearch.ReviewOrderTotal | crates/sim-ledger/src/reconciliation.rs:272-279 | rank, kind, row ids and voucher ids order candidates strictly and totally |
| CandidateOrder.RankIsDistance | crates/sim-ledger/src/reconciliation.rs:243-267 | half the rank of a candidate is the largest distance between a row and a movement of its pair, and the distance of some two |
| CandidateOrder.RankIsText | crates/sim-ledger/src/reconciliation.rs:249-267 | the rank is even exactly when a description and a movement text share a word |
| CandidateOrder.RecordSays | crates/sim-ledger/src/reconciliation.rs:237-266 | the kind by the two counts, the identities and voucher ids of the pair in order, one currency, equal sums |
| CandidateOrder.ListInOrder | crates/sim-ledger/src/reconciliation.rs:271-280 | along the returned list ranks do not fall, at equal rank one-to-one precedes one-to-many precedes many-to-one, and then row and voucher ids ascend; a candidate left out stands behind all of a full list |
| CandidateSearch.GenerateCandidates | crates/sim-ledger/src/reconciliation.rs:218-281 | the loops, the sort and the truncation compute the specified list |
| CandidateProperties.RecordInjective | crates/sim-ledger/src/reconciliation.rs:253-266 | in valid inputs a candidate determines the index sets it came from |
| CandidateProperties.GenerateExact | crates/sim-ledger/src/reconciliation.rs:218-281 | the result is the first `max_results`, in strict review order, of exactly the matching pairs; and then the number of pairs is at most `max_work` |
| CandidateProperties.GenerateSucceeds | crates/sim-ledger/src/reconciliation.rs:218-281 | enumeration succeeds exactly for valid inputs and nonzero bounds when the binomial count of pairs is at most `max_work` and every eligible pair can be judged |
| CandidateProperties.AllCandidatesUnique | crates/sim-ledger/src/reconciliation.rs:272-280 | there is only one such list |
| Certificates.CoverEach | crates/sim-ledger/src/reconciliation.rs:322-345 | evidence is looked up, taken once and summed with overflow checks |
| Certificates.CoverExact | crates/sim-ledger/src/reconciliation.rs:322-345 | that succeeds exactly for known, uncovered, unrepeated evidence with no overflow, and gives its sum |
| Certificates.CoverRefusals | crates/sim-ledger/src/reconciliation.rs:322-345 | evidence is refused at its first bad id: unknown, covered before or in the same decision, or beyond 64 bits |
| Certificates.AdmitDecision | crates/sim-ledger/src/reconciliation.rs:305-357 | one decision under the no-reuse discipline, with each refusal in its order |
| Certificates.AdmitRefusals | crates/sim-ledger/src/reconciliation.rs:305-321 | a decision without an own reference, by another reviewer, or accepting without evidence on both sides is refused for that, in this order |
| Certificates.FoldDecisions | crates/sim-ledger/src/reconciliation.rs:305-357 | all decisions in order, up to the first refusal |
| Certificates.Build | crates/sim-ledger/src/reconciliation.rs:284-392 | the certificate: totals, uncovered ids in order, residual, closing |
| Certificates.VerifyExact | crates/sim-ledger/src/reconciliation.rs:395-408 | a certificate verifies exactly when it equals what the same inputs and decisions build without a close request, so any altered field is refused |
| CertificateContents.ContentsExact | crates/sim-ledger/src/reconciliation.rs:312-392 | the accepted entries are, in order, exactly the decisions whose disposition is accept, split or merge, each repeated with the reviewer of the inputs; uncovered are, ascending, exactly the rows and vouchers that none of them names; all else is taken from the inputs |
| CertificateContents.BuildSucceeds | crates/sim-ledger/src/reconciliation.rs:284-392 | a certificate is built exactly for valid inputs, admissible decisions and fitting sums; when closing is asked for, exactly when also every row and voucher is named and the residual is zero |
| CertificateProperties.FoldExact | crates/sim-ledger/src/reconciliation.rs:305-357 | decisions are accepted exactly when references are distinct and non-empty, all are decided by `reviewer_ref`, and the accepted evidence is exact and never reused |
| CertificateProperties.Conservation | crates/sim-ledger/src/reconciliation.rs:284-392 | the residual is the uncovered rows minus the uncovered movements; accepted and uncovered ids partition all ids without repetition; closed means nothing is uncovered |
| CertificateProperties.CertificatePermuted | crates/sim-ledger/src/reconciliation.rs:305-378 | permuting accepted decisions keeps acceptance, uncovered lists, totals, residual and closing |
| CandidateCertificates.CandidateSound | crates/sim-ledger/src/reconciliation.rs:243-266 | a generated candidate, recorded as an accept by `reviewer_ref`, is sound evidence |
| CandidateCertificates.DisjointCandidatesAccepted | crates/sim-ledger/src/reconciliation.rs:305-378 | any pairwise disjoint generated candidates, recorded as accepts under fresh references, are accepted |
| Ledger.IsVoucherBalanced | crates/sim-ledger/src/model.rs:211-223 | true exactly for a voucher with postings that sum to zero; refused exactly when the sum leaves 64 bits |
| Ledger.TallyPostings | crates/sim-ledger/src/model.rs:230-240 | one pass over the postings gives count and sum of every listed voucher |
| Ledger.VoucherBalanceViolations | crates/sim-ledger/src/model.rs:226-254 | the pass over vouchers in id order reports the violations, or the first voucher whose sum overflows |
| Ledger.ViolationsAmongExact | crates/sim-ledger/src/model.rs:242-253 | each reported violation is an unbalanced voucher with its own sum, and none is reported exactly when all balance |
| Ledger.NoViolations | crates/sim-ledger/src/model.rs:226-254 | the check passes with no violation exactly when every voucher has postings and they sum to zero |
| Ledger.ViolationsReported | crates/sim-ledger/src/model.rs:226-254 | one violation for each unbalanced voucher, in ascending id order, with its count and sum; or the least voucher id whose sum overflows |
| Ledger.ViolationsPermuted | crates/sim-ledger/src/model.rs:226-254 | the check does not depend on the order of rows |
| YearFiles.CommitKeepsKeys | crates/sim-ledger/src/store/schema.rs:144-179 | an admitted write keeps primary and foreign keys |
| YearFiles.ApplyAllKeepsKeys | crates/sim-ledger/src/store/schema.rs:144-179 | so does any sequence of admitted writes |
| YearFiles.YearStore.Mutate | crates/sim-ledger/src/store.rs:472-507 | a committed row is materialized in the file, a refused one changes nothing |
| YearFiles.YearStore.Guarded | crates/sim-ledger/src/store.rs:376-421 | inserts and id state pass the closing guard first |
| YearFiles.PerformAllLeaves | crates/sim-ledger/src/store.rs:472-507 | writes in order leave the file as some prefix of them made it, the whole on success, and no other file or manifest changed |
| YearFiles.PerformAllSucceeds | crates/sim-ledger/src/store.rs:472-507 | they all succeed exactly when the store admits each and every write is done |
| LedgerSets.ReserveIds | crates/sim-ledger/src/set.rs:113-134 | the first of n ids, the cursor moved behind them; refused for a negative count, a negative cursor or overflow, with the cursor unmoved |
| LedgerSets.LedgerSet.Create | crates/sim-ledger/src/set.rs:53-73 | a new set starts both cursors at one and saves its manifest; refused where one is saved |
| LedgerSets.LedgerSet.Open | crates/sim-ledger/src/set.rs:74-86 | a set as saved |
| LedgerSets.LedgerSet.AllocVoucherIds | crates/sim-ledger/src/set.rs:106-108 | voucher ids come from the voucher cursor |
| LedgerSets.LedgerSet.AllocPostingIds | crates/sim-ledger/src/set.rs:109-111 | posting ids come from the posting cursor |
| LedgerSets.LedgerSet.CreateYearStore | crates/sim-ledger/src/store.rs:53-61 | exclusive creation, then the year's name as metadata |
| LedgerSets.OpenYearExact | crates/sim-ledger/src/store.rs:62-75 | a file that names a year opens as that year and as no other |
| Renumbering.AssignVouchers | crates/sim-ledger/src/import.rs:206-223 | vouchers get consecutive ids and an id map; the first repeated source id is refused |
| Renumbering.AssignPostings | crates/sim-ledger/src/import.rs:225-246 | postings get consecutive ids at their voucher's id; a repeated source id or a missing voucher is refused |
| Renumbering.IdMapAt | crates/sim-ledger/src/import.rs:206-216 | the id map gives each source voucher its own id |
| Renumbering.NumberPostingsExact | crates/sim-ledger/src/import.rs:225-246 | numbering succeeds exactly for distinct source ids with known vouchers, and keeps every other field |
| Renumbering.BalanceKept | crates/sim-ledger/src/import.rs:233-246 | renumbering keeps the balance of every voucher |
| Renumbering.PlannedExact | crates/sim-ledger/src/import.rs:178-256 | an import is planned exactly when the year is new, both id ranges fit and the source is well formed: distinct ids, known vouchers, every source voucher balanced; the rows are then images of the source rows from the advanced cursors on |
| Renumbering.PlanSays | crates/sim-ledger/src/import.rs:188-246 | what a plan writes, field by field: ids from the larger cursor on, source ids, dates, accounts, amounts and texts as in the source |
| Renumbering.PlanRefusals | crates/sim-ledger/src/import.rs:188-246 | what is reported for a listed year, a repeated voucher id, a repeated posting id and an unknown voucher |
| Renumbering.DuplicateVoucher | crates/sim-ledger/src/import.rs:206-216 | the repeated voucher that is reported is the first |
| Renumbering.RefusedPosting | crates/sim-ledger/src/import.rs:225-237 | so is the posting with a repeated id or an unknown voucher |
| Renumbering.CheckedReports | crates/sim-ledger/src/import.rs:248-256 | the reported voucher is the least new id that does not balance, with its count and sum, or one whose sum overflows |
| Import.Prepare | crates/sim-ledger/src/import.rs:188-256 | everything before the first write, on a draft of the set |
| Import.WriteTables | crates/sim-ledger/src/import.rs:295-305 | accounts, vouchers, postings and id state, written one by one up to the first failure |
| Import.WriteRows | crates/sim-ledger/src/import.rs:287-310 | then the year is listed and the manifest saved |
| Import.ImportYear | crates/sim-ledger/src/import.rs:178-261 | the outcome of an import for the caller's set and the mount; the set is assigned last |
| ImportRuns.RowsWritten | crates/sim-ledger/src/import.rs:295-305 | the rows of a plan go into a fresh file exactly when accounts are distinct and every posting has one; the file then holds the source's image |
| ImportRuns.ImportLeaves | crates/sim-ledger/src/import.rs:258-261 | a failed call leaves the in-memory set unchanged; no existing file changes; a saved manifest that lists the year comes only with the complete file |
| ImportRuns.ImportSucceeds | crates/sim-ledger/src/import.rs:178-310 | an import succeeds exactly when the year is unlisted and its file new, the ids fit, the source is well formed and keyed, and every write is done |
| ImportRuns.ImportKeepsSound | crates/sim-ledger/src/import.rs:178-310 | one import keeps the caller's and the saved manifest sound |
| ImportRuns.RunSound | crates/sim-ledger/src/import.rs:178-310 | over any run of create, open and import with any write failing, every manifest lists only whole, keyed, per-voucher balanced images of imported sources, with postings at the image of their own voucher and ids unique across listed years and below the cursors |
| ImportRuns.FilesStay | crates/sim-ledger/src/store.rs:53-61 | a year file never changes again in such a run |
| ImportRuns.ListedYearOpens | crates/sim-ledger/src/store.rs:62-75 | every listed year opens under its own name |
| ImportRuns.ListedYearBalances | crates/sim-lib-ledger-close/src/statements.rs:97-109 | the close of a listed year never reports an unbalanced voucher or trial balance |
| Relations.SumOfGroups | crates/sim-ledger/src/store.rs:128-163 | summing the sums of all groups sums all rows |
| TrialBalance.GroupIsAccount | crates/sim-ledger/src/store.rs:107-135 | with distinct account numbers a group of the left join is one account with its own postings |
| TrialBalance.TrialBalanceExact | crates/sim-ledger/src/store.rs:106-183 | one row per account in account order, with or without postings: its own debits, credits and closing; it exists exactly when these fit |
| TrialBalance.DebitsCount | crates/sim-ledger/src/store.rs:116-163 | debits and credits are not negative and the closing is their difference |
| TrialBalance.ClosingsSum | crates/sim-ledger/src/store.rs:106-183 | the closings sum to the sum of all postings |
| TrialBalance.BalancedVouchersBalance | crates/sim-ledger/src/model.rs:206-254 | if every voucher balances, all postings sum to zero |
| TrialBalance.DoubleEntry | crates/sim-lib-ledger-close/src/statements.rs:97-109 | if every voucher balances, the closings sum to zero |
| Statements.GroupRows | crates/sim-lib-ledger-close/src/statements.rs:176-185 | the accumulation by label holds, per label, the sum of the shown closings |
| Statements.TableFromRows | crates/sim-lib-ledger-close/src/statements.rs:171-199 | one row per label in label order with its exact sum, refused exactly when a sum overflows |
| Statements.TableSum | crates/sim-lib-ledger-close/src/statements.rs:171-199 | a table sums to the closings of the rows it shows |
| Statements.TwoTables | crates/sim-lib-ledger-close/src/statements.rs:177-184 | the rows of both tables together are exactly the moving rows, each once; their closings sum to all closings |
| Statements.LabelTellsSide | crates/sim-lib-ledger-close/src/statements.rs:178-203 | an income label is never a balance-sheet label |
| Statements.TableAscending | crates/sim-lib-ledger-close/src/statements.rs:186-194 | labels come once each in ascending order |
| Statements.TableFits | crates/sim-lib-ledger-close/src/statements.rs:186-199 | a table exists exactly when the sum under every label fits 64 bits |
| Statements.TablesFit | crates/sim-lib-ledger-close/src/statements.rs:97-110 | trial balance and both tables exist exactly when debits, credits and closing of every account fit, and so do the sums, account by account, under every label of either side |
| Statements.VouchersBalancedExact | crates/sim-lib-ledger-close/src/statements.rs:159-169 | the check before the statements passes exactly when every voucher balances |
| Statements.UnbalancedNamed | crates/sim-lib-ledger-close/src/statements.rs:159-169 | an unbalanced voucher is reported as the one of the least id, with its number of postings and their sum |
| Statements.UnbalancedTrialExact | crates/sim-lib-ledger-close/src/statements.rs:97-109 | for any file, an unbalanced trial balance is reported exactly when the vouchers balance and the closings sum to something else than zero, with that sum |
| Statements.StatementsBalance | crates/sim-lib-ledger-close/src/statements.rs:97-123 | where the schema's keys hold, an unbalanced trial balance is never reported; statements exist exactly when every voucher balances, the sums of every account fit and the direct sums under every label fit; both tables then have opposite totals and disjoint labels |
| StatementContents.StatementsExact | crates/sim-lib-ledger-close/src/statements.rs:97-203 | the trial balance holds each account once, in number order, with the sums of its positive, negative and all postings; each table holds, in caption order, exactly one row for each caption of an account that moves and belongs there, with the closings shown under it; codes from 3000 to 8999 go to the income statement, the closing's sign picks the code |
| StatementContents.IncomeCaptions | crates/sim-lib-ledger-close/src/statements.rs:178-203 | an income caption is SRU and a code from 3000 to 8999 |
| ReportQuery.OnePartner | crates/sim-ledger/src/store.rs:199-207 | with distinct accounts a posting joins with its own account only |
| ReportQuery.YearReportExact | crates/sim-ledger/src/store.rs:185-277 | a year's report lists, in ascending key order, exactly the keys whose direct sum over the postings is not zero, and exists exactly when all direct sums fit |
| ReportQuery.UnionReportSum | crates/sim-ledger/src/store.rs:279-297 | per key the union over years sums to the direct sum, although each year drops its zero groups |
| Reports.SumByCode | crates/sim-ledger/src/report.rs:27-31 | the accumulation over report rows is the sum per code |
| Reports.CollectTotals | crates/sim-ledger/src/report.rs:32-46 | nonzero totals in code order, refused when a code or a total is out of range |
| Reports.Balances | crates/sim-ledger/src/report.rs:18-60 | balances by code or by account, nothing for no years |
| Reports.SruBalancesExact | crates/sim-ledger/src/report.rs:18-47 | balances by code are the direct sums of all postings mapped by sign, zero codes dropped and codes ascending; they exist exactly when all direct sums fit |
| ReportContents.YearSumCoded | crates/sim-ledger/src/store.rs:199-240 | a year's sum under a code is that of the postings that the sign of the amount and the account's two codes send there |
| ReportContents.BalancesCoded | crates/sim-ledger/src/report.rs:18-47 | balances by code are exactly the nonzero sums of those postings over the years, codes ascending |
| Reports.AccountBalancesExact | crates/sim-ledger/src/report.rs:48-60 | balances by account are, per year, the nonzero sums of the account's postings |
| Reports.AccountBalancesOrdered | crates/sim-ledger/src/report.rs:48-49 | they come by year, then account |
| Comparison.IndexYears | crates/sim-lib-ledger-close/src/statements.rs:130-142 | each year is checked, reported alone and indexed, and its codes join the ordered set |
| Comparison.CompareBySru | crates/sim-lib-ledger-close/src/statements.rs:126-157 | the comparison table over all codes and years |
| Comparison.CompareRow | crates/sim-lib-ledger-close/src/statements.rs:144-156 | each cell is that year's direct sum and each row sums to the direct sum over the years |
| Comparison.ComparedCodes | crates/sim-lib-ledger-close/src/statements.rs:131-140 | the codes are those with a nonzero sum in some year |
| Comparison.CompareAgrees | crates/sim-lib-ledger-close/src/statements.rs:126-157 | cross-year balances are exactly the nonzero row sums of the comparison |
| Comparison.CompareExists | crates/sim-lib-ledger-close/src/statements.rs:126-142 | the comparison exists exactly when every year's vouchers balance and every year's sums fit |
| Journal.AppendedHistory | crates/sim-lib-ledger-close/src/lock.rs:66-76 | appending to the journal of a history gives the journal of the longer history |
| Journal.ParseText | crates/sim-lib-ledger-close/src/lock.rs:78-92 | reading the journal of a history gives back the history |
| Journal.EntryExact | crates/sim-lib-ledger-close/src/lock.rs:83-90 | a line is an entry exactly when it is the name of a state, a tab and the reason |
| Journal.JournalExact | crates/sim-lib-ledger-close/src/lock.rs:78-92 | any text is the journal of a history exactly when its lines, but for those of white space only, are its entries in order |
| Closing.AppendJournal | crates/sim-lib-ledger-close/src/lock.rs:66-76 | the string buffer grows by one line and is stored |
| Closing.CloseYear | crates/sim-lib-ledger-close/src/lock.rs:31-37 | statements first, then state, then journal |
| Closing.ReopenYear | crates/sim-lib-ledger-close/src/lock.rs:40-55 | a blank reason is refused before anything is touched; then state, journal and the journal read back |
| ClosingRuns.RunJournaled | crates/sim-lib-ledger-close/src/lock.rs:22-92 | over any run with any write failing, the journal reads back as the entries journaled and the close state is the state set last |
| ClosingRuns.SuccessJournaled | crates/sim-lib-ledger-close/src/lock.rs:31-55 | a call that reports success is journaled, and a call journals what it reports exactly when its journal write is not reported failed after taking effect |
| ClosingRuns.RefusedCalls | crates/sim-lib-ledger-close/src/lock.rs:31-55 | a year that does not open, statements that fail and a reason of white space only are reported as such, and leave everything as it was |
| ClosingRuns.FailedWrites | crates/sim-lib-ledger-close/src/lock.rs:34-53 | a call that passes its checks reports a storage failure when one of its writes is not reported done |
| ClosingRuns.ReopenReturns | crates/sim-lib-ledger-close/src/lock.rs:40-76 | a successful reopen returns the journal with one entry more: open, for the trimmed reason with a blank for every line break and tab |
| ClosingRuns.JournalOfSuccesses | crates/sim-lib-ledger-close/src/lock.rs:31-92 | after any run with any write failing, the journal is the history of the calls that reported success, reasons trimmed and on one line, exactly when no journal write of the run took effect unreported |
| ClosingRuns.UnheardClose | crates/sim-lib-ledger-close/src/lock.rs:34-35 | a concrete close that returns an error and is journaled all the same |
| ClosingRuns.StepAgrees | crates/sim-lib-ledger-close/src/lock.rs:22-55 | where state and journal agree before a call they agree after it, unless the call passes its checks, only its state write takes effect, and the state was another |
| ClosingRuns.MarkedAgrees | crates/sim-lib-ledger-close/src/lock.rs:34-51 | a call whose two writes both take effect makes state and journal agree, whatever was before |
| ClosingRuns.RunAgrees | crates/sim-lib-ledger-close/src/lock.rs:22-92 | state and journal agree all along a run exactly when none of its calls is torn into another state |
| ClosingRuns.RunEndAgrees | crates/sim-lib-ledger-close/src/lock.rs:22-92 | at the end of a run state and journal agree exactly when the last call that set the state, if any, journaled it or set the state of the last entry before it; earlier torn calls are healed |
| ClosingRuns.TornClose | crates/sim-lib-ledger-close/src/lock.rs:34-35 | a close whose journal write is lost leaves the year closed and unjournaled |
| ClosingRuns.StepFrozen | crates/sim-ledger/src/store.rs:376-450 | no call changes the rows of a closed year, and it stays closed exactly when the call does not set it open |
| ClosingRuns.RunFrozen | crates/sim-ledger/src/store.rs:376-450 | until a reopen takes effect a closed year stays closed, and neither its rows nor its statements change |
| ClosingRuns.CloseCloses | crates/sim-lib-ledger-close/src/lock.rs:31-37 | a successful close leaves the year closed, with the statements it returned |
| LedgerRuns.RunKept | crates/sim-ledger/src/import.rs:178-310 | over any run of create, open, import, close and reopen with any write failing, every manifest lists only whole, keyed, per-voucher balanced images of imported sources with ids of their own; their metadata is the year's name and, once marked, a state and a journal as written |
| LedgerRuns.ListedYearReads | crates/sim-lib-ledger-close/src/lock.rs:22-64 | after such a run every listed year opens under its own name, and its close state and journal can be read |
| LedgerRuns.ListedYearBalances | crates/sim-lib-ledger-close/src/statements.rs:97-109 | after such a run a listed year, closed and reopened or not, is never found unbalanced |
| LedgerRuns.RowsStay | crates/sim-ledger/src/store.rs:53-61 | no call of such a run changes the rows of a year file, or of its metadata more than state and journal |
| LedgerRuns.ImportMakesFile | crates/sim-ledger/src/import.rs:278-285 | an import leaves a file of its year exactly when there was one, or it is planned and its first write takes effect |
| LedgerRuns.YearStaysSpent | crates/sim-ledger/src/import.rs:258-285 | once a year has a file and no manifest lists it, no later call of any run lists it, and no import of it succeeds even with every write done |
| LedgerRuns.TornImport | crates/sim-ledger/src/import.rs:258-285 | a concrete run: a first import whose second write is lost leaves the file, and the second attempt is refused with every write done |

## Left out

- Relational provider and query admission: tables are keyed row lists, and joins, filters, groups and order are functions on them; a group sum is refused exactly when the exact total leaves 64 bits, while a provider may also refuse a partial sum.
- Storage reads never fail in the model; a failing read would end a call like a lost write.
- Stores kept open across calls: every call opens the year file anew, so a session that outlives a close and writes its old content back is not modelled.
- TrialBalance.TrialBalanceExact: the fixed limits of every query (`crates/sim-ledger/src/store.rs:82`, 100,000 rows and so on) are not modelled, so in a very large year a result can be refused although all its sums fit; the same holds for the lemmas on statements, reports and comparisons.
- LedgerSets.LedgerSet.Open: a saved manifest that is not valid TOML is not modelled.
- Reports.Balances: the same year given twice is summed twice; how a provider treats two sources of one name is not modelled.
- Statements.StatementsBalance: titles and notes of the statements are not modelled.
- Direct metadata writes on the closing keys and inserts with ids chosen by the caller do not occur in the run models.
- Cells.ReadCellAt: text cells are valid UTF-8 byte strings, and a DATE is its day number.
- Cells.ReadDateAt: a DATE is its day number; the conversion to and from date text is not modelled.
- Cells.TryWriteCell: likewise, a date text that does not parse is not modelled; a day outside the calendar range is refused.
- Cells.CheckedPow10: exponents are natural numbers, so a decimal scale below -2147483645, where `2 - scale` leaves 32 bits, is not distinguished from overflow.
- CandidateSearch.GenerateCandidates: splitting and lower-casing words is a parameter; the text penalty is zero or one by whether the word sets meet.
- Evidence.DistanceCountsDays: years beyond 2^63/366, where the day arithmetic can leave 64 bits, are not modelled.
- Admission.AdmitStatement: decoding of the input is a parameter, absent when the bytes are not UTF-8; lengths and ordinals are natural numbers without the range of a machine word.
- Correction drafts (`prepare_correction_draft`), adjustments, expression projection and draft books: one check or one mapping each.
- ZIP, CSV, TOML and SQL-script reading, command line, printing, serialization and error texts.
