# godmarc core in Dafny

godmarc reads DMARC aggregate reports (the XML feedback documents of
RFC 7489, Appendix C) from a configuration directory. It checks each file
and decodes it into a report, aggregates the reports into counts and a
date range, and lists the records that failed DKIM or SPF. This project
models that core and proves what it promises:

- `Dmarc` (dmarc.dfy): the report data model; Go's `time.Time` as far as
  the program observes it; and the custom `date_range` decoder
  `DateRange.UnmarshalXML`.
- `Decimal` (decimal.dfy): `strconv.ParseInt(s, 10, 64)`, which that
  decoder calls, and the base-10 digits of an integer, which are what the `%d` of
  the warning line prints (`fmt` formats `%d` itself).
- `Text` (text.dfy): prefix and substring tests, `strings.TrimSpace` on
  strings, `bytes.TrimSpace` on UTF-8 bytes, and `strings.Join`.
- `Parser` (parser.dfy): `validateReport`, `hasXMLHeader`,
  `hasRootElement` and the ordered checks of `ParseDMARCReport`.
- `Aggregate` (aggregate.dfy): `AggregateReports`.
- `Storage` (storage.dfy): `ReportLoader.LoadReports` with its file-name
  check, `ErrNoReports`, and the in-place `SortReportsByDate`.
- `Formatter` (formatter.dfy): `TruncateString`, `Max` and `Min`.
- `Wrappers` (wrappers.dfy): `Option` and `Result`.

What the functions here take as inputs:

- The file system is a value: the listing that `os.ReadDir` returned, and
  for each path what `os.Stat` and `os.ReadFile` report (`FileView`).
- The XML decoder is a function from bytes to a decoded document or an
  error text. The decoded document carries the two text children of
  `date_range`.
- `filepath.Clean` and `filepath.IsAbs` are functions in `Storage.Env`.

The loops of the source are methods with loop invariants:

- `AggregateReports`, with its inner loop `CountReportRecords`.
- The loop of `LoadReports` (`ScanEntries`, body `TakeEntry`).
- `SortReportsByDate` on an `array`.

The loop methods of aggregation and loading are proved equal to
specification functions, and the properties are proved about those
functions. The sort is proved to leave a permutation of its old contents,
newest first. Its helpers are proved against what the sort needs of them:
`NewestFrom` finds a newest report of the unsorted part, and `PlaceNewest`
extends the sorted prefix by one place without losing a report.

Time is modelled as Go compares it. `time.Unix(s, 0)` is `At(s)`; the
zero `time.Time{}` is `Unset`. `Before` and `After` compare the 64-bit
seconds counted from year 1. That count is `s + 62135596800` and wraps
around in two's complement. No `At(s)` equals `Unset`, as Go's `==` on
`time.Time` also compares the location.

## Model

| member | source | states |
|---|---|---|
| Dmarc.Wrap64 | internal/model/aggregate.go:62-66 | the 64-bit addition behind `Before`/`After`: the identity inside the int64 range, otherwise congruent modulo 2^64 |
| Dmarc.Seconds | internal/model/aggregate.go:62-66 | the seconds since year 1 that `Before` and `After` compare; while nothing wraps they are the Unix seconds plus 62135596800 |
| Dmarc.Before | internal/model/aggregate.go:62 | `t.Before(u)` iff `u.After(t)`; an instant before another is not after it, nor equal to it |
| Dmarc.After | internal/model/aggregate.go:65 | no instant is `After` itself |
| Dmarc.BeforeIsChronological | internal/model/aggregate.go:62-66 | for instants whose year-1 seconds fit in 64 bits, `Before`/`After` are `<`/`>` on Unix seconds, and every instant after year 1 is `After` the zero time |
| Dmarc.LatestSecondWraps | internal/model/aggregate.go:62-66 | beyond that range the addition wraps: `time.Unix(MaxInt64, 0)` is `Before` the epoch |
| Dmarc.UnmarshalDateRange | internal/model/dmarc.go:84-114 | sets `Begin`, then `End`, returning right after the first failed parse; equals `DecodeDateRange`, and success sets both endpoints |
| Dmarc.DecodeDateRange | internal/model/dmarc.go:99-113 | without an error both endpoints are set; a bad `begin` leaves the range as it was; after any error `End` is as it was |
| Dmarc.DecodeDateRangeMeaning | internal/model/dmarc.go:99-113 | no error iff both texts are 64-bit decimals, and then the range holds their values; a bad `begin` leaves the range unchanged and names `begin` with its text; a bad `end` names `end`, with `Begin` already stored |
| Dmarc.DecodeDateRangeExamples | internal/model/dmarc.go:99-113 | `"0"` decodes to the epoch, which is not the zero time; a range may end before it begins; text is a syntax error; an empty `end` leaves `End` unset |
| Dmarc.TimestampError.Message | internal/model/dmarc.go:102-109 | no contract of its own: `invalid begin timestamp: ` or `invalid end timestamp: `, then the text of the `strconv` error |
| Decimal.ParseInt | internal/model/dmarc.go:100-102 | every error carries the whole input; the empty string is a syntax error |
| Decimal.NumError.Message | internal/model/dmarc.go:100-109 | no contract of its own: the text of `*strconv.NumError` from `ParseInt`, `strconv.ParseInt: parsing "<input>": ` then `invalid syntax` or `value out of range` |
| Decimal.ScanUint | internal/model/dmarc.go:100 | no contract of its own: the digit loop of `ParseUint`, which checks for overflow before adding each digit; `ScanUintRun` states what it returns |
| Decimal.ScanUintRun | internal/model/dmarc.go:100 | the unsigned scan overflows exactly when the leading digit run exceeds 2^64-1; otherwise it succeeds iff the run is the whole input |
| Decimal.ParseIntMeaning | internal/model/dmarc.go:100-111 | `ParseInt` succeeds iff the input is an optionally signed decimal within the int64 range, and then returns its value |
| Decimal.ParseIntErrorKinds | internal/model/dmarc.go:100-111 | a syntax error iff the input is not a decimal and its digit run stays within 2^64-1; every other failure is a range error |
| Decimal.ParseIntRejectsOutOfRange | internal/model/dmarc.go:100-111 | a well-formed decimal outside the int64 range is a range error |
| Decimal.ParseIntEpochExample | internal/model/dmarc.go:100-104 | `"1700000000"` parses to 1700000000 |
| Decimal.ParseIntSyntaxExamples | internal/model/dmarc.go:100-111 | text, a bare sign and a trailing letter are syntax errors |
| Decimal.FormatNat | internal/storage/storage.go:148-152 | a non-empty run of digits; `FormatNatValue` shows that they read back as the number |
| Decimal.FormatInt | internal/storage/storage.go:148-152 | a minus sign exactly for negative values, otherwise a leading digit |
| Decimal.FormatNatValue | internal/model/dmarc.go:100-111 | the digits written for `n` read back as `n` |
| Decimal.ParseFormatRoundTrip | internal/model/dmarc.go:100-111 | `ParseInt(FormatInt(n)) == Ok(n)` for every int64 `n`: the date decoder reads back any timestamp written in base 10 |
| Text.HasPrefix | internal/parser/parser.go:93 | no contract of its own: `bytes.HasPrefix`, the first elements of the input are the pattern |
| Text.Contains | internal/parser/parser.go:99 | no contract of its own: `strings.Contains`; `ContainsMeaning` shows it holds iff the pattern occurs at some position |
| Text.ContainsAt | internal/storage/storage.go:104-106 | an occurrence at any position makes `strings.Contains` true |
| Text.ContainsMeaning | internal/storage/storage.go:104-106 | `Contains(s, p)` iff `p` occurs in `s` at some position |
| Text.ContainsExtended | internal/parser/parser.go:99 | containing `p + q` implies containing `p` |
| Text.IsSpace | internal/model/aggregate.go:95 | no contract of its own: `unicode.IsSpace`, the six ASCII white-space characters, U+0085, U+00A0, U+1680, U+2000 to U+200A, U+2028, U+2029, U+202F, U+205F and U+3000 |
| Text.TrimLeft | internal/model/aggregate.go:95 | a suffix; every dropped character is white space and the result does not start with any |
| Text.TrimRight | internal/model/aggregate.go:95 | a prefix; every dropped character is white space and the result does not end with any |
| Text.TrimSpace | internal/model/aggregate.go:95 | no longer than the input, neither starts nor ends with white space, and sits in the input with only white space before and after it |
| Text.TrimBothFramed | internal/model/aggregate.go:95 | trimming at the front and then at the back leaves a run of the input framed by white space |
| Text.TrimLeftKeepsNonSpaceStart | internal/model/aggregate.go:95 | text that starts with a non-space is not trimmed at the front |
| Text.TrimRightAfterNonSpace | internal/model/aggregate.go:95 | right-trimming `a + b`, where `a` ends in a non-space, only trims `b` |
| Text.TrimRightDropsSpace | internal/model/aggregate.go:95 | a trailing white-space character is dropped |
| Text.LeadingSpaceLen | internal/parser/parser.go:93 | the length of the leading white-space rune, at most 3 bytes, each of which may belong to a space encoding |
| Text.TrailingSpaceLen | internal/parser/parser.go:93 | the same for the last rune |
| Text.LeftTrimStripsSpace | internal/parser/parser.go:93 | every byte stripped at the front may belong to a white-space encoding |
| Text.RightTrimStripsSpace | internal/parser/parser.go:93 | every byte stripped at the back may belong to a white-space encoding |
| Text.LeftTrimStops | internal/parser/parser.go:93 | the front-trimmed bytes do not start with a white-space rune |
| Text.RightTrimStops | internal/parser/parser.go:93 | the back-trimmed bytes do not end with a white-space rune |
| Text.TrimSpaceBytes | internal/parser/parser.go:93 | `bytes.TrimSpace` is never longer than its input |
| Text.TrimSpaceBytesStops | internal/parser/parser.go:93 | the trimmed bytes neither start nor end with a white-space rune |
| Text.LeftTrimOfStripped | internal/parser/parser.go:93 | what is stripped at the front, stripped again on its own, is stripped entirely |
| Text.RightTrimOfStripped | internal/parser/parser.go:93 | the same for what is stripped at the back |
| Text.LeftTrimParts | internal/parser/parser.go:93 | the input is what is stripped at the front followed by the rest, and the stripped part is white-space runes only |
| Text.RightTrimParts | internal/parser/parser.go:93 | the input is the rest followed by what is stripped at the back, and the stripped part is white-space runes only |
| Text.TrimSpaceBytesParts | internal/parser/parser.go:93 | the input is the trimmed bytes with a prefix and a suffix around them that are white-space runes only: stripping either on its own removes all of it |
| Text.ContainsSkipsBlankPrefix | internal/parser/parser.go:98-99 | a white-space prefix cannot hold or create an occurrence of a pattern that starts with a non-space |
| Text.ContainsSkipsBlankSuffix | internal/parser/parser.go:98-99 | the same for a suffix and a pattern that ends with a non-space |
| Text.BlankHasNoPattern | internal/parser/parser.go:98-99 | white-space bytes contain no such pattern |
| Text.ContainsIgnoresBlankEnds | internal/parser/parser.go:98-99 | `pre + m + suf` contains the pattern iff `m` does |
| Text.ContainsIgnoresTrim | internal/parser/parser.go:98-99 | trimming does not change whether such a pattern occurs |
| Text.AsciiBlankTrimsToEmpty | internal/parser/parser.go:93 | ASCII white space trims to nothing |
| Text.BlankTrimsToEmpty | internal/parser/parser.go:93 | bytes made only of white-space runes trim to nothing |
| Text.AsciiBlankIsBlank | internal/parser/parser.go:93 | ASCII white space is made only of white-space runes |
| Text.TrimKeepsNonBlankStart | internal/parser/parser.go:93 | a prefix of non-space ASCII bytes survives trimming |
| Text.Join | internal/storage/storage.go:140 | one element joins to itself, none to the empty string |
| Text.JoinSnoc | internal/storage/storage.go:138-141 | joining one more element after at least one appends the separator and then the element |
| Text.JoinContains | internal/storage/storage.go:138-141 | every element occurs in the joined text |
| Parser.ValidateReport | internal/parser/parser.go:102-124 | no error iff the report is valid; each error iff its field is the first one missing, in the order report ID, organisation, domain, date range |
| Parser.ValidationError.Message | internal/parser/parser.go:105-120 | no contract of its own: the four texts of `validateReport` |
| Parser.HasXmlHeader | internal/parser/parser.go:91-94 | no contract of its own: the trimmed bytes start with `<?xml`; `DeclarationAtStartIsHeader` and `BlankIsNotXml` state what it accepts and refuses |
| Parser.HasRootElement | internal/parser/parser.go:96-100 | no contract of its own: the trimmed bytes contain `<feedback` or `<report`; `HasRootElementMeaning` shows that trimming makes no difference |
| Parser.HasRootElementMeaning | internal/parser/parser.go:96-100 | `hasRootElement` holds iff the untrimmed bytes contain `<feedback` or `<report` |
| Parser.ReportMetadataPassesRootCheck | internal/parser/parser.go:96-100 | `<report_metadata` alone passes the root check |
| Parser.DeclarationAtStartIsHeader | internal/parser/parser.go:91-94 | bytes starting with `<?xml` have the header |
| Parser.BlankIsNotXml | internal/parser/parser.go:91-100 | bytes made only of white-space runes, ASCII white space among them, pass neither check |
| Parser.Parse | internal/parser/parser.go:28-89 | every error names the path; a success is a valid report; a present empty file is `file is empty` |
| Parser.ParseContent | internal/parser/parser.go:52-58 | bytes that fail both checks are `does not appear to be valid XML` and are never decoded |
| Parser.Decode | internal/parser/parser.go:72-77 | an `invalid XML` cause from the decoder iff the decoder failed; a success is the decoded report with only its date range set, and a decoded `date_range` then has both endpoints set |
| Parser.WithDateRange | internal/model/dmarc.go:104-111 | no contract of its own: the report with the decoded range stored; `Decode` and `DecodeAndValidateSuccess` state what is stored |
| Parser.DecodeCause.Message | internal/parser/parser.go:73-76 | no contract of its own: the decoder's own text, or that of the timestamp error |
| Parser.ParseError.Message | internal/parser/parser.go:36-85 | no contract of its own: the text of each error of `ParseDMARCReport`, naming the path, with the wrapped cause after `: ` |
| Parser.DecodeAndValidate | internal/parser/parser.go:72-88 | a decoder error is `invalid XML`; a validation error only follows a successful decode; a success is valid |
| Parser.ParseDMARCReport | internal/parser/parser.go:28-89 | the early returns in source order; equals `Parse` |
| Parser.ParseReadFile | internal/parser/parser.go:41-52 | a non-empty file that was read goes on to the content checks |
| Parser.BlankFileIsNotXml | internal/parser/parser.go:52-58 | a non-empty file made only of white-space runes is rejected as not XML, whatever the decoder says |
| Parser.ParseSuccess | internal/parser/parser.go:28-89 | a success means the file exists, is non-empty, was read, passed a plausibility check and decoded and validated after trimming |
| Parser.DecodeAndValidateSuccess | internal/parser/parser.go:72-88 | a success means a `date_range` of two int64 decimals, whose values are the report's range; all else is as decoded |
| Parser.MissingDateRangeIsInvalid | internal/parser/parser.go:116-121 | a document without `date_range` decodes to an invalid report |
| Parser.TimestampErrorIsInvalidXml | internal/parser/parser.go:72-77 | a bad `begin` is an `invalid XML` error carrying that text, never a validation error |
| Aggregate.Column | internal/model/aggregate.go:75-78 | one entry per record, in order: entry `i` is the field of record `i` |
| Aggregate.TallySnoc | internal/model/aggregate.go:70 | counting one more value is `m[k]++` |
| Aggregate.Bump | internal/model/aggregate.go:70-78 | no contract of its own: `m[k]++`, a missing key counting from zero; `TallySnoc`, `SumValuesBump` and `TallyCounts` state its properties |
| Aggregate.TallyCounts | internal/model/aggregate.go:70-78 | a key is in the tally iff it occurs, and its value is its number of occurrences |
| Aggregate.SumValuesRemove | internal/model/aggregate.go:70-78 | the sum of a map's values is one value plus the sum of the remaining ones |
| Aggregate.SumValuesBump | internal/model/aggregate.go:70-78 | `m[k]++` adds one to the sum of values |
| Aggregate.TallySum | internal/model/aggregate.go:70-78 | a tally's values sum to the number of values counted |
| Aggregate.Earliest | internal/model/aggregate.go:62-64 | one of the begins, and none is earlier |
| Aggregate.Latest | internal/model/aggregate.go:65-67 | one of the ends, and none is later |
| Aggregate.RangeSoFarStep | internal/model/aggregate.go:55-67 | starting from the first report's range, each loop step widens the range to the covering range of one more report |
| Aggregate.InitialRange | internal/model/aggregate.go:55-58 | no contract of its own: the first report's own range, where the pass starts; `RangeSoFarStep` starts from it |
| Aggregate.WidenRange | internal/model/aggregate.go:61-67 | no contract of its own: the earlier `Begin` and the later `End`; `RangeSoFarStep` shows each step widens to the covering range |
| Aggregate.IsFailure | internal/model/aggregate.go:81-82 | no contract of its own: DKIM or SPF is not `pass`; `FailureReasonEmpty` and `FailedRecordsOfOne` state what follows from it |
| Aggregate.FailureReason | internal/model/aggregate.go:83-95 | no contract of its own: the reason built with `+=`, then trimmed; `FailureReasonCases` and `FailureReasonEmpty` state what it is |
| Aggregate.ReasonText | internal/model/aggregate.go:83-89 | no contract of its own: the untrimmed reason built with `+=`; `FailureReasonCases` states the trimmed text in all four cases |
| Aggregate.FailureReasonEmpty | internal/model/aggregate.go:83-95 | the reason is empty iff both checks passed |
| Aggregate.ToFailedRecord | internal/model/aggregate.go:89-94 | the row carries the record's source, header-from domain and count, and a non-empty reason exactly when the record fails |
| Aggregate.FailedRecords | internal/model/aggregate.go:81-96 | no contract of its own: the rows of the failing records, in record order; `FailedRecordsAppend`, `FailedRecordsOfOne` and `FailedRecordsBound` state its properties |
| Aggregate.FailureReasonCases | internal/model/aggregate.go:81-96 | the reason is `DKIM:x SPF:y`, `DKIM:x` or `SPF:y` for the failing checks, with only trailing white space of the last result dropped |
| Aggregate.FailedRecordsAppend | internal/model/aggregate.go:73-97 | the failure rows of concatenated records are concatenated, in order |
| Aggregate.FailedRecordsOfOne | internal/model/aggregate.go:81-96 | one record gives a row iff it fails, with its source, header-from domain and count |
| Aggregate.FailedRecordsBound | internal/model/aggregate.go:81-97 | no more rows than records, and none when every record passes |
| Aggregate.AllRecordsCount | internal/model/aggregate.go:73-74 | the record total is the sum of the reports' record numbers |
| Aggregate.CountRecordsColumn | internal/model/aggregate.go:75-78 | counting record by record tallies each column |
| Aggregate.CountRecordsFailed | internal/model/aggregate.go:74-97 | counting record by record counts every record and collects the failure rows |
| Aggregate.CountRecordsMeaning | internal/model/aggregate.go:73-98 | the record count, the four field tallies and the failure rows of any record sequence |
| Aggregate.AddRecord | internal/model/aggregate.go:74-97 | no contract of its own: the inner loop body for one record; `CountRecordsMeaning` states what folding it over the records gives |
| Aggregate.FailureRow | internal/model/aggregate.go:83-96 | the reason built with `+=` and trimmed gives `ToFailedRecord` |
| Aggregate.CountReportRecords | internal/model/aggregate.go:73-98 | the inner loop extends the counts of the records before by those of this report's records |
| Aggregate.AggregateReports | internal/model/aggregate.go:43-102 | report and record totals, the covering date range, the domain tally, each field tally and the failure rows of all records |
| Aggregate.AggregateMeaning | internal/model/aggregate.go:43-102 | the maps sum to the totals; each key's value is its number of occurrences, and a missing key occurs nowhere; the range begins no later and ends no earlier than any report |
| Aggregate.AggregateOfNothing | internal/model/aggregate.go:44-58 | no reports: zero totals, empty maps, no rows and the zero range |
| Storage.SuspiciousNames | internal/storage/storage.go:101-116 | traversal, `..` inside a name, `/` and `\` are refused whatever `Clean` is |
| Storage.IsSuspiciousMeaning | internal/storage/storage.go:101-106 | a name passes iff `Clean` keeps it, it is not absolute, and it has no `..`, no `/` and no `\` |
| Storage.IsSuspicious | internal/storage/storage.go:101-106 | a name that holds `..`, `/` or `\`, or is absolute, is refused whatever `Clean` does |
| Storage.JoinPath | internal/storage/storage.go:118-119 | no contract of its own: `filepath.Join` as the non-empty parts joined by `/` and cleaned, with `Clean` a parameter |
| Storage.FileFailure.Message | internal/storage/storage.go:107-125 | no contract of its own: `Security warning: skipping suspicious filename: <name>` or `Error parsing <name>: ` and the parser's text |
| Storage.Messages | internal/storage/storage.go:107-125 | one line per failure, in order |
| Storage.Examine | internal/storage/storage.go:93-131 | a directory iff skipped; a suspicious name is refused without being opened; a parsed report is valid and its name passed the check |
| Storage.OpenAndParse | internal/storage/storage.go:118-131 | a `ParseDMARCReport` error is refused under the file's name; otherwise the report is kept and valid |
| Storage.Take | internal/storage/storage.go:93-131 | no contract of its own: one outcome appended to the reports or to the failures, or nothing for a directory |
| Storage.Collect | internal/storage/storage.go:93-132 | no contract of its own: the outcomes taken in order; `CollectAccounts` and `CollectAppend` state its properties |
| Storage.Gather | internal/storage/storage.go:93-132 | no contract of its own: what the loop gathers over a listing; `GatherSnoc`, `GatherAccounts` and `GatherAppend` state its properties, and `ScanEntries` is proved equal to it |
| Storage.Outcomes | internal/storage/storage.go:93-132 | one outcome per entry |
| Storage.GatherSnoc | internal/storage/storage.go:93-132 | one more entry adds its own outcome |
| Storage.CollectAccounts | internal/storage/storage.go:93-132 | every decided outcome adds one report or one failure |
| Storage.OutcomesDecided | internal/storage/storage.go:94-96 | exactly the directories are skipped |
| Storage.GatherAccounts | internal/storage/storage.go:93-132 | reports plus failures equal the number of non-directory entries |
| Storage.CollectAppend | internal/storage/storage.go:93-132 | the reports and failures of concatenated outcomes are concatenated |
| Storage.OutcomesAppend | internal/storage/storage.go:93-132 | the outcomes of concatenated listings are concatenated |
| Storage.GatherAppend | internal/storage/storage.go:93-132 | entries are taken in listing order: both lists of a split listing are those of the parts, in order |
| Storage.GatheredAreValid | internal/storage/storage.go:118-131 | every gathered report passed validation |
| Storage.SuspiciousNeverOpened | internal/storage/storage.go:94-116 | the outcome of a directory or suspicious name does not depend on the files |
| Storage.TakeEntry | internal/storage/storage.go:94-131 | one loop body with its `continue`s: the gathered lists grow by the entry's outcome; the counters stay equal to the list lengths |
| Storage.ScanEntries | internal/storage/storage.go:86-132 | the loop gathers the outcomes of all entries; the counters are the list lengths and sum to the files |
| Storage.LoadReports | internal/storage/storage.go:71-159 | the early returns in source order; equals `Load` |
| Storage.Load | internal/storage/storage.go:71-144 | a success needs a listing and holds at least one report; an all-failed error holds at least one failure |
| Storage.LoadPolicy | internal/storage/storage.go:82-144 | empty directory is `ErrNoReports` with the directory; only directories is `ErrNoReports`; no report is an `ErrNoReports` or a failure of every file; a success returns exactly the gathered reports, all valid and no more than the files |
| Storage.LoadError.IsNoReports | internal/storage/storage.go:35 | no contract of its own: `errors.Is(err, ErrNoReports)`, true of the empty-directory and no-report errors; `LoadPolicy` states which results satisfy it |
| Storage.LoadError.Message | internal/storage/storage.go:73-141 | no contract of its own: the texts of the four errors of `LoadReports`; `AllFailedNamesEach` states what the all-failed text holds |
| Storage.AllFailedNamesEach | internal/storage/storage.go:134-141 | the all-failed text begins `failed to parse any reports: ` and contains the message of every failure |
| Storage.WarningsMeaning | internal/storage/storage.go:146-156 | warnings exist iff some file failed, and then they are the summary line followed by every failure message |
| Storage.Warnings | internal/storage/storage.go:146-156 | no lines iff no file failed; otherwise one summary line and one line per failure |
| Storage.Swapped | internal/storage/storage.go:162-169 | the two elements exchanged, all others unchanged |
| Storage.NewestFrom | internal/storage/storage.go:162-169 | the first position of a latest `Begin` in the rest of the array |
| Storage.BeginKey | internal/storage/storage.go:163-166 | no contract of its own: the year-1 seconds of a report's `Begin`, what the comparator compares; `NewestFrom` is stated in it |
| Storage.NewestFirst | internal/storage/storage.go:163-166 | no contract of its own: no report begins `After` one placed before it; `SortReportsByDate` establishes it |
| Storage.PlaceNext | internal/storage/storage.go:162-169 | swapping a newest remaining report into place keeps the reports and extends the sorted prefix |
| Storage.PlacedAll | internal/storage/storage.go:162-169 | a fully placed sequence is newest first |
| Storage.PlaceNewest | internal/storage/storage.go:162-169 | one selection step on the array: same reports, one more place sorted |
| Storage.SortReportsByDate | internal/storage/storage.go:161-169 | the array is a permutation of its old contents in which no report begins `After` one before it |
| Formatter.TruncateString | internal/formatter/report.go:120-126 | unchanged when it fits; otherwise exactly `maxLen` bytes, the first `maxLen-3` kept, then `...` |
| Formatter.TruncateIdempotent | internal/formatter/report.go:120-126 | truncating twice to one width is truncating once |
| Formatter.TruncateKeepsPrefix | internal/formatter/report.go:120-126 | what survives is a prefix of the input, and only the ellipsis is added |
| Formatter.Max | internal/formatter/report.go:128-134 | at least both arguments, and equal to one of them |
| Formatter.Min | internal/formatter/report.go:136-142 | at most both arguments, and equal to one of them |
| Formatter.MaxMinPair | internal/formatter/report.go:128-142 | `Max + Min` is the sum of the arguments, `Min <= Max`, and they are equal iff the arguments are |

## Left out

- I/O is not modelled. The directory listing, `os.Stat`, `os.ReadFile`,
  `filepath.Clean` and `filepath.IsAbs` are inputs.
- `NewReportLoader` is not modelled. It finds the home directory and
  creates `~/.godmarc`, which is I/O only.
- The XML decoder is an input function. Its entity and strict settings
  are not part of this model.
- The decoder's own errors and the `date_range` timestamp error come out
  in an order that depends on where in the document each occurs. The model
  reports the decoder's error first.
- A repeated `date_range` element is not modelled. The decoded document
  carries at most one.
- Dmarc.UnmarshalDateRange: modelled on values (the range in, the new
  range out) rather than through a pointer receiver.
- Parser.ParseDMARCReport: on an error Go also returns the partly decoded
  report. No caller uses it, so the model returns only the error.
- Storage.LoadReports: the warning lines that Go prints are returned as
  `Loaded.warnings` instead of being written to standard output.
- Storage.TakeEntry: the loop collects each failure as a `FileFailure`,
  not as the formatted text. `FileFailure.Message` gives the exact line,
  and the error and the warnings format it.
- Storage.TakeEntry, Storage.ScanEntries, Aggregate.CountReportRecords and
  Aggregate.FailureRow carry the loop body and the loops as separate
  methods. The statements are the source's, in its order.
- Storage.SortReportsByDate: `sort.Slice` (pattern-defeating quicksort)
  is replaced by a selection sort. The contract is what `sort.Slice`
  promises: a permutation that is sorted for the comparator. The order of
  reports with the same `Begin` is left open, since `sort.Slice` is not
  stable.
- Decimal.ParseInt: `NumError.Message` quotes the input plainly. Go's
  `strconv.Quote` also escapes special characters.
- Counters (`TotalRecords`, map values, `successCount`) are unbounded.
  Go's `int` would wrap only after 2^63 increments.
- Formatter.TruncateString: it slices bytes, as Go does, so it may cut a
  multi-byte UTF-8 character. A width below 3 for a string that does not
  fit panics in Go and is excluded by the precondition.
- The `ParseResult` type of storage.go is declared but never used, so it
  is not modelled.
- The terminal UI, the report formatter's layout and the command-line
  program are outside this model.
