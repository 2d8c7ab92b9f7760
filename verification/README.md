# Life OS core in Dafny

This project models the core of Life OS. Life OS is a task-management application: it turns
planning transcripts into to-do records and commits them exactly once per idempotency key. The
model covers four pieces.

- **Transcript draft parser** (`TranscriptParser`, `ParserProperties`). `parseDraft` works in three steps.
  - It splits a draft into the seven sections `SUMMARY`, `TIMELINE`, `TODOS`, `DECISIONS`, `MONEY`, `IDEAS` and `QUESTIONS`, on `[NAME]` header lines.
  - It decodes every non-blank TODOS line as nine `|`-separated fields.
  - It reports `UNKNOWN_SECTION`, `MISSING_REQUIRED_SECTION` and `TODO_FIELD_COUNT` issues, and scores them.

  Each pass is a function folded over the lines. `ParseDraft` runs the passes as loops and is proved to return `Parse(input)`. The properties are then proved about `Parse`.
- **Idempotent commit protocol** (`LocalDatabase`, `LocalRepository`). The store has four collections: transcripts, todos, audit events, and a key→result map.
  - `Commit` specifies `commitTodosAndAudit` on the store's content.
  - `Consistent` is the invariant every reachable store keeps. Each registered key has exactly one matching audit event, and the number of todo records is the sum of the `committedTodos` counts of the audit events. Which record came from which commit is not tracked.
  - `LocalDb` is the store as an object whose collections the methods update in place. The repository class acts on the same `LocalDb` object.
- **Derived-commit service** (`DerivedCommitService`). It uses the caller's idempotency key, or a digest of the payload when none is given, and then commits.
- **Weekly-plan route** (`WeeklyPlanRoute`, `CivilCalendar`). This covers:
  - the query schema;
  - `toIsoDateUtc`, `mondayOfWeekUtc` and `parseWeekStartUtc`;
  - the `[start, start + 7 days)` window and the due-date filter;
  - the whole `GET` handler.

  Times are integers of milliseconds since 1970-01-01T00:00:00Z, and days are integers from that day. `CivilCalendar` holds the proleptic Gregorian calendar. It also holds a `Date` class with the UTC accessors and `setUTCDate` that the route uses, and `Date.UTC`, which reads a year 0..99 as 1900 + year.

  `toIsoDateUtc` keeps the first ten characters of `toISOString()`. In years 0..9999 that is `YYYY-MM-DD`. In other years it is a sign, six year digits and the month (`+010000-05`). JavaScript reads that string back as the first of the month. So the default week start of such a year is checked as the first of its month, and the model follows this.

Foreign inputs become parameters:
- `crypto.randomUUID()` is `uuid: nat -> string`, the i-th id drawn in the call.
- `new Date().toISOString()` is `createdAt`.
- The clock is `nowTime`.
- The SHA-256 digest of `workspaceId:transcriptId:JSON(todos)` is `digest`.
- `Number(...)` coercion of `limit` is `number`.
- `new Date(dueDate).getTime()`, when finite, is `dueTime`.
- `repository.listTodos` is `listTodos`.

The two copies of the commit protocol, in `local-db.ts` and `local-repository.ts`, are the same code, so they share one specification, `LocalDatabase.Commit`.

The code and the design description disagree on one point. The design says that an existing idempotency entry is returned unchanged. The code tests the *truthiness* of a property read on a plain object, and inherited `Object.prototype` names also pass that test. The model follows the code (`CommitAsWritten`) and records the difference under "Findings". The rest of the model uses the evidently intended own-entry test (`Commit`). `getIdempotencyResult` makes the same property read (`idempotency[key] ?? null`), and it is modelled as written: an inherited name such as `toString` gives that inherited member, not null.

## Model

| member | source | states |
|---|---|---|
| TranscriptParser.RequiredSection | life-os/src/lib/transcripts/parser.ts:1-9 | a key names a section exactly when it is one of the seven `REQUIRED_SECTIONS` names |
| TranscriptParser.AllSectionsRequired | life-os/src/lib/transcripts/parser.ts:1-9 | `REQUIRED_SECTIONS` lists every section name |
| TranscriptParser.NormalizeEnum | life-os/src/lib/transcripts/parser.ts:49-52 | the result is the fallback when the trimmed value is empty; otherwise it is the trimmed value lower-cased |
| TranscriptParser.EmptySections | life-os/src/lib/transcripts/parser.ts:56-64 | the initial record holds all seven keys, each with an empty body |
| TranscriptParser.TrimmedParts | life-os/src/lib/transcripts/parser.ts:109 | splitting on the pipe character gives one more part than the line has pipes |
| TranscriptParser.CriticalCount | life-os/src/lib/transcripts/parser.ts:138 | the count is at most the number of issues, and it is 0 exactly when no issue is critical |
| TranscriptParser.Confidence | life-os/src/lib/transcripts/parser.ts:138-149 | the score lies in 0..100, and `globalCritical` holds exactly when some issue is critical |
| TranscriptParser.SplitPass | life-os/src/lib/transcripts/parser.ts:66-90 | the header loop, with invariants, ends with the bodies and issues of `SplitSections` |
| TranscriptParser.MissingPass | life-os/src/lib/transcripts/parser.ts:92-103 | the missing-section loop pushes exactly `MissingIssues`, in `REQUIRED_SECTIONS` order |
| TranscriptParser.TodoPass | life-os/src/lib/transcripts/parser.ts:105-136 | the TODOS loop yields exactly the todos and field-count issues of `DecodeTodos` |
| TranscriptParser.SplitSections | life-os/src/lib/transcripts/parser.ts:66-90 | the split keeps all seven keys present; `BodiesHoldNoHeaderLines`, `BodyFollowsSection` and `DraftSplits` state what goes into each body |
| TranscriptParser.MissingIssues | life-os/src/lib/transcripts/parser.ts:92-103 | at most one issue per listed name; `MissingIssuesExact` states which names get one |
| TranscriptParser.DecodeTodos | life-os/src/lib/transcripts/parser.ts:105-136 | each line gives at most one todo or one issue; `TodoLinesAccounted` states which |
| TranscriptParser.Parse | life-os/src/lib/transcripts/parser.ts:54-151 | the score lies in 0..100, and a score of 100 means no issue at all; `WellFormedDraftParses` and `NoHeaderDraft` state whole results |
| TranscriptParser.ParseDraft | life-os/src/lib/transcripts/parser.ts:54-151 | `parseDraft` returns exactly `Parse(input)`: the sections, then the three passes' issues in push order, then the score |
| ParserProperties.HeaderNameExact | life-os/src/lib/transcripts/parser.ts:70-71 | a line is a header named `name` exactly when its trimmed text is `[name]` and `name` is a non-empty upper-case word |
| ParserProperties.RunAppend | life-os/src/lib/transcripts/parser.ts:69-90 | running the loop over `a + b` is running it over `a`, then over `b` with line numbers shifted by the length of `a` |
| ParserProperties.RunIgnoresIssues | life-os/src/lib/transcripts/parser.ts:69-90 | the bodies and the current section never depend on the issues so far or on the line numbering |
| ParserProperties.RunKeepsBodiesHeaderFree | life-os/src/lib/transcripts/parser.ts:72-89 | no `[NAME]` line is ever added to a body |
| ParserProperties.BodiesHoldNoHeaderLines | life-os/src/lib/transcripts/parser.ts:56-90 | for every input, all seven keys are present and no body holds a `[NAME]` line |
| ParserProperties.NoSectionNoBody | life-os/src/lib/transcripts/parser.ts:67-89 | before a recognized header, no line reaches any body and no section is current |
| ParserProperties.BodyFollowsSection | life-os/src/lib/transcripts/parser.ts:72-89 | after a header, the lines go verbatim and in order to that section's body, except `[NAME]` lines; no other body changes; the section stays current; no issue is added unless an unknown header occurs |
| ParserProperties.LinesBeforeFirstHeaderDropped | life-os/src/lib/transcripts/parser.ts:67-89 | prepending lines without a section header changes neither the sections nor the todos |
| ParserProperties.UnknownSectionIssues | life-os/src/lib/transcripts/parser.ts:71-84 | one `UNKNOWN_SECTION` issue per unknown header line: in `GLOBAL`, not critical, at its 1-based line, naming the header |
| ParserProperties.SplitStepIssues | life-os/src/lib/transcripts/parser.ts:72-84 | one line adds an issue exactly when it is an unknown header, and adds no other issue |
| ParserProperties.JoinBlank | life-os/src/lib/transcripts/parser.ts:93 | the body joined with newlines is blank exactly when every line is |
| ParserProperties.MissingExactlyWhenBlank | life-os/src/lib/transcripts/parser.ts:93 | a section is missing exactly when each line of its body is blank, or it has none |
| ParserProperties.MissingIssuesExact | life-os/src/lib/transcripts/parser.ts:92-103 | every missing-section issue has line 0, is critical and names a missing section; every missing listed section gets its issue |
| ParserProperties.MissingIssuesAllBlank | life-os/src/lib/transcripts/parser.ts:92-103 | when every section is missing, there is one issue per listed name |
| ParserProperties.MissingIssuesNoneBlank | life-os/src/lib/transcripts/parser.ts:92-103 | when no section is missing, the loop reports nothing |
| ParserProperties.NormalizeEnumNormal | life-os/src/lib/transcripts/parser.ts:49-52 | with a normal fallback (as `later`, `low`, `online`, `none` are), the result is non-empty, has no upper-case letter and is not padded; normalizing is unaffected by a prior trim, and applying it twice gives the same result as once |
| ParserProperties.TodoStepCases | life-os/src/lib/transcripts/parser.ts:106-135 | a blank line yields nothing; a line with exactly eight pipes yields one decoded todo (raw line, trimmed parts 0 and 5-8, enum parts normalized with their defaults); any other line yields one `TODO_FIELD_COUNT` issue |
| ParserProperties.TodoLinesAccounted | life-os/src/lib/transcripts/parser.ts:105-136 | todos plus field-count issues equal the non-blank TODOS lines; each issue is non-critical, in `TODOS`, at its line's index plus one, for a line without eight pipes; each todo decodes one of the lines |
| ParserProperties.TodoCountsAccounted | life-os/src/lib/transcripts/parser.ts:105-136 | todos plus field-count issues equal the number of non-blank TODOS lines |
| ParserProperties.TodoIssuesAccounted | life-os/src/lib/transcripts/parser.ts:107-119 | each field-count issue is non-critical, in `TODOS`, at the index plus one of a non-blank line that does not hold eight pipes |
| ParserProperties.TodoRecordsDecoded | life-os/src/lib/transcripts/parser.ts:122-134 | each todo's `raw` is one of the TODOS lines, and its fields decode that line |
| ParserProperties.TodoLinesAllValid | life-os/src/lib/transcripts/parser.ts:105-136 | TODOS lines that are all blank or hold eight pipes give no issue, and one todo per non-blank line |
| ParserProperties.CriticalCountAppend | life-os/src/lib/transcripts/parser.ts:138 | the critical count of concatenated issue lists is the sum of their counts |
| ParserProperties.CriticalCountAll | life-os/src/lib/transcripts/parser.ts:138 | a list of critical issues counts all of them |
| ParserProperties.MissingSectionListed | life-os/src/lib/transcripts/parser.ts:92-103 | a missing section has its critical issue among the missing-section issues |
| ParserProperties.CriticalIssueCaps | life-os/src/lib/transcripts/parser.ts:138-149 | one critical issue anywhere sets `globalCritical` and caps the score at 75 |
| ParserProperties.MissingSectionBlocksCommit | life-os/src/lib/transcripts/parser.ts:92-149 | a draft missing any required section is blocking and scores at most 75 |
| ParserProperties.SevenCriticalScoreZero | life-os/src/lib/transcripts/parser.ts:138-149 | seven critical issues bring the score to 0, whatever else is reported |
| ParserProperties.NoHeaderDraft | life-os/src/lib/transcripts/parser.ts:54-151 | a draft with no section header has seven empty sections, no todo, score 0, and is blocking |
| ParserProperties.EmptyDraft | life-os/src/lib/transcripts/parser.ts:54-151 | the empty draft scores 0 and is blocking |
| ParserProperties.HeaderLineOpensSection | life-os/src/lib/transcripts/parser.ts:71-75 | the line `[NAME]` is read as the header of section NAME |
| ParserProperties.NonHeaderLinesAll | life-os/src/lib/transcripts/parser.ts:87-89 | a body without `[NAME]` lines is kept whole |
| ParserProperties.HeaderThenBody | life-os/src/lib/transcripts/parser.ts:69-90 | a header followed by header-free lines appends those lines to that section, makes it current and adds no issue |
| ParserProperties.AppendSection | life-os/src/lib/transcripts/parser.ts:69-90 | appending a section's header and body to a draft appends the body to that section of the draft's split |
| ParserProperties.DraftStep | life-os/src/lib/transcripts/parser.ts:69-90 | the draft of one more section splits as the shorter draft's split, extended by that section's body |
| ParserProperties.ExtendSplit | life-os/src/lib/transcripts/parser.ts:69-90 | extending the split of the other names by the last name's body gives back all the listed bodies |
| ParserProperties.DraftSplits | life-os/src/lib/transcripts/parser.ts:69-90 | a draft of distinct sections, each header followed by its body, splits back into exactly those bodies, with no issue |
| ParserProperties.DraftOfAllSections | life-os/src/lib/transcripts/parser.ts:56-90 | the draft of all seven sections splits back into exactly the given bodies |
| ParserProperties.WellFormedDraftParses | life-os/src/lib/transcripts/parser.ts:54-151 | a well-formed seven-section draft gives back its bodies, no issue, score 100, not blocking, and one todo per non-blank TODOS line |
| Text.Trim | life-os/src/lib/transcripts/parser.ts:50 | `s.trim()`; specified by `TrimMargins`, `TrimEmptyIffBlank` and `TrimIdempotent` |
| Text.TrimStartRemovesBlankPrefix | life-os/src/lib/transcripts/parser.ts:50 | left trimming removes exactly the longest blank prefix |
| Text.TrimEndRemovesBlankSuffix | life-os/src/lib/transcripts/parser.ts:50 | right trimming removes exactly the longest blank suffix |
| Text.TrimMargins | life-os/src/lib/transcripts/parser.ts:50 | `trim` removes a blank prefix and a blank suffix; it is empty exactly for blank strings, and otherwise starts and ends with a non-space |
| Text.TrimEmptyIffBlank | life-os/src/lib/transcripts/parser.ts:107 | `!line.trim()` holds exactly for blank lines |
| Text.TrimOfFramed | life-os/src/lib/transcripts/parser.ts:50 | a string that neither starts nor ends with whitespace is its own trim |
| Text.TrimIdempotent | life-os/src/lib/transcripts/parser.ts:50 | trimming twice gives the same result as trimming once |
| Text.LowerChar | life-os/src/lib/transcripts/parser.ts:50 | an upper-case letter moves to its lower-case letter; other characters are unchanged |
| Text.Lower | life-os/src/lib/transcripts/parser.ts:50 | lower-casing keeps the length and lower-cases each character |
| Text.Split | life-os/src/lib/transcripts/parser.ts:109 | one more part than separators, and no part holds the separator |
| Text.JoinSplit | life-os/src/lib/transcripts/parser.ts:109 | joining the parts of a split with the separator gives back the line |
| Text.SplitLines | life-os/src/lib/transcripts/parser.ts:55 | one line more than there are LFs, and no line holds an LF |
| Text.NatToString | life-os/src/lib/transcripts/parser.ts:115 | the rendering is a non-empty digit string, with no leading zero for numbers of two or more digits; `NatToStringRoundTrip` reads it back |
| Text.NatToStringRoundTrip | life-os/src/lib/transcripts/parser.ts:115 | the decimal rendering of a count reads back as that count |
| Text.PadDigitsRoundTrip | life-os/src/app/api/weekly-plan/route.ts:15-17 | a number below 10^width reads back from its zero-padded rendering |
| Text.DigitsPadRoundTrip | life-os/src/app/api/weekly-plan/route.ts:10 | a digit string is the zero-padded rendering of the number it denotes |
| Text.TwoDigitsValue | life-os/src/app/api/weekly-plan/route.ts:10 | two digits denote ten times the first plus the second |
| Text.FourDigitsValue | life-os/src/app/api/weekly-plan/route.ts:10 | four digits denote their positional decimal value |
| Text.DigitsValueOfZeros | life-os/src/app/api/weekly-plan/route.ts:28 | a run of zeros is a digit string denoting 0 |
| LocalDatabase.TodoRecords | life-os/src/server/local-db.ts:110-124 | one record per candidate, in order; the i-th record has the i-th fresh id and copies the ids, the nine fields and the time |
| LocalDatabase.Commit | life-os/src/server/local-db.ts:98-153 | a registered key returns its stored result and changes nothing; an unseen key leaves transcripts alone, appends one record per candidate after the old ones and one matching audit event, and registers and returns `{key, n, 0, auditId}` |
| LocalDatabase.EmptyDbConsistent | life-os/src/server/local-db.ts:48-53 | the empty store is consistent |
| LocalDatabase.RegisterPreservesConsistency | life-os/src/server/local-db.ts:126-150 | registering an unseen key with its records and a matching audit event keeps the store consistent |
| LocalDatabase.CommitPreservesConsistency | life-os/src/server/local-db.ts:98-153 | every commit keeps a consistent store consistent |
| LocalDatabase.ExactlyOnce | life-os/src/server/local-db.ts:106-150 | in a consistent store, a registered key is recorded by exactly one audit event, and an unseen key by none |
| LocalDatabase.CountKeyDistinct | life-os/src/server/local-db.ts:141 | with distinct keys on the audit trail, each key is counted once or not at all |
| LocalDatabase.ReplaysChangeNothing | life-os/src/server/local-db.ts:106-107 | after a key is registered, any number of further calls with it, whatever their payloads, ids and times, leave the store unchanged and each return the stored result |
| LocalDatabase.CommitIsIdempotent | life-os/src/server/local-db.ts:106-150 | a retry with the same key, even with another payload, returns the first result and leaves exactly the first commit's writes |
| LocalDatabase.LookupAsWritten | life-os/src/server/local-db.ts:93-107 | the property read finds own entries first; off those, it finds a value exactly for the inherited `Object.prototype` names |
| LocalDatabase.CommitAsWritten | life-os/src/server/local-db.ts:106-107 | the truthiness test behaves exactly as `Commit` off the inherited names |
| LocalDatabase.InheritedKeySwallowsCommit | life-os/src/server/local-db.ts:106-107 | a first commit under an inherited name writes nothing and returns a non-result, while `Commit` writes every candidate |
| LocalDatabase.LocalDb.constructor | life-os/src/server/local-db.ts:62-72 | a new store holds `EMPTY_DB` and is consistent |
| LocalDatabase.LocalDb.ResetForTests | life-os/src/server/local-db.ts:155-157 | the reset store holds `EMPTY_DB` and is consistent |
| LocalDatabase.LocalDb.CreateTranscript | life-os/src/server/local-db.ts:80-91 | appends one record with the given workspace and text; todos, audit trail and keys are unchanged; consistency is kept |
| LocalDatabase.LocalDb.GetIdempotencyResult | life-os/src/server/local-db.ts:93-96 | the property read as written, with no state change: the stored result for a registered key; for an unregistered key, the inherited member when the name is an `Object.prototype` name, otherwise null |
| LocalDatabase.LocalDb.CommitTodosAndAudit | life-os/src/server/local-db.ts:98-153 | the new collections and the result are exactly those of `Commit` on the old ones; consistency is kept |
| LocalRepository.LocalPersistenceRepository.constructor | life-os/src/server/repositories/local-repository.ts:53 | the repository acts on the given store object |
| LocalRepository.LocalPersistenceRepository.CreateTranscript | life-os/src/server/repositories/local-repository.ts:54-65 | appends one transcript record; nothing else changes; consistency is kept |
| LocalRepository.LocalPersistenceRepository.GetIdempotencyResult | life-os/src/server/repositories/local-repository.ts:67-70 | the same property read on the repository's store: the stored result for a registered key; for an unregistered key, the inherited member of an `Object.prototype` name, otherwise null |
| LocalRepository.LocalPersistenceRepository.CommitTodosAndAudit | life-os/src/server/repositories/local-repository.ts:72-122 | follows `Commit` exactly and keeps the store consistent |
| LocalRepository.ResetLocalDbForTests | life-os/src/server/repositories/local-repository.ts:125-127 | the store holds `EMPTY_DB` again |
| DerivedCommitService.IdempotencyKeyFor | life-os/src/server/derived-commit-service.ts:23-28 | the caller's key when one is given, even an empty one; otherwise the digest of the payload |
| DerivedCommitService.ParamsFor | life-os/src/server/derived-commit-service.ts:30-35 | the workspace, transcript and candidates are forwarded unchanged, under the chosen key |
| DerivedCommitService.CommitDerived | life-os/src/server/derived-commit-service.ts:20-36 | under a registered key, the stored result and an unchanged store; under a new key, one todo record per candidate and a result under that key counting every candidate |
| DerivedCommitService.CommitDerivedFromTranscript | life-os/src/server/derived-commit-service.ts:20-36 | the store and the result are those of `Commit` under the chosen key; consistency is kept |
| DerivedCommitService.KeylessRetryIsIdempotent | life-os/tests/commit.test.ts:33-38 | a keyless request sent twice returns the same key (the digest), the same audit event id and the same count, and the second call writes nothing |
| DerivedCommitService.FirstCommitWritesEveryCandidate | life-os/src/server/local-db.ts:110-150 | a first commit writes one record per candidate, reports all committed and none skipped, and leaves the key recorded by exactly one audit event |
| DerivedCommitService.RepeatReportsFirstCount | life-os/tests/commit.test.ts:36-38 | a repeated request writes nothing and returns the first commit's result, which matches the key's one audit event |
| CivilCalendar.DaysInMonth | life-os/src/app/api/weekly-plan/route.ts:28-30 | every month has 28 to 31 days |
| CivilCalendar.DaysBeforeMonthStep | life-os/src/app/api/weekly-plan/route.ts:28-30 | consecutive months are a month's length apart, and the thirteenth month starts the next year |
| CivilCalendar.LeapPeriodic | life-os/src/app/api/weekly-plan/route.ts:28-30 | the leap-year rule repeats every 400 years |
| CivilCalendar.DaysBeforeYearStep | life-os/src/app/api/weekly-plan/route.ts:28-30 | consecutive years are a year's length apart |
| CivilCalendar.DaysBeforeYearMonotone | life-os/src/app/api/weekly-plan/route.ts:28-30 | later years start later |
| CivilCalendar.CivilFromDays | life-os/src/app/api/weekly-plan/route.ts:15-17 | every day number has a calendar date, and that date has the same day number |
| CivilCalendar.DateWithinYear | life-os/src/app/api/weekly-plan/route.ts:28-30 | a calendar date lies within its own year |
| CivilCalendar.EarlierYearEarlierDay | life-os/src/app/api/weekly-plan/route.ts:28-30 | a date of an earlier year comes on an earlier day |
| CivilCalendar.EarlierMonthEarlierDay | life-os/src/app/api/weekly-plan/route.ts:28-30 | within a year, a date of an earlier month comes on an earlier day |
| CivilCalendar.DaysFromCivilInjective | life-os/src/app/api/weekly-plan/route.ts:28-30 | distinct calendar dates have distinct day numbers |
| CivilCalendar.CivilRoundTrip | life-os/src/app/api/weekly-plan/route.ts:28-32 | reading a calendar date's day number back gives the date |
| CivilCalendar.WeekDay | life-os/src/app/api/weekly-plan/route.ts:21-36 | the weekday lies in 0..6 |
| CivilCalendar.DateInAnyYear | life-os/src/app/api/weekly-plan/route.ts:20 | a month and day taken to any year stay within that year (a February 29 in a common year becomes March 1) |
| CivilCalendar.MakeDay | life-os/src/app/api/weekly-plan/route.ts:20 | a day number whose calendar date is the year, month and day given, when those name a real date |
| CivilCalendar.DateUtc | life-os/src/app/api/weekly-plan/route.ts:20 | `Date.UTC` gives a midnight, on the calendar date given with a year 0..99 read as 1900 + year |
| CivilCalendar.DayOfMidnight | life-os/src/app/api/weekly-plan/route.ts:15-17 | a time within day `n` falls on day `n`, at that time of day |
| CivilCalendar.Date.constructor | life-os/src/app/api/weekly-plan/route.ts:20 | a new `Date` holds the time value given |
| CivilCalendar.Date.UtcFullYear | life-os/src/app/api/weekly-plan/route.ts:20 | the year returned is the one whose days hold the `Date`'s day |
| CivilCalendar.Date.UtcMonth | life-os/src/app/api/weekly-plan/route.ts:20 | the month index lies in 0..11 |
| CivilCalendar.Date.UtcDate | life-os/src/app/api/weekly-plan/route.ts:23 | the day of the month lies in 1..31, and together with the year and month it names the `Date`'s own day |
| CivilCalendar.Date.UtcDay | life-os/src/app/api/weekly-plan/route.ts:21 | the weekday lies in 0..6 |
| CivilCalendar.Date.SetUtcDate | life-os/src/app/api/weekly-plan/route.ts:23 | `setUTCDate(d)` moves the day by `d - getUTCDate()`, carrying across month ends, and keeps the time of day |
| WeeklyPlanRoute.ParseLimit | life-os/src/app/api/weekly-plan/route.ts:12 | an absent limit gives 500; a given one is accepted exactly when it coerces to an integer in 1..1000 |
| WeeklyPlanRoute.ParseQuery | life-os/src/app/api/weekly-plan/route.ts:7-50 | the query is valid exactly when `weekStart` is absent or has the `\d{4}-\d{2}-\d{2}` shape and the limit is valid; it keeps `weekStart` and bounds the limit |
| WeeklyPlanRoute.FormatDatePieces | life-os/src/app/api/weekly-plan/route.ts:15-17 | years 0..9999 are written `YYYY-MM-DD` with zero padding and start with a digit; other years start with a sign |
| WeeklyPlanRoute.IsoDate | life-os/src/app/api/weekly-plan/route.ts:15-17 | ten characters, starting with a digit exactly in years 0..9999; `IsoDateNames` states the date they name |
| WeeklyPlanRoute.ToIsoDateUtc | life-os/src/app/api/weekly-plan/route.ts:15-17 | ten characters, starting with a digit exactly when the time falls in years 0..9999 |
| WeeklyPlanRoute.ParseUtcMidnight | life-os/src/app/api/weekly-plan/route.ts:28 | every time read is a midnight; `CalendarDateMidnight` and `ExpandedMonthMidnight` state which one |
| WeeklyPlanRoute.DateShapeSplits | life-os/src/app/api/weekly-plan/route.ts:10 | a date-shaped string is its three fields joined by dashes |
| WeeklyPlanRoute.IsoDateOfCalendarDate | life-os/src/app/api/weekly-plan/route.ts:30 | a calendar-date string is written back exactly as it was read |
| WeeklyPlanRoute.FormatDateOfFields | life-os/src/app/api/weekly-plan/route.ts:30 | a date-shaped string's fields, formatted again, give the string back |
| WeeklyPlanRoute.IsoDateReadsBack | life-os/src/app/api/weekly-plan/route.ts:30 | a date-shaped string written for day `n` names the calendar date of `n` |
| WeeklyPlanRoute.JoinedSlices | life-os/src/app/api/weekly-plan/route.ts:16 | the pieces of a `YYYY-MM-DD` string sit at their fixed positions |
| WeeklyPlanRoute.FieldsOfWritten | life-os/src/app/api/weekly-plan/route.ts:16 | the fields of a written date are the numbers it was written from |
| WeeklyPlanRoute.IsoDateNamesDay | life-os/src/app/api/weekly-plan/route.ts:52 | within four-digit years, the date written for day `n` names day `n` |
| WeeklyPlanRoute.ExpandedSlices | life-os/src/app/api/weekly-plan/route.ts:16 | the pieces of a `±YYYYYY-MM` string sit at their fixed positions |
| WeeklyPlanRoute.IsoDateNamesMonth | life-os/src/app/api/weekly-plan/route.ts:15-17 | outside years 0..9999 (within six digits), the string written for day `n` is an expanded-year string of the year and month of `n`, naming the first of that month |
| WeeklyPlanRoute.ExpandedShapeSplits | life-os/src/app/api/weekly-plan/route.ts:28 | an expanded-year string is its sign, year digits, dash and month digits |
| WeeklyPlanRoute.ExpandedYearBound | life-os/src/app/api/weekly-plan/route.ts:28 | an expanded year has at most six digits |
| WeeklyPlanRoute.ExpandedFieldsDetermine | life-os/src/app/api/weekly-plan/route.ts:30 | two expanded-year strings with the same year and month are equal |
| WeeklyPlanRoute.IsoDateNames | life-os/src/app/api/weekly-plan/route.ts:52 | the string written for day `n` is the calendar-date string of `n` in years 0..9999, and otherwise the expanded-year string of the first of its month |
| WeeklyPlanRoute.IsoDateOfExpandedMonth | life-os/src/app/api/weekly-plan/route.ts:30 | an expanded-year string is written back exactly, from the first of its month |
| WeeklyPlanRoute.ExpandedMonthMidnight | life-os/src/app/api/weekly-plan/route.ts:28 | an expanded-year string is read as the midnight of the first of its month |
| WeeklyPlanRoute.ParseWeekStartUtc | life-os/src/app/api/weekly-plan/route.ts:27-39 | an error is one of the two messages; an accepted week start is a Monday midnight that is written back as the string given |
| WeeklyPlanRoute.ParseWeekStartExact | life-os/src/app/api/weekly-plan/route.ts:27-39 | the result for every string: a calendar-date string is checked as its own day, an expanded-year string of a year outside 0..9999 as the first of its month; each is accepted as that day's midnight when it is a Monday and gets the Monday error otherwise; every other string gets the invalid-date error |
| WeeklyPlanRoute.CalendarDateMidnight | life-os/src/app/api/weekly-plan/route.ts:28 | a calendar-date string is read as its own midnight UTC |
| WeeklyPlanRoute.CalendarDateReadsBack | life-os/src/app/api/weekly-plan/route.ts:30 | that midnight is written back as the string |
| WeeklyPlanRoute.MondayAccepted | life-os/src/app/api/weekly-plan/route.ts:34-38 | a calendar date on a Monday is accepted as its midnight |
| WeeklyPlanRoute.OffMondayRejected | life-os/src/app/api/weekly-plan/route.ts:34-36 | a calendar date off Monday gets "weekStart must be a Monday" |
| WeeklyPlanRoute.ExpandedMonthChecked | life-os/src/app/api/weekly-plan/route.ts:27-39 | an expanded-year string is accepted when the first of its month is a Monday, as that midnight, and gets the Monday error otherwise |
| WeeklyPlanRoute.RolloverNotWrittenBack | life-os/src/app/api/weekly-plan/route.ts:28-30 | a day past its month's end rolls over, so the date written back differs from the string |
| WeeklyPlanRoute.ShortExpandedYearNotWrittenBack | life-os/src/app/api/weekly-plan/route.ts:28-30 | an expanded-year string of a year 0..9999 (`+000005-03`) is written back with four digits, so it differs from the string |
| WeeklyPlanRoute.NonDateRejected | life-os/src/app/api/weekly-plan/route.ts:28-32 | a string that is neither a calendar-date string nor an expanded-year string of a year outside 0..9999 (for example `2026-02-30`) gets the invalid-date error |
| WeeklyPlanRoute.DayShift | life-os/src/app/api/weekly-plan/route.ts:59-60 | two times with the same time of day, `k` days apart, differ by `k` days of milliseconds |
| WeeklyPlanRoute.MondayOf | life-os/src/app/api/weekly-plan/route.ts:21-23 | the result is a Monday 0 to 6 days at or before the given day |
| WeeklyPlanRoute.MondayOfUnique | life-os/src/app/api/weekly-plan/route.ts:21-23 | that Monday is the only Monday in those seven days |
| WeeklyPlanRoute.UtcDateDay | life-os/src/app/api/weekly-plan/route.ts:20 | the day `Date.UTC` names for a day: the day itself, except that a day of a year 0..99 becomes a day of year 1900 + year |
| WeeklyPlanRoute.DateUtcOfNow | life-os/src/app/api/weekly-plan/route.ts:20 | `Date.UTC` of `now`'s UTC year, month and day is the midnight of `UtcDateDay` |
| WeeklyPlanRoute.MondayStep | life-os/src/app/api/weekly-plan/route.ts:21-23 | the step taken from a day's weekday reaches the Monday on or before it, a Sunday going back six days |
| WeeklyPlanRoute.MondayOfWeekUtc | life-os/src/app/api/weekly-plan/route.ts:19-25 | a new `Date` at midnight UTC of the Monday on or before the day `Date.UTC` names for `now` |
| WeeklyPlanRoute.WeekEndOf | life-os/src/app/api/weekly-plan/route.ts:59-60 | the end is a new `Date` exactly seven days after the start |
| WeeklyPlanRoute.DefaultWeekStart | life-os/src/app/api/weekly-plan/route.ts:52 | in years 0..9999, the calendar-date string of the current Monday; outside them (within six digits), the expanded-year string of the first of that Monday's month |
| WeeklyPlanRoute.DefaultWeekStartAccepted | life-os/src/app/api/weekly-plan/route.ts:52-53 | when the current Monday falls in years 0..9999, the default week start passes the checks as that Monday's midnight |
| WeeklyPlanRoute.DefaultWeekStartExpanded | life-os/src/app/api/weekly-plan/route.ts:52-53 | outside years 0..9999, the default week start is checked as the first of the Monday's month: accepted when that day is a Monday, the Monday error otherwise |
| WeeklyPlanRoute.WeekTodos | life-os/src/app/api/weekly-plan/route.ts:66-69 | no more todos are kept than listed, and every kept todo is due within the window |
| WeeklyPlanRoute.WeekTodosSelects | life-os/src/app/api/weekly-plan/route.ts:66-69 | the kept todos are the listed ones at increasing indices, and an index is kept exactly when its due time lies in `[start, end)` |
| WeeklyPlanRoute.PlanFor | life-os/src/app/api/weekly-plan/route.ts:53-76 | a 400 exactly when the week start fails its checks, with one of the two messages; a plan echoes the workspace and the week start and keeps at most the listed todos |
| WeeklyPlanRoute.PlanForRefusesNonDate | life-os/src/app/api/weekly-plan/route.ts:53-56 | a week start that is neither a calendar-date string nor an expanded-year string is answered with the invalid-date 400 |
| WeeklyPlanRoute.PlanForExpandedMonth | life-os/src/app/api/weekly-plan/route.ts:53-76 | an expanded-year string gets the plan of the week from the first of its month when that day is a Monday, echoed unchanged, and the Monday 400 otherwise |
| WeeklyPlanRoute.PlanForRefusesOffMonday | life-os/src/app/api/weekly-plan/route.ts:53-56 | a calendar date off Monday is answered with the Monday 400 |
| WeeklyPlanRoute.PlanForMonday | life-os/src/app/api/weekly-plan/route.ts:58-76 | a Monday is echoed unchanged, with the date one week later as the exclusive end and the todos due from its midnight to the next Monday's |
| WeeklyPlanRoute.WeekEndIsNextMonday | life-os/src/app/api/weekly-plan/route.ts:58-60 | the end of an accepted week is the midnight of the next Monday, seven days on |
| WeeklyPlanRoute.PlanForWeekStart | life-os/src/app/api/weekly-plan/route.ts:53-76 | the checks, the end by `setUTCDate`, the listing and the filter answer exactly `PlanFor` |
| WeeklyPlanRoute.Get | life-os/src/app/api/weekly-plan/route.ts:41-77 | an invalid query gets "Invalid query"; otherwise the requested week start, or the default one `toIsoDateUtc(mondayOfWeekUtc(now))` gives, is answered as `PlanFor` says, on the todos listed within the limit |
| WeeklyPlanRoute.Days2026 | life-os/tests/routes.test.ts:110-131 | 2026 is not a leap year and begins on day 20454 |
| WeeklyPlanRoute.DateShapeChars | life-os/src/app/api/weekly-plan/route.ts:10 | ten characters with dashes at 4 and 7 and digits elsewhere have the date shape, and their fields are the decimal values of their digits |
| WeeklyPlanRoute.February2026 | life-os/tests/routes.test.ts:110-131 | `2026-02-d`, for d in 1..28, names day 20484 + d |
| WeeklyPlanRoute.MondayFebruaryNinthAccepted | life-os/tests/routes.test.ts:110-120 | `2026-02-09` is accepted as its own midnight |
| WeeklyPlanRoute.TuesdayRejected | life-os/tests/routes.test.ts:124-131 | `2026-02-10` gets the Monday error |
| WeeklyPlanRoute.FebruaryThirtiethRejected | life-os/src/app/api/weekly-plan/route.ts:27-32 | `2026-02-30` gets the invalid-date error |

## Left out

- File persistence. The `loadDb`/`saveDb` JSON file read and write, its `mkdir` and the create-on-error path are not modelled. The store is an in-memory object, and the JSON round-trip is taken as faithful.
- `loadDb` returns a shallow copy of `EMPTY_DB` when the file is missing. Later pushes on that copy then also change `EMPTY_DB`'s own arrays. The model gives every store its own collections.
- The concurrency race between one call's `loadDb` and another's `saveDb`. The model is sequential.
- `crypto.randomUUID()` and `new Date()` are parameters. Whether fresh ids are unique is not modelled. The store invariant links audit events to results by key, not by id.
- The SHA-256 digest (FIPS 180-4) and the `JSON.stringify` serialization of the payload. They form the `digest` parameter; only its determinism is used.
- Everything outside the core:
  - the hosted-database repository (`supabase-repository.ts`) and the repository selection (`index.ts`);
  - the other route handlers and the request-context header plumbing;
  - the React pages and components.
- `Number(...)` coercion of the `limit` text is the `number` parameter.
- `new Date(todo.dueDate).getTime()` is the `dueTime` parameter, because JavaScript's date-text parsing is implementation-defined.
- `repository.listTodos` is the `listTodos` parameter.
- `WeeklyPlanRoute.ParseUtcMidnight` models the parse of `<weekStart>T00:00:00.000Z` for the two shapes the route can pass it:
  - a date-shaped string with month 01..12 and day 01..31 is read as midnight UTC, and a day past its month's end carries into the next month, as V8 does;
  - a `±YYYYYY-MM` string with month 01..12 is read as midnight UTC of the first of the month, and `-000000` is no year.

  Every other string is NaN in the model. The route never passes one: the query pattern admits only the first shape, and the default week start is `toIsoDateUtc` output. Implementation-specific fallback parsing of other strings, and other engines' handling of days past a month's end, are not modelled.
- The time-value clip of ±8.64e15 ms is not modelled. Neither are years beyond six digits in `toISOString()`.
- WeeklyPlanRoute.DefaultWeekStart: stated for years within six digits. That covers every time value JavaScript allows, since ±8.64e15 ms is about ±275,760 years, but the clip itself is not modelled.
- `trim` and `toLowerCase` are modelled on ASCII only: whitespace is space, tab, LF, VT, FF and CR, and only `A`-`Z` are lower-cased. Unicode spaces and letters are not modelled.
- Messages and suggestions are modelled as strings. The decimal rendering of the part count in the `TODO_FIELD_COUNT` message is `NatToString`.
- HTTP responses are values (`WeeklyPlan` or `BadRequest` with the message); status codes and JSON encoding are not modelled.

## Findings

| source | as written | input that shows it | evidently intended | confidence | as-written member | corrected member |
|---|---|---|---|---|---|---|
| life-os/src/server/local-db.ts:106-107 (and life-os/src/server/repositories/local-repository.ts:75-76) | the commit returns early whenever reading the key from the parsed map object gives a truthy value. For a key never committed, that read still finds an inherited `Object.prototype` member when the key is one of those names | a first commit with the caller-chosen key `"constructor"` (or `"toString"`, `"__proto__"`, …) on any store: it returns the `Object` function, writes no todo and no audit event, and registers nothing | only an own entry of the map counts as a previous commit, so a first commit under any key writes its records and audit event | not executed | LocalDatabase.CommitAsWritten (shown by LocalDatabase.InheritedKeySwallowsCommit) | LocalDatabase.Commit (with LocalDatabase.ExactlyOnce and LocalDatabase.CommitPreservesConsistency) |
