# EnvForge API: verified models

A Dafny 4.11 model of the parts of the EnvForge API where an answer depends on many steps: the cron
engine, the managed action lifecycle, the regular-expression group scanner, canonical JSON, the remote
configuration writer, schema migrations and the legacy import, the configurable-vars normaliser, the
artifact store, the diagnostic key and the plan conflict detector. `dafny verify dfyconfig.toml` checks
all of it.

| module | file it models | form |
|---|---|---|
| `Calendar`, `Text`, `Decimal` | dates, strings and numerals of ECMA-262 that the others need | a mutable `UtcDate`; functions |
| `CronField`, `CronSyntax`, `CronSearch`, `CronFires`, `CronGaps` | `apps/api/src/cron.ts` | loops that grow sets and move a date; the minute-by-minute scan as reference |
| `ActionRuns`, `ManagedExecution`, `RedactionSafety` | `apps/api/src/action-runs.ts`, `apps/api/src/managed-execution.ts` | a state machine; a runner over an adapter that may answer or throw at every call |
| `RegexScanner` | `apps/api/src/action-runs.ts` | the scanning loop; a syntax tree and its printer |
| `StableSort`, `CanonicalJson`, `NumberText`, `JsonText`, `JsonReader`, `JsonLayout` | `apps/api/src/capability-catalog-preview.ts` | recursive functions; a reader of JSON texts |
| `ConfigWrite` | `apps/api/src/config-files.ts` | a host whose files change step by step |
| `Migrations`, `LegacyImport`, `DatabaseStart` | `apps/api/src/db-sqlite.ts` | a process and its database, killed anywhere; the steps of overlapping starts, in any order |
| `VarsSchema`, `VarsRules` | `apps/api/src/catalog-vars-schema.ts` | two passes over a map; the rules of acceptable values |
| `ArtifactStore`, `ArtifactRaces` | `apps/api/src/artifact-store.ts` | a store that only grows; the steps of concurrent puts, in any order |
| `StableKey` | `apps/api/src/failure-diagnostics.ts` | a fold over a text |
| `PlanConflicts` | `apps/api/src/catalog-conflicts.ts` | nested loops over a bucket index |

What the program gets from outside is a parameter of the model: clocks, random passwords, hash functions,
`redactSecrets`, the string comparator of the sort, loose equality and number conversion, what SQLite refuses,
and whether each remote command, file-system call or adapter call works. The statements hold for all of them,
except where a row names a condition.

## Where the code and its description part

The model follows the code in each of these, and gives the exact condition or a concrete input.

- `cron.ts` promises null only when nothing fires in four years. Close to either end of the Date range it gives
  null without looking: the window's end, or the first day of the very first month, is an Invalid Date
  (`CronSearch.Reaches`; `LastYearsLost` and `FirstMayLost` lose a minute at either end). A 29 February schedule
  is null between leap days eight years apart (`CronFires.LeapDayLost`), and one date on one weekday is null after
  every time it fires (`CronGaps.OneDayScheduleFires`). An empty comma piece, as in `1,`, means the whole range
  (`CronField.EmptyPieceIsWholeRange`).
- `ActionRunRecord.redacted` is documented as "True if any preview / message contained a redacted secret". Secrets in
  apply, verify and rollback results are cut without raising it (`ManagedExecution.Flagged` is the exact
  condition, `FlagMeaning` what it is worth, `SecretWithoutFlag` an input).
- `runManagedAction` lets an exception escape exactly when `drainOutput` throws while an error is being recorded
  (`ManagedExecution.Escapes`; `DrainEscapes` is such an adapter).
- `countCapturingGroups` calls itself naive about nested character classes; it is right about them too.
- `sortJson` is canonical iff its comparator never calls two different names equal, which `localeCompare` can do.
- `safeWriteConfigFile` reports "backup restored" whatever the restore did; three families of failures leave the
  live file changed after a throw. A command that ends without an exit status reads as success, so in two more
  families a write returns without its content being live (`ConfigWrite.Leaks`). Outside the system directories the
  backup and what is restored from it belong to the connecting user (`ConfigWrite.RestoreUndoesWrite`).
- `initializeDatabase` keeps its handle before the migrations run. A call after one that threw, or during one that
  will return, gets a database that may be neither migrated nor imported (`DatabaseStart.HandleIsMigratedIff`,
  `HandleIsImportedIff`). The import checks for a runtime document outside its transaction, and can overwrite one
  written since (`DatabaseStart.SafeIffNoStaleCheck`).
- A runtime document the application writes before the import commits stops the import for good
  (`LegacyImport.CrashesAreInvisible`).
- The legacy import drops records that miss a required column: they leave the document and never reach a table.
- `putPlanArtifact` opens, writes and reads back in separate steps. Of two concurrent puts of one content the
  second can throw on the unfinished file (`ArtifactRaces.TwinCanThrow`); as long as no writer dies, none ever
  throws iff puts that share a name write nothing (`ArtifactRaces.NoneThrownIffOwnNames`). A content that begins a
  longer one of the same 24-digit name can be lost after its put returned; nothing else can
  (`ArtifactRaces.SafeIffNoneBegins`). With the root directory itself as store every put throws
  (`ArtifactStore.PutResolves`).
- Submitting the values of a form result again can hide a field that was shown; exactly when, is
  `VarsSchema.SameIffNoneStale`.
- `stableKey` sees only the high surrogate of a character beyond the first plane.

## Model

| member | source | states |
|---|---|---|
| Calendar.DaySplits | apps/api/src/cron.ts:117-125 | the year, month and date read from any day, put together again, give that day; the date exists in that month |
| Calendar.DateSplits | apps/api/src/cron.ts:117-125 | every real date of the Gregorian calendar is read back from its day number: with DaySplits a bijection, for all years |
| Calendar.MonthLengths | apps/api/src/cron.ts:117-125 | thirty days hath September, April, June and November; February has 28 or 29, and the others 31 |
| Calendar.WeekdaysFollow | apps/api/src/cron.ts:123 | day 0 was a Thursday, and each day's weekday is the next one after that of the day before, 0 being Sunday |
| Text.SplitJoined | apps/api/src/cron.ts:53 | splitting two texts joined by the separator gives the pieces of the one and then of the other |
| Text.ParseIntOfPrint | apps/api/src/cron.ts:76-81 | the decimal numeral of a number is read as that number |
| CronSyntax.PartReads | apps/api/src/cron.ts:54-85 | a piece written from its syntax tree (star, number or range, with or without a step) is accepted iff its step is positive and its bounds are in order and in range; it is then that start, end and step |
| CronSyntax.FieldMeansTree | apps/api/src/cron.ts:50-91 | a comma list of such pieces parses iff each is allowed; its set then holds exactly the values start + k * step, up to the end, of its pieces |
| CronSyntax.CronMeansTree | apps/api/src/cron.ts:37-48 | five such fields, with any white space between and around them, parse iff all are allowed, and each set is that of its field |
| CronSyntax.OtherCountsRefused | apps/api/src/cron.ts:38-41 | any other number of words is refused |
| CronSyntax.ErrorIs | apps/api/src/cron.ts:57-85 | a bad step decides the error before a bad number, and a bad number before bounds |
| CronSyntax.ThirdNumberIgnored | apps/api/src/cron.ts:68-70 | of a range with more than one hyphen only the first two numbers count |
| CronSyntax.ParseIntReads | apps/api/src/cron.ts:58-77 | parseInt takes an optional sign and the digits after any white space, and ignores what follows them |
| CronField.ParseField | apps/api/src/cron.ts:50-91 | the nested loops return the union of the pieces' progressions, or the first error |
| CronField.ProgressionValues | apps/api/src/cron.ts:86-88 | the stepping loop's values are exactly start + k * step up to the end |
| CronField.FieldIsUnion | apps/api/src/cron.ts:50-91 | a field is accepted iff all its pieces are, and is then a non-empty subset of [min, max] that holds exactly the pieces' values |
| CronField.CommaIsUnion | apps/api/src/cron.ts:53-89 | "a,b" denotes the union of a and b, and fails iff either fails |
| CronField.EmptyPieceIsWholeRange | apps/api/src/cron.ts:65-67 | an empty piece denotes the whole range, so a field that ends in a comma does as well |
| CronField.PrintThenParse | apps/api/src/cron.ts:50-91 | a list of values printed as decimals parses to the set of these values |
| CronField.ParseCron | apps/api/src/cron.ts:37-48 | the five fields, or the first error; what is returned is valid |
| CronField.CronIsValid | apps/api/src/cron.ts:37-48 | every parsed expression has five non-empty sets within their ranges |
| CronField.PrintCronThenParse | apps/api/src/cron.ts:37-48 | printing five sets, in any order, and parsing the expression gives them back |
| CronField.EveryScheduleHasText | apps/api/src/cron.ts:37-48 | every valid schedule is the meaning of some expression, so the parser reaches exactly the valid ones |
| CronSearch.ScanIsLeast | apps/api/src/cron.ts:138-146 | trying minute after minute finds the least matching minute before the limit, and none only if there is none |
| CronSearch.SameMonth | apps/api/src/cron.ts:117-122 | every instant before the first of the next month has the same year and month |
| CronSearch.MonthJumpSkips | apps/api/src/cron.ts:117-122 | jumping to the next month, across year ends, passes over no matching minute |
| CronSearch.DayJumpSkips | apps/api/src/cron.ts:123-127 | jumping to the next day passes over no matching minute |
| CronSearch.HourJumpSkips | apps/api/src/cron.ts:128-132 | jumping to the next hour passes over no matching minute |
| CronSearch.MonthSetters | apps/api/src/cron.ts:118-120 | the three setters end at the first of the next month, or at an Invalid Date when the first of this one is out of range |
| CronSearch.DaySetters | apps/api/src/cron.ts:124-125 | the two setters end at the next midnight |
| CronSearch.HourSetters | apps/api/src/cron.ts:129-130 | the two setters end at the next full hour |
| CronSearch.Advance | apps/api/src/cron.ts:116-133 | each turn of the loop moves the candidate strictly forward and loses nothing the scan would still find |
| CronSearch.Search | apps/api/src/cron.ts:107-135 | the jumping search terminates and equals the minute-by-minute scan of the window, wherever it reaches |
| CronSearch.NextRunAfter | apps/api/src/cron.ts:104-136 | a bad expression throws its error; otherwise the result is that of the scan |
| CronSearch.NextRunIsLeast | apps/api/src/cron.ts:104-146 | a result is a whole minute strictly inside the window, matches, and is the least such minute; null only if there is none, wherever the search reaches |
| CronSearch.LastYearsLost | apps/api/src/cron.ts:113-115 | in the last four years of the Date range every schedule gives null, also one that matches the last minute |
| CronSearch.FirstMayLost | apps/api/src/cron.ts:117-122 | asked at the first Date, a schedule for 1 May gives null although that day is eleven days ahead |
| CronFires.DatedScheduleFires | apps/api/src/cron.ts:111-135 | with any weekday and a date every year has, the result is non-null iff the search reaches |
| CronFires.WeekdayScheduleFires | apps/api/src/cron.ts:111-135 | with any date allowed, the result is non-null iff the search reaches |
| CronFires.LeapDayScheduleFires | apps/api/src/cron.ts:111-135 | a 29 February schedule is null iff the search does not reach or the start lies in the dead zone of a skipped century |
| CronFires.ImpossibleDatesNeverFire | apps/api/src/cron.ts:111-135 | a schedule whose dates exist in no year is always null |
| CronFires.KindsOfSchedule | apps/api/src/cron.ts:111-135 | with any weekday allowed, every valid schedule is of one of these kinds |
| CronFires.SlotsExist | apps/api/src/cron.ts:113-115 | a valid schedule has a first and a last minute of the day |
| CronFires.LeapDayLost | apps/api/src/cron.ts:104-136 | "0 0 29 2 *" asked on 1 March 2096 gives null, although 29 February 2104 matches |
| CronFires.FiresOnWeekday | apps/api/src/cron.ts:138-146 | a result falls on an allowed weekday, counted from Saturday 1 January 2000 |
| CronFires.WeeklyScheduleFires | apps/api/src/cron.ts:104-146 | with one weekday and any date, the result is the first minute after the start that is a slot of a day of that weekday, counted from the same Saturday |
| CronGaps.NullIffNoDayFits | apps/api/src/cron.ts:113-146 | for every schedule and every start the search reaches from: null iff each day whose date and weekday are allowed is over at the start or begins only after the window |
| CronGaps.NullIffNextIsFar | apps/api/src/cron.ts:113-146 | between two such days, with none between, the result is null iff the window ends at or before the first minute of the later one |
| CronGaps.NextOrdinaryHit | apps/api/src/cron.ts:123 | a date every year has falls on a weekday again after 5, 6, 7, 11 or 12 years |
| CronGaps.NextLeapHit | apps/api/src/cron.ts:123 | 29 February falls on a weekday again after 28 years, or 12 or 40 across a skipped century |
| CronGaps.OneDayScheduleFires | apps/api/src/cron.ts:104-146 | for one month, date and weekday: every start lies between two such days, and is null iff the later one begins after the window; some starts after each of them are |
| ActionRuns.SucceededInOrder | apps/api/src/action-runs.ts:409-433 | over every chain of transitions from a fresh record, success comes only right after snapshotting, applying, verifying |
| ActionRuns.TransitionReturnsIff | apps/api/src/action-runs.ts:409-433 | a transition returns iff its target is reached from the record's state, told target by target; else it throws |
| ActionRuns.AbsorbingStays | apps/api/src/action-runs.ts:409-433 | no chain leaves succeeded, rolled-back, rollback-failed or skipped; the two other terminal states can be left |
| ActionRuns.EndedAtIsLastEnd | apps/api/src/action-runs.ts:429-442 | endedAt is the time of the last terminal state visited, and unset iff none was |
| ActionRuns.ChainsAreShort | apps/api/src/action-runs.ts:409-421 | a chain has at most six moves, and two more for every reopening of manual-required |
| ManagedExecution.RunManagedAction | apps/api/src/managed-execution.ts:72-165 | for every adapter: the exact calls, when an exception escapes, and every modelled field of the record, previews and redacted flag included; no illegal transition is attempted |
| ManagedExecution.RunMutatingAction | apps/api/src/managed-execution.ts:125-165 | the same for an action that mutates: its calls follow the first step that fails |
| ManagedExecution.ApplyStep | apps/api/src/managed-execution.ts:134-141 | the try block fails iff apply threw, draining threw or apply was not ok, with that error; the previews are those of the output drained so far, redacted |
| ManagedExecution.VerifyStep | apps/api/src/managed-execution.ts:148-155 | the try block fails iff verify threw, draining threw or verify was not ok, with that error; the previews are those of the output drained so far, redacted |
| ManagedExecution.FailAndRollBack | apps/api/src/managed-execution.ts:142-146 | the record is failed, then rolled back iff the action can be, with the captured snapshot |
| ManagedExecution.FailSnapshot | apps/api/src/managed-execution.ts:129-132 | a failing snapshot ends in failed and rolls nothing back |
| ManagedExecution.CaptureStream | apps/api/src/managed-execution.ts:167-180 | previews are redacted and cut; the flag is raised iff a drained output held a secret; a throwing drain changes nothing |
| ManagedExecution.ApplyError | apps/api/src/managed-execution.ts:182-196 | the failed record carries the redacted error of its phase; a throwing drain escapes |
| ManagedExecution.TryRollback | apps/api/src/managed-execution.ts:198-222 | rolled-back iff the rollback returned ok and could be drained, else rollback-failed with the redacted error |
| ManagedExecution.SixTraces | apps/api/src/managed-execution.ts:106-164 | the adapter is called in one of six ways; success means apply and verify were ok; a rollback is called iff the action can be rolled back, apply was called, it did not succeed and nothing escaped, and always with the captured snapshot |
| ManagedExecution.EndOfSomeRun | apps/api/src/action-runs.ts:435-442 | every terminal state is the end of some run |
| ManagedExecution.QuietDrainsNeverEscape | apps/api/src/managed-execution.ts:125-222 | if draining never throws nothing escapes, and success is exactly: snapshot, apply and verify answered and the latter two were ok |
| ManagedExecution.FlagMeaning | apps/api/src/action-runs.ts:117 | a secret in a preview or message of the record always raises the flag, so it tells of every cut text iff no result lost one while it stayed down; when it is raised such a text is there, or was in a preview replaced by a later one |
| ManagedExecution.SecretWithoutFlag | apps/api/src/managed-execution.ts:138-140 | an input whose record lost a secret and is not flagged |
| ManagedExecution.PreviewsAreRedacted | apps/api/src/managed-execution.ts:167-180 | a preview in a record is the redacted, cut text of the last drained output that was not empty, and there is none iff all were |
| ManagedExecution.DrainEscapes | apps/api/src/managed-execution.ts:142-146 | an adapter whose exception leaves the runner, with the action half applied and not rolled back |
| RedactionSafety.FinishedIsStored | apps/api/src/managed-execution.ts:224-258 | stored results have the adapter's ok values, steps and checks, each text the redacted one at its own place, outputs redacted first and then cut at 4096 characters |
| RedactionSafety.ErrorNamesStep | apps/api/src/managed-execution.ts:139-155 | a step that was not ok is named in the error, with its redacted message or, without one, a fixed text |
| RedactionSafety.SameRecords | apps/api/src/managed-execution.ts:106-258 | two adapters that answer alike except in texts that redact alike leave records that agree in everything but the snapshot |
| RedactionSafety.RunTwice | apps/api/src/managed-execution.ts:72-258 | the same of the records the runner returns: secrets that redact alike cannot be told apart in them |
| ManagedExecution.StoreHoldsNewest | apps/api/src/managed-execution.ts:265-274 | over any run of recordings, each of which puts its record last and drops only what does not fit, the store is the newest thousand of the whole history, in order |
| RegexScanner.CountCapturingGroups | apps/api/src/action-runs.ts:324-349 | the loop with its two flags computes the automaton's count |
| RegexScanner.CrossItem | apps/api/src/action-runs.ts:333-337 | a class of the v flag, nested to any depth, is crossed without counting, and its end leaves the automaton outside |
| RegexScanner.ScanCountsGroups | apps/api/src/action-runs.ts:324-349 | for every valid pattern the count is the number of capturing and named groups in its syntax tree |
| CanonicalJson.KeepsProperties | apps/api/src/capability-catalog-preview.ts:794-803 | a sorted object has exactly the defined properties, with their values sorted |
| CanonicalJson.IndexIff | apps/api/src/capability-catalog-preview.ts:797-802 | the keys an object lists first are the numerals of the numbers up to 4294967294 |
| CanonicalJson.EntriesSorted | apps/api/src/capability-catalog-preview.ts:797-802 | its array-index keys come first in numeric order, then the names in comparator order, no key twice |
| CanonicalJson.Idempotent | apps/api/src/capability-catalog-preview.ts:794-805 | for every comparator: sorting again changes nothing, and the form is equivalent to the value |
| CanonicalJson.SameFormIffEquiv | apps/api/src/capability-catalog-preview.ts:794-805 | two values have the same form iff they are equal up to key order and undefined properties at every depth, if the comparator separates names |
| CanonicalJson.TiedNamesKeepOrder | apps/api/src/capability-catalog-preview.ts:800 | two names the comparator ties give two equivalent objects with different forms |
| CanonicalJson.CanonicalIffSeparates | apps/api/src/capability-catalog-preview.ts:794-805 | the form is canonical for all values iff the comparator separates names |
| NumberText.TextInjective | apps/api/src/capability-catalog-preview.ts:501 | different finite numbers, fractional and very large ones included, print differently |
| NumberText.LayoutByPoint | apps/api/src/capability-catalog-preview.ts:501 | a number is printed with an exponent iff it is at least 10^21 or below 10^-6, and with a fraction iff digits are left after the point |
| JsonText.TextInjective | apps/api/src/capability-catalog-preview.ts:500-502 | the indented text determines the value |
| JsonReader.TextReads | apps/api/src/capability-catalog-preview.ts:500-502 | the text of any value but undefined is a JSON text, and a reader of RFC 8259 reads from it the sorted value as far as JSON can express it |
| JsonReader.TextMeans | apps/api/src/capability-catalog-preview.ts:500-502 | what is read means the value itself: null for what JSON cannot say, exactly the defined properties, the same items at every depth |
| JsonReader.EscapesAreShort | apps/api/src/capability-catalog-preview.ts:501 | a character is escaped iff it must be, by a letter where there is one, else by four digits |
| JsonLayout.TextIsLaidOut | apps/api/src/capability-catalog-preview.ts:501 | each item stands on its own line, behind two spaces for every bracket still open; a space after each colon and nowhere else |
| JsonText.SameTextIffEquiv | apps/api/src/capability-catalog-preview.ts:500-506 | text and hash of two values agree iff the values are equal up to key order, for values JSON can express |
| JsonText.TextIgnoresOrder | apps/api/src/capability-catalog-preview.ts:500-502 | key order and undefined properties never show in the text, for all values |
| JsonText.UniqueSortedIsSet | apps/api/src/capability-catalog-preview.ts:790-792 | the result is strictly ascending, holds exactly the non-empty values, and depends on nothing but their set |
| ConfigWrite.Host.SafeWriteConfigFile | apps/api/src/config-files.ts:329-395 | whichever commands fail or lose their exit status: the live file, both kinds of backup and the temp files afterwards, and when the call returns |
| ConfigWrite.Host.RestoreConfigFileFromBackup | apps/api/src/config-files.ts:789-813 | the live file becomes a copy of the stable backup iff the path may be restored, the commands work and there is one; otherwise nothing changes, and it throws iff that is reported |
| ConfigWrite.SpecialPaths | apps/api/src/config-files.ts:312-315 | exactly which paths are handed to a writer of their own, and so are not modelled here |
| ConfigWrite.AtomicUnlessLeaks | apps/api/src/config-files.ts:351-391 | a write with a change to make is all or nothing, owner included, iff none of five things happens: temp file not removed, not restored, something else restored (an older file, or one of another owner), not installed and the status lost, a cut temp file installed and its status lost |
| ConfigWrite.ReportedSuccessIsReal | apps/api/src/config-files.ts:1103 | when exit statuses arrive, a write that returns has made its content live |
| ConfigWrite.ReliableIsAtomic | apps/api/src/config-files.ts:351-391 | with a backup of an existing file, working copies, removal and restore, and exit statuses that arrive, every write leaves the new or the old content; it is all or nothing, owner included, iff it is not refused or copies keep the owner |
| ConfigWrite.WritesAreRegister | apps/api/src/config-files.ts:329-395 | after every call of any such run the live content is that of the last write that returned, or the first content |
| ConfigWrite.RestoreUndoesWrite | apps/api/src/config-files.ts:789-813 | restoring after a backed-up write brings back content and mode from before it, and the owner iff neither copy changed it: copies made without sudo or root belong to who made them |
| ConfigWrite.StableIsLastSaved | apps/api/src/config-files.ts:351-356 | over any run of writes and restores the stable backup is a copy of the live file from before the last write that saved it |
| ConfigWrite.TimedIsLastSaved | apps/api/src/config-files.ts:333-356 | over any run of writes and restores the backup of a stamp is a copy of the live file from before the last write that saved it |
| ConfigWrite.OwnerAfterWrite | apps/api/src/config-files.ts:332-370 | below /etc, /usr and /var an installed file has its old owner, or root's when it is new; elsewhere the user's; its mode is the old one, or 644 |
| ConfigWrite.OwnerOfCopy | apps/api/src/config-files.ts:351-356 | a copy keeps content and mode, and the owner iff sudo or root makes it or it is the user's |
| ConfigWrite.ProtectedPaths | apps/api/src/config-files.ts:309-311 | writing or restoring a protected path throws and does nothing |
| ConfigWrite.WriteKeepsModeAndOwner | apps/api/src/config-files.ts:337-349 | a write under a system directory that returns and was installed changes only the content, whenever stat answered |
| ConfigWrite.StaleBackupIsRestored | apps/api/src/config-files.ts:385-389 | without a fresh backup a refused write leaves an older file live |
| Migrations.Schema.RunMigrations | apps/api/src/db-sqlite.ts:404-445 | a boot that returns applied exactly the missing steps; one that throws or is killed leaves the database as it was |
| Migrations.PrefixRecords | apps/api/src/db-sqlite.ts:422-438 | a prefix database holds each of its steps' SQL once, in list order, and records exactly their versions and checksums |
| Migrations.BootFromPrefix | apps/api/src/db-sqlite.ts:404-445 | booting n steps on the first k gives the longer prefix, or throws iff SQLite refuses a missing step |
| Migrations.UpgradeIsFreshBoot | apps/api/src/db-sqlite.ts:404-445 | booting a prefix of the list and then all of it gives what one fresh boot gives |
| Migrations.HistoryIsPrefix | apps/api/src/db-sqlite.ts:404-445 | after any boots, upgrades, downgrades and crashes the database is a prefix, at least as long as every release that booted |
| Migrations.EditedStepRefused | apps/api/src/db-sqlite.ts:424-429 | a step whose recorded checksum differs makes the boot throw, wherever it stands in the list |
| LegacyImport.Database.MigrateLegacyJson | apps/api/src/db-sqlite.ts:447-565 | for a stop at any point: the database, the file and the archive afterwards, and exactly when the call returns |
| LegacyImport.Database.InsertRows | apps/api/src/db-sqlite.ts:492-547 | the loop inserts the complete rows with new ids, in order |
| LegacyImport.StoredOnce | apps/api/src/db-sqlite.ts:492-547 | after the insertions an id is stored iff it was before or some complete row has it, exactly once, and no earlier row is touched |
| LegacyImport.ImportKeepsIds | apps/api/src/db-sqlite.ts:463-547 | after a commit, whatever the tables held, earlier rows are untouched, each id is stored once and the lists are gone from the document; all ids, iff none is new with only incomplete rows |
| LegacyImport.IncompleteCommentLost | apps/api/src/db-sqlite.ts:492-506 | a comment without content ends up nowhere |
| LegacyImport.LeftoverFileIsHarmless | apps/api/src/db-sqlite.ts:451-455 | once there is a runtime row, only the application changes the database, over any run of boots and reappearing files |
| LegacyImport.CrashesAreInvisible | apps/api/src/db-sqlite.ts:447-565 | through boots killed anywhere and repeated, application writes and appearing files: the import happens iff a boot reaches its commit with a readable file before the application wrote a runtime row, then in one piece, of the file and tables of that moment |
| LegacyImport.CommitsOnce | apps/api/src/db-sqlite.ts:451-455 | a boot of a history commits an import iff it is the first such boot |
| LegacyImport.FilesOfHistory | apps/api/src/db-sqlite.ts:555-560 | through any history the file is the last that appeared, and gone iff the one import finished in production and none appeared since; there is at most one new copy, of the file imported |
| LegacyImport.GoneHasCopy | apps/api/src/db-sqlite.ts:555-560 | a file that is gone has its copy |
| DatabaseStart.Process.InitializeDatabase | apps/api/src/db-sqlite.ts:361-384 | the handle is kept first, then come migrations, then the import: what each leaves when it throws, and that a later call returns at once |
| DatabaseStart.SecondCall | apps/api/src/db-sqlite.ts:361-384 | a second call always returns; what it gives is migrated iff the first call's migrations passed, and imported iff its import committed |
| DatabaseStart.HandleIsMigratedIff | apps/api/src/db-sqlite.ts:361-381 | at every moment of every interleaving of calls, a kept handle leads to all steps iff they were there at the start or some call is past its migrations, and to none of the missing ones before |
| DatabaseStart.OverlapGivesUnmigrated | apps/api/src/db-sqlite.ts:361-381 | a call during another that returns normally can get an unmigrated database |
| DatabaseStart.HandleIsImportedIff | apps/api/src/db-sqlite.ts:361-384 | at every moment there is a runtime document iff there was one at the start, the application wrote one, or some call is past its import |
| DatabaseStart.SafeIffNoStaleCheck | apps/api/src/db-sqlite.ts:451-474 | once there is a runtime document, the application alone ever changes the database iff no call is between its check and its import |
| VarsSchema.ValidateAndNormalise | apps/api/src/catalog-vars-schema.ts:272-306 | the values are exactly the visible fields' initial values under no other name, the errors exactly theirs, ok iff none; a hidden earlier field counts as undefined |
| VarsSchema.Collect | apps/api/src/catalog-vars-schema.ts:278-290 | the first pass gives every field its submitted, default, generated or undefined value, and drops unknown names |
| VarsRules.OkIffAcceptable | apps/api/src/catalog-vars-schema.ts:292-306 | a result is ok iff every visible value is acceptable, and each that is not gets the error whose rule it breaks |
| VarsRules.NoErrorIffAcceptable | apps/api/src/catalog-vars-schema.ts:308-350 | a value has no error iff it is acceptable: missing and not required, a matching text, a number within its bounds, a whole port from 1 to 65535, a boolean, one of the options |
| VarsRules.ErrorIffGets | apps/api/src/catalog-vars-schema.ts:308-350 | for each of the ten errors, exactly which values get it |
| VarsRules.ConditionReads | apps/api/src/catalog-vars-schema.ts:362-380 | a name, == or != and a text on one line are read as written, whatever white space is around them |
| VarsRules.ConditionHasForm | apps/api/src/catalog-vars-schema.ts:363-365 | only expressions of that form are read as conditions |
| VarsRules.OperandReads | apps/api/src/catalog-vars-schema.ts:367-375 | the text is true, false, a numeral, what stands between equal quotes, or itself |
| VarsRules.BlankSide | apps/api/src/catalog-vars-schema.ts:363-365 | with nothing but white space after the operator, the text is its last character that does not end a line |
| VarsSchema.SeesValues | apps/api/src/catalog-vars-schema.ts:293-299 | the half-deleted map decides visibility as the reference does, for references in both directions |
| VarsSchema.QuotedConditionReadsBack | apps/api/src/catalog-vars-schema.ts:362-380 | a comparison with a quoted text on one line is read as written |
| VarsSchema.SameIffNoneStale | apps/api/src/catalog-vars-schema.ts:272-306 | submitting a result's values again gives the same values iff no field is stale: shown or hidden by a later field that is itself hidden, and whose fallback compares differently; and then the same errors |
| VarsSchema.Idempotent | apps/api/src/catalog-vars-schema.ts:272-306 | when conditions name only earlier fields, submitting the values again gives the same values and errors |
| VarsSchema.ForwardReferenceLost | apps/api/src/catalog-vars-schema.ts:293-299 | a field shown because of a later field that is itself hidden is lost on resubmission |
| ArtifactStore.Store.PutPlanArtifact | apps/api/src/artifact-store.ts:33-65 | the files afterwards, when a record is returned, and which; a put that meets a file changes nothing, and throws if its content has another hash; in the root directory every put throws |
| ArtifactStore.Store.GetPlanArtifact | apps/api/src/artifact-store.ts:24-31 | a record, whoever made it, is served iff its reference begins with the plan's key, leads to a file inside the store and that file has the full hash; what is served has it |
| ArtifactStore.FilesStay | apps/api/src/artifact-store.ts:46-55 | no sequence of puts, failing or not, changes or removes a file |
| ArtifactStore.FetchReturnsWhatWasPut | apps/api/src/artifact-store.ts:33-78 | once a put returned, its record fetches exactly its bytes after any further puts, although names keep 24 digits |
| ArtifactStore.PutResolves | apps/api/src/artifact-store.ts:24-45 | a reference that a put makes leads to itself, in every store but the root directory, where all are refused |
| ArtifactStore.SameNameIff | apps/api/src/artifact-store.ts:41-44 | two puts meet under one name iff their plans' and their contents' hashes begin with the same 24 digits and they are of one kind |
| ArtifactStore.UpUndoesDown | apps/api/src/artifact-store.ts:24-26 | in a reference, going up undoes going down, a dot stays, and nothing is above the root directory |
| ArtifactStore.CutShortIsFinal | apps/api/src/artifact-store.ts:46-55 | after a write cut short no later put of that content can return |
| ArtifactStore.BoundToPlan | apps/api/src/artifact-store.ts:68-71 | a record is refused under a plan with another storage key |
| ArtifactStore.PlainReferenceStaysInPlan | apps/api/src/artifact-store.ts:67-72 | a record served under a plan by a reference without dot segments lies in that plan's directory |
| ArtifactRaces.StepKeepsWriters | apps/api/src/artifact-store.ts:46-55 | every step of any put keeps: one writer a file, and the file holds what that writer has written so far |
| ArtifactRaces.StepChangesOwnFile | apps/api/src/artifact-store.ts:47 | a file is changed only by the put that is still writing it |
| ArtifactRaces.EveryInterleavingIsSafe | apps/api/src/artifact-store.ts:46-55 | through any interleaving of any number of puts, writers dying included, what has returned keeps exactly its bytes under its name |
| ArtifactRaces.ReturnedCanBeFetched | apps/api/src/artifact-store.ts:33-78 | after any interleaving the record of a put that returned fetches its bytes |
| ArtifactRaces.SafeIffNoneBegins | apps/api/src/artifact-store.ts:46-55 | every interleaving is safe iff no content is the beginning of a longer one with the same name |
| ArtifactRaces.BeginningIsOverwritten | apps/api/src/artifact-store.ts:46-54 | the interleaving that loses such a content |
| ArtifactRaces.NoneThrownIffOwnNames | apps/api/src/artifact-store.ts:46-55 | as long as no writer dies, no put throws in any interleaving iff puts that share a name write nothing |
| ArtifactRaces.SharedNameThrows | apps/api/src/artifact-store.ts:46-54 | the interleaving in which the second put to open a shared name throws |
| ArtifactRaces.TwinCanThrow | apps/api/src/artifact-store.ts:46-54 | an interleaving of two puts of one content in which one throws |
| StableKey.ComputeStableKey | apps/api/src/failure-diagnostics.ts:398-402 | the loop computes the key of the fold |
| StableKey.MixInjective | apps/api/src/failure-diagnostics.ts:400 | one step is a bijection of the 32-bit state, and of the unit |
| StableKey.HexInjective | apps/api/src/failure-diagnostics.ts:401 | different states print differently |
| StableKey.HexReadsBack | apps/api/src/failure-diagnostics.ts:401 | the printed state, read as a hexadecimal number, is the state |
| StableKey.KnownKeys | apps/api/src/failure-diagnostics.ts:398-402 | the keys of the empty text and of "a" are the published test vectors |
| StableKey.UnitIs | apps/api/src/failure-diagnostics.ts:400 | what a character contributes is its code, or the high surrogate that UTF-16 begins it with |
| StableKey.OneDifference | apps/api/src/failure-diagnostics.ts:398-402 | texts that differ in one place share a key iff the two characters share their first code unit |
| StableKey.SmileysCollide | apps/api/src/failure-diagnostics.ts:400 | U+1F600 and U+1F601 can stand for each other in any text |
| PlanConflicts.DetectPlanConflicts | apps/api/src/catalog-conflicts.ts:230-257 | the bucket index and nested loops give what looking at the items directly gives: rules, participants and ids by key, in order |
| PlanConflicts.KeyIs | apps/api/src/catalog-conflicts.ts:232-234 | white space around a key does not count, and no key is like one of white space |
| PlanConflicts.KeylessIgnored | apps/api/src/catalog-conflicts.ts:232-234 | items without a key are as good as not there |
| PlanConflicts.DetectedIffClashes | apps/api/src/catalog-conflicts.ts:240-255 | a rule is detected iff two items have two different keys of it |
| PlanConflicts.ParticipantsAre | apps/api/src/catalog-conflicts.ts:243-249 | the participants are exactly the items with one of the keys |
| PlanConflicts.OrderDoesNotMatter | apps/api/src/catalog-conflicts.ts:230-257 | shuffling the items gives the same rules in the same order, each with the same participants, keys and ids by key |
| PlanConflicts.FindingIs | apps/api/src/catalog-conflicts.ts:240-255 | what is reported of a rule, told without the index: its participants, the keys in use and the ids of each |
| PlanConflicts.MoreItems | apps/api/src/catalog-conflicts.ts:230-257 | for more items every conflict is reported again, with at least its participants, keys and ids |
| PlanConflicts.NothingBlocksIff | apps/api/src/catalog-conflicts.ts:264-266 | nothing blocks a plan iff no blocking rule has two items with different keys |

## Left out

- CronField.ReadPiece: numbers are exact integers; rounding to binary64 is modelled only where a numeral becomes Infinity, as no comparison made here depends on the rest.
- CronGaps.OneDayScheduleFires: one month, date and weekday; for schedules that list several dates and weekdays at once the null starts are given by CronGaps.NullIffNoDayFits, and how far apart their days lie is not derived.
- ManagedExecution.RunManagedAction: the record is a value that the method reassigns, so aliasing of one record object is not modelled; command summaries, capability keys and the record's id are omitted.
- RedactionSafety.FinishedIsStored: a length is counted in characters, where the source counts 16-bit code units.
- ManagedExecution.CaptureStream: the redaction rules themselves are an arbitrary function; their regular expressions are not part of this model.
- NumberText.TextInjective: a number is given by its shortest digits; that these are the shortest that round to a binary64 number is not part of this model.
- JsonText.TextInjective: a character is a Unicode scalar value, so texts with lone surrogates are not covered.
- StableKey.OneDifference: texts with lone surrogates are not covered.
- CanonicalJson.SameFormIffEquiv: values are plain data; class instances, dates and objects with toJSON are not part of this model.
- ConfigWrite.Host.SafeWriteConfigFile: a single copy or install is all or nothing; a copy made without sudo gets the group of the user who makes it; shell quoting, the 30 second timeout (whose effect is unknown) and the path-specific writers for sudoers, sshd, firewall and systemd files are not part of this model.
- LegacyImport.Database.MigrateLegacyJson: the users mirror, which a later start can rebuild, is omitted; a column is told only by whether it is null.
- Migrations.Schema.RunMigrations: what the SQL texts do to tables is left to SQLite; a transaction is atomic.
- DatabaseStart.HandleIsMigratedIff: a transaction is one step, so statements that another holder of the same connection issues inside it are not modelled.
- VarsSchema.ValidateAndNormalise: names inherited from the object prototype, such as constructor, are not looked up.
- ArtifactStore.Store.PutPlanArtifact: here creating and filling a file is one step (`ArtifactRaces` splits it); symbolic links are not part of this model.
- SSH, SQLite, YAML, cryptography, OAuth, SMTP, the web interface and the catalogue's data tables.
- Decision tables such as rbac.ts and distro-compat.ts: each answer is one branch over its own input, with no state and no second function it has to agree with.
