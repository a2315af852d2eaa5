# Proofs about Soloist's parsers, protocols and timers

A Dafny model of the parts of Soloist whose correctness is not plain from reading them, and proofs of
what they promise over every input, every run or every interleaving.

- **Diffs** (`DiffParse`, `DiffLaws`, `DiffBinary`, `Patch`, `PatchNames`, `DiffExtent`). The reader of
  `git diff --numstat --patch`, the patch built from one hunk, and the diff a reader is shown. A patch is a
  sequence of lines; scanning cuts it into blocks, grouping folds rangeless blocks forwards, and the
  theorems say how the text of what comes out parses again. The hunk-line syntax is that of the section
  "Diff -u or -U Output Format" of POSIX.1 `diff`.
- **NUL-separated streams** (`StatusParse`, `LogParse`, `LineCounts`). For each reader, a printer of the
  form git documents and the law that reading inverts it.
- **Contained runs** (`Exec`, `ExecWait`). What a run says about itself, however its stream was cut into
  reads, and a wait that is bounded and throttled, and hands over the last remark the run ended.
- **Time** (`Debounce`, `SpawnLimiter`, `ReadCache`). Classes with integer instants, each refining a pure
  step function; the rate and freshness bounds are about whole runs of that function.
- **Protocols** (`Terminal`, `IpcServer`, `IpcClient`, `Settings`, `PtyBridge`, `IntegrationServers`).
  State machines over the steps the locks make atomic, with theorems over every interleaving of them.
- **Encodings and files** (`Frame`, `Hash`, `CompanionBins`, `LogTail`). Framing, hex, the field encoding
  fed to a digest, a comparison of two buffered files, and the end of a log.
- **Shared ground** (`Bytes`, `Utf8`, `Decimal`, `Wrappers`). Splitting and rejoining bytes, UTF-8
  (section 3 of RFC 3629) with the lossy reading Rust gives it, and decimal numbers of a given width.

Methods follow the source's own loops and fields and are proved against pure functions; the theorems are
about those functions. Text is bytes throughout: where the source reads bytes as text, the model applies
the exact lossy conversion, so "byte for byte" claims are stated with the condition under which they hold.
Time, what each read brings, what each write does, and what a lock's holder is told by the system are
inputs, chosen freely. Integer widths are modelled where the source's type bounds what is read or added.

## Where the code and its own account of itself differ

The code is modelled as it is; these are the exact conditions under which each promise holds.

- A diff "cut anywhere" is still a patch of the hunks it keeps exactly when no line kept turns into an `@@` line
  once its undecodable bytes are replaced: `DiffLaws.CutReparsesIff`, `DiffLaws.CutIsSafeIff`. UTF-8 always
  qualifies. A hunk line whose section heading is not UTF-8 never does: `Patch.HiddenByItsHeading`.
- The patch built from a hunk parses to that hunk exactly when none of its own lines hides a hunk line:
  `Patch.HunkReparsesIff`. It is version control's own bytes exactly when they are UTF-8: `Patch.OwnBytesIff`. One
  byte of Latin-1 is enough to lose either: `PatchNames.LatinMisleads`.
- Hunks joined in order are "byte for byte" what git printed exactly when that was UTF-8: `DiffLaws.NothingIsLost`.
- A patch is said never to name two files. It names one exactly when every path in the diff has a hunk before the
  next path begins: `PatchNames.NamesOneFileIff`. With several paths a later hunk can also go under the first path's
  header: `PatchNames.GoesUnderItsOwnFileIff` says when, and `PatchNames.SeveralPathsMislead` shows both.
  In a diff with one `diff --git` line neither happens: `PatchNames.OnePathOneHunk`. Callers ask for one change, but a
  rename asks for both its paths, and a change of type prints two such lines for one path.
- A watcher is promised to hear what its run says last. Only what a carriage return or a newline ends is ever published,
  so a watcher is told everything said exactly when nothing is said after the last of them: `Exec.AllIsEndedIff`,
  `ExecWait.RunWatched`. A run with no line ending in what it says is not heard at all: `Exec.NothingEndedNothingMade`.
- A request for a hunk a file has moved past is said to find nothing. It finds nothing exactly when no hunk line of the
  later diff states its range: `Patch.RequestFindsNothingIff`. The same lines edited again keep the range, and the
  request then finds what they have become: `PatchNames.StaleRequestFinds`.
- A run whose standard output fails to be read is killed, and then returned as finished with the part that was read:
  `ExecWait.OutputIsWholeIff`.
- A wait with no time at all comes to a different end in steps than in one receive, when the run's end is already
  there: `ExecWait.StepsComeToOneWait`.
- Counts cut off inside a path are reported complete, and are exact: `LineCounts.NumstatCutAnywhere`.
- A branch whose name is the word printed for a detached head is reported as having none:
  `StatusParse.BranchNameKeptIff`.
- A history stream cut inside its last record's body reports that record with the part of the body that came:
  `LogParse.LogCutAnywhere`.
- A frame stream cut inside a length prefix reads as closed, where the comment on the reader calls a partial
  frame an error: `Frame.FramesCutAnywhere`.
- The spawn cap is on windows that begin where the limiter says. Checks that span less than a window pass it exactly
  when one of them begins a window that, with the one before, has taken more than the cap of them:
  `SpawnLimiter.PassesTheCapIff`. Twice the cap fits within a millisecond, and no more than twice ever does:
  `SpawnLimiter.TwiceTheCapWithinAMillisecond`, `SpawnLimiter.TwiceTheCapAtMost`.
- A destination that cannot be read is said to be simply different. One that opens and then fails to be read, no later
  than the first byte that differs, is an error: `CompanionBins.SameContents`.
- The ceiling on forwarders reclaims "necessarily a leak" exactly while no more than that many attachments are
  uncleared: `PtyBridge.NothingReclaimedIff`.
- The end of a log begins at a line exactly when the log fits or one of its last limit-plus-one bytes ends a
  line: `LogTail.WholeLinesIff`.

## Model

| member | source | states |
|---|---|---|
| `DiffParse.Parse` | crates/git/src/diff_parse.rs:37-68 | the reader's loop, in place over its accumulators, comes to the specified header, hunks and binary flag on every output |
| `DiffParse.Joined` | crates/git/src/diff_parse.rs:73-93 | folding segments forwards and a trailing one back equals grouping the blocks of the patch; a grouping always has a hunk for its trailing block to join |
| `DiffParse.HunkLineRoundTrip` | crates/git/src/diff_parse.rs:97-119 | printing a range as an `@@` line, with or without implied counts and with any text after it, reads back as that range exactly when the rest is UTF-8 and the numbers fit 32 bits |
| `DiffParse.BinaryIffCounted` | crates/git/src/diff_parse.rs:122-125 | a path is binary exactly when a record before the patch carries `-` for both counts |
| `DiffBinary.BinaryIffDashed` | crates/git/src/diff_parse.rs:122-125 | for any printed records, of any two columns without a tab, before any patch: the diff is binary if and only if some record's first two columns are both a single dash |
| `DiffBinary.BinaryIffKept` | crates/git/src/diff_parse.rs:4-6 | of what version control prints before a patch, a path kept as bytes makes the diff binary, and no counts, other record or content does |
| `DiffBinary.BinaryIffLine` | crates/git/src/diff_parse.rs:37-50 | of any output at all, the diff is binary if and only if a line before its patch is a dash, a tab and a dash, with nothing or a tab after them |
| `DiffParse.ScannedShape` | crates/git/src/diff_parse.rs:43-61 | scanning keeps every line of the patch, in order, and opens a block only on a range or on a later path's header after one |
| `DiffParse.Rescan` | crates/git/src/diff_parse.rs:43-61 | scanning the lines of any well-shaped header and blocks gives back exactly that header and those blocks |
| `DiffParse.Regroup` | crates/git/src/diff_parse.rs:73-93 | grouping the concatenation of any well-shaped groups and a pending tail gives back those groups and that tail |
| `DiffLaws.NothingIsLost` | crates/git/src/diff_parse.rs:8-14 | header and hunks joined are the output's bytes from the first line that begins `diff --git ` to the end, read as text, and those very bytes if and only if they are UTF-8; an output with no such line gives nothing |
| `DiffLaws.RangesInOrder` | crates/git/src/diff_parse.rs:43-61 | the hunks' ranges are the ranges of the patch's hunk lines, in order, none missing and none made up |
| `DiffLaws.Reparse` | crates/git/src/diff_parse.rs:37-93 | the text of a rendered diff with no hidden hunk line parses back to that same diff, rangeless blocks and trailing block included |
| `DiffLaws.CutReparsesIff` | crates/git/src/diff_parse.rs:8-14 | for every number of hunks kept, the text re-parses to the same header and exactly those hunks, and even just to their ranges, if and only if no line kept hides a hunk line |
| `DiffLaws.CutKeepsTheFront` | crates/git/src/diff_parse.rs:8-14 | what a cut keeps is lines from the front of the patch, and the last cut keeps all of them |
| `DiffLaws.HiddenHunkResurfaces` | crates/git/src/diff_parse.rs:129-131 | a patch holding a line that becomes a hunk line once read as text does not re-parse to itself |
| `DiffLaws.CutIsSafeIff` | crates/git/src/diff_parse.rs:8-14 | every cut re-parses to itself if and only if no line of the patch hides a hunk line in undecodable bytes |
| `DiffLaws.TextHidesNothing` | crates/git/src/diff_parse.rs:129-131 | a patch that is UTF-8 throughout hides no hunk line |
| `Patch.FindsFirst` | crates/git/src/patch.rs:23-26 | a hunk is found if and only if one states the range, and it is the first that does |
| `Patch.RequestFindsNothingIff` | crates/git/src/patch.rs:10-12 | a request finds nothing in any later output if and only if no hunk line of its patch states the range |
| `Patch.OneHunkReparses` | crates/git/src/patch.rs:22-31 | for any output and range: no patch is built exactly when no hunk has the range; otherwise it is built from the first that does, parses to that hunk alone if and only if none of the patch's own lines hides a hunk line, and is the output's own bytes if and only if those are UTF-8 |
| `Patch.HunkReparsesIff` | crates/git/src/patch.rs:27-30 | the patch for a hunk parses to that hunk if and only if none of the lines it is made of hides a hunk line, whatever the rest of the output holds |
| `Patch.OwnBytesIff` | crates/git/src/patch.rs:5-8 | the patch for a hunk is the output's own bytes, no context line differing from the file's, if and only if those bytes are UTF-8 |
| `Patch.LinesBetweenCuts` | crates/git/src/patch.rs:27-30 | the lines of a hunk are those one more cut keeps, so the conditions above are on stretches of the output itself |
| `Patch.HiddenByItsHeading` | crates/git/src/diff_parse.rs:97-108 | a printed hunk line is hidden if and only if its section heading is not UTF-8 and its numbers fit |
| `PatchNames.NamesOneFileIff` | crates/git/src/patch.rs:10-13 | every patch built from one hunk names exactly one file if and only if every path in the diff has a hunk of its own |
| `PatchNames.OnePathOneHunk` | crates/git/src/patch.rs:5-8 | in a diff of one path every hunk's patch is the header's lines and the hunk's, naming that path only; it re-parses to that header and hunk if and only if none of them hides a hunk line, and is byte for byte the output's if and only if they are UTF-8 |
| `PatchNames.FilesOfPatch` | crates/git/src/patch.rs:27-30 | exactly how many paths the patch for a hunk names, from the headers it carries and those left after it |
| `PatchNames.GoesUnderItsOwnFileIff` | crates/git/src/patch.rs:30-30 | for any output: no path is named between the diff's header and a hunk put under it if and only if no hunk before it carries a later path's header |
| `PatchNames.HeaderIsTheLastIff` | crates/git/src/patch.rs:30-30 | where no two headers before the hunk are the same line, the diff's header is the last of them if and only if that is so |
| `PatchNames.SeveralPathsMislead` | crates/git/src/patch.rs:10-13 | for every six lines of a given shape, one built patch names two files and another goes under a path its hunk did not come from |
| `PatchNames.UndecodableLineMisleads` | crates/git/src/diff_parse.rs:129-131 | for every content line that is not UTF-8, the patch of its hunk is not the output's bytes, and parses to that hunk if and only if the line is not a hidden hunk line |
| `PatchNames.LatinMisleads` | crates/git/src/diff_parse.rs:129-131 | two such outputs: a changed line, and a section heading, with one byte of Latin-1 |
| `PatchNames.StaleRequestFinds` | crates/git/src/patch.rs:10-12 | for every two outputs that differ only in a hunk's content, the same request finds a patch in both, and not the same one |
| `DiffExtent.Assemble` | crates/core/src/git/diff.rs:108-135 | what is carried is the header and some first hunks with their ranges: never none of them, all of them when the extent is full, and stopped only by the hunk that would pass the limit |
| `DiffExtent.CarriedIsAPatch` | crates/core/src/git/diff.rs:100-107 | what is carried parses back to the same bytes, and the hunk an action finds for a listed range is one of those carried; it parses to just the ranges listed if and only if none of the lines carried hides a hunk line |
| `StatusParse.Parse` | crates/git/src/status_parse.rs:42-95 | the record loop, with the original of a rename taken from the following record, comes to the specified report on every output |
| `StatusParse.StatusRoundTrip` | crates/git/src/status_parse.rs:42-145 | printing any branch information and any ordinary, renamed, unmerged, untracked and ignored entries and reading them gives back the branch, its standing and the changes in order; no report if and only if a header is not text, its counts pass 32 bits or a letter is undocumented |
| `StatusParse.ReadEntry` | crates/git/src/status_parse.rs:98-145 | an entry's one or two records are read as exactly that entry whatever follows, paths with spaces and originals that look like record markers included |
| `StatusParse.LettersAreKinds` | crates/git/src/status_parse.rs:147-170 | a letter parses to a kind if and only if it is the documented letter for it |
| `StatusParse.HalvesAreTheLetters` | crates/git/src/status_parse.rs:147-155 | a tracked change, renamed or not, is reported with the kind its first letter names as staged and its second as not, its own path and its original one |
| `StatusParse.SyncIsTheCounts` | crates/core/src/vcs.rs:209-216 | the standing reported: unknown if and only if no counts were printed, up to date if and only if both are zero, ahead by the first or behind by the second if and only if only that one is not, and diverged by both otherwise |
| `StatusParse.AheadBehindRoundTrip` | crates/git/src/status_parse.rs:173-179 | counts ahead and behind read back as printed, or not at all past 32 bits |
| `StatusParse.BranchNameKeptIff` | crates/git/src/status_parse.rs:31-31 | a branch's name comes back if and only if it is not the word for a detached head |
| `LogParse.LogRoundTrip` | crates/git/src/log_parse.rs:26-50 | a stream of six-field records reads as one entry for each record with a numeric date, in order; a bad date costs its own record only |
| `LogParse.HistoryRoundTrip` | crates/git/src/log_parse.rs:41-61 | printing any history, its text UTF-8 or not, and reading it gives its commits in order, as text: merge if and only if more than one parent, body trimmed at its end, or emptied past the limit |
| `LogParse.BodyReadsBack` | crates/git/src/log_parse.rs:41-61 | whatever white space follows it, a body that is UTF-8 reads back as it was written up to there, the white space before it included, when it is no longer than 8 KiB, and as nothing when it is |
| `LogParse.LogCutAnywhere` | crates/git/src/log_parse.rs:26-35 | cut at any byte inside a record, the stream yields every whole record; the cut one is dropped if and only if its last field had not begun, and is read with the part of its body otherwise |
| `LogParse.WordsOfParents` | crates/git/src/log_parse.rs:41-50 | counting white-space separated words counts parents |
| `LineCounts.Parse` | crates/git/src/line_counts.rs:79-122 | the loop's totals are the sums over the records realigned across renames, with completeness lost on a record without three columns or numbers that fit, on a rename the stream ends inside, and on a sum that does not fit |
| `LineCounts.TotalsSnoc` | crates/git/src/line_counts.rs:91-119 | what one more record adds to the totals, and exactly when it costs completeness |
| `LineCounts.OneRecord` | crates/git/src/line_counts.rs:91-104 | of a record of any two columns: both a single dash is binary and whole, two numbers that fit are counted, and anything else counts nothing and is not complete |
| `LineCounts.NumstatRoundTrip` | crates/git/src/line_counts.rs:79-122 | for any printed entries, the counts are complete if and only if the true totals fit the machine's width, and are then those totals, binary paths left out |
| `LineCounts.NumstatCutAnywhere` | crates/git/src/line_counts.rs:79-122 | cut anywhere inside a record, the counts are complete if and only if nothing of it came or its path was begun (a rename's second path reached) and the sums fit; and are then exact, that record's own among them |
| `LineCounts.Inspect` | crates/git/src/line_counts.rs:140-175 | one untracked file: what is read stays within the allowance and one byte; it is settled whenever it is within the limits, and its count is then its lines, or none where one of its first 8000 bytes is zero |
| `LineCounts.LineCountIsLines` | crates/git/src/line_counts.rs:180-183 | the line count is the number of lines, a last one without an ending included, and never exceeds the number of bytes |
| `LineCounts.UntrackedAdditions` | crates/git/src/line_counts.rs:128-178 | never more than one byte past the budget is read, the total never exceeds the bytes read or the true count, is the true count when reported complete, and is complete whenever every path is within the limits; so it never saturates |
| `LineCounts.Read` | crates/git/src/line_counts.rs:30-42 | complete means exact for the two together, and they are complete whenever the tracked totals are, the untracked paths are within limits and the sum fits |
| `Exec.EndedIsTheStream` | crates/exec/src/lib.rs:258-266 | cutting a stream at carriage returns and newlines loses no byte and leaves no ending inside a piece |
| `Exec.EndedTakesApart` | crates/exec/src/lib.rs:255-263 | any pieces without a carriage return or a newline, with either of the two after each and anything such after the last, come apart again as they were |
| `Exec.RemarksOfPieces` | crates/exec/src/lib.rs:255-280 | of such a stream, what is said is each piece's text, its first 512 bytes without the white space around them, where there is any |
| `Exec.AllIsEndedIff` | crates/exec/src/lib.rs:248-266 | everything a stream says is the remarks it ends and what follows the last ending; they are the same if and only if that says nothing |
| `Exec.NothingEndedNothingMade` | crates/exec/src/lib.rs:248-266 | a stream with neither a carriage return nor a newline makes no remark, whatever it says |
| `Exec.HeardNext` | crates/exec/src/lib.rs:258-266 | what one more byte adds to what a stream has said |
| `Exec.ProgressIsRemarks` | crates/exec/src/lib.rs:243-266 | collecting byte by byte, a bounded remark at a time, makes exactly the remarks of the whole stream's pieces, at every byte of it |
| `Exec.Publish` | crates/exec/src/lib.rs:271-280 | a remark is published as text without the white space around it, and the slot then holds just that, over whatever was there; one with nothing else in it is dropped and leaves the slot alone |
| `Exec.Latest.TakeLatest` | crates/exec/src/lib.rs:284-286 | taking empties the slot, so a remark is taken once |
| `Exec.Watch` | crates/exec/src/lib.rs:258-266 | one chunk's bytes publish exactly the remarks they end, after those already made, and the slot then holds the last of them, or what it held when there were none |
| `Exec.ReadDiagnosticsWatched` | crates/exec/src/lib.rs:239-267 | for every division of the stream into reads, what is kept is what the whole stream gives an unwatched run, any text there is in its first bytes up to the limit without the white space around it; what is published is the remarks the whole stream ends, and the slot holds the last |
| `Exec.ReadDiagnostics` | crates/exec/src/lib.rs:224-230 | the unwatched collection keeps the first bytes up to the limit, however they arrive: any text there is in them, without the white space around it |
| `ExecWait.WaitWatching` | crates/exec/src/lib.rs:358-399 | the wait ends at the first look that settles it and as that look says; it times out only having waited the whole limit; the collector is heard as far as it has read by each look, remarks in turn, each at most once, at least an interval apart |
| `ExecWait.Consider` | crates/exec/src/lib.rs:381-389 | a report is made exactly when an interval has passed and the slot holds a remark, and is of that remark, emptying the slot |
| `ExecWait.StepsComeToOneWait` | crates/exec/src/lib.rs:364-397 | for any arrival of the run's end, waiting in steps for a run nobody asks to stop comes to the same outcome as the one receive over the whole limit, if and only if there is any time to wait or nothing has arrived yet |
| `ExecWait.LooksAreBounded` | crates/exec/src/lib.rs:372-397 | the looks taken are bounded by the limit divided by the step, and one more |
| `ExecWait.ReportsTakeTime` | crates/exec/src/lib.rs:381-389 | so many reports span at least one interval fewer |
| `ExecWait.Flush` | crates/exec/src/lib.rs:187-197 | after the collector is done everything published has been heard or superseded, whether or not an interval had passed |
| `ExecWait.LastWordIsHeard` | crates/exec/src/lib.rs:187-197 | once everything published is settled, the last published is the last heard |
| `ExecWait.OutputIsWholeIff` | crates/exec/src/lib.rs:308-337 | a run returns output if and only if it ended and what was read stayed within the ceiling, be it that reading failed first; the output is all it printed if and only if reading did not fail before its end; each other way a run ends is its own error and no other's |
| `ExecWait.RunWatched` | crates/exec/src/lib.rs:141-204 | over a whole run, for every division of what it says into reads and every schedule of looks: what is published is the remarks its stream ends, everything it says if and only if nothing follows the last ending; what is heard is some of them in order, none twice, the last of them last; only that one may come sooner than an interval; the result is what the first look that settles the wait makes of what was read; asked to stop beforehand nothing happens |
| `Debounce.Debouncer.Trigger` | crates/core/src/debounce.rs:69-73 | a trigger begins a burst or prolongs it, as the specified step does |
| `Debounce.Debouncer.TakeIfDue` | crates/core/src/debounce.rs:88-96 | a poll fires exactly when the step says, and ends the burst if it does |
| `Debounce.RunTracksBurst` | crates/core/src/debounce.rs:69-96 | over any run, the three fields determine firing exactly as the whole list of triggers since the last action does |
| `Debounce.PutOffButNotPastTheCeiling` | crates/core/src/debounce.rs:78-84 | within a burst the due instant never moves earlier and never past the first trigger plus the ceiling |
| `Debounce.ActsOnce` | crates/core/src/debounce.rs:88-96 | after an action, no poll acts until another trigger |
| `Debounce.ActionsAreApart` | crates/core/src/debounce.rs:69-96 | two actions are at least the shorter of the quiet window and the ceiling apart |
| `Debounce.ActionsAnswerTriggers` | crates/core/src/debounce.rs:69-96 | actions, with one still pending, never outnumber triggers |
| `Debounce.NeverQuietIsStillActedOn` | crates/core/src/debounce.rs:56-64 | from the ceiling on any poll fires, however recent the latest trigger |
| `SpawnLimiter.SpawnRateLimiter.Check` | crates/httpapi/src/state.rs:104-118 | a check rolls the window over, admits below the cap and counts what it admits, as the specified step does |
| `SpawnLimiter.CapsForASpan` | crates/httpapi/src/state.rs:104-118 | checks that span less than so many windows' lengths, in whatever order their instants come, begin no more windows than that and admit no more than one cap more |
| `SpawnLimiter.WindowsAreApart` | crates/httpapi/src/state.rs:104-118 | windows begin a window's length apart |
| `SpawnLimiter.PassesTheCapIff` | crates/httpapi/src/state.rs:78-80 | checks that span less than the window pass the cap if and only if one of them begins a window that, with the one before, has taken more than the cap of them |
| `SpawnLimiter.TwiceTheCapAtMost` | crates/httpapi/src/state.rs:78-80 | no checks in a row that span less than the window, in whatever order their instants come, admit more than twice the cap |
| `SpawnLimiter.RefusedOnlyWhenFull` | crates/httpapi/src/state.rs:104-118 | a refusal means a full cap was admitted since a check less than a window before it |
| `SpawnLimiter.SubCapIsNeverRefused` | crates/httpapi/src/state.rs:78-80 | a caller below the cap in every window's length is never refused |
| `SpawnLimiter.TwiceTheCapWithinAMillisecond` | crates/httpapi/src/state.rs:104-118 | twice the cap can be admitted within one millisecond, so the first bound is tight |
| `ReadCache.ReadCache.GetOrTryInit` | crates/core/src/cache.rs:51-70 | the fresh cached value is served; otherwise the computation's outcome is, and only a success replaces what is cached |
| `ReadCache.ReadCache.Invalidate` | crates/core/src/cache.rs:76-78 | nothing is cached afterwards |
| `ReadCache.Provenance` | crates/core/src/cache.rs:51-78 | whatever is cached after any run was put there by one successful computation with nothing invalidated since |
| `ReadCache.ServedIsFresh` | crates/core/src/cache.rs:25-31 | every value served was computed by this very read, or less than the time to live ago with no invalidation since; a failure is only ever the reader's own |
| `ReadCache.ComputesAreApart` | crates/core/src/cache.rs:25-31 | with no invalidation between them, a computation after a success comes at least the time to live later |
| `Terminal.Terminals.Open` | crates/core/src/terminal.rs:171-193 | a relaunch goes on with the channel its process already has; a first launch gets a new one; no other process's entry changes |
| `Terminal.Terminals.Record` | crates/core/src/terminal.rs:128-134 | a chunk joins the scrollback and is published, at one channel only, the scrollback shedding from its front |
| `Terminal.Terminals.MarkRestart` | crates/core/src/terminal.rs:142-150 | the mark joins the scrollback and is published, if there was output to mark off |
| `Terminal.Terminals.Clear` | crates/core/src/terminal.rs:271-279 | clearing empties one process's scrollback and publishes nothing; it says whether there was one |
| `Terminal.Terminals.Attach` | crates/core/src/terminal.rs:213-220 | a viewer gets what the scrollback holds and a receiver from that very point of the stream on |
| `Terminal.EachProcessAlone` | crates/core/src/terminal.rs:155-193 | over every interleaving of every process's steps, what is held for a process is what its own launches, output and clearing alone would make |
| `Terminal.NoGapNoDuplicate` | crates/core/src/terminal.rs:208-220 | over every interleaving, a viewer's snapshot followed by all later published to it is a suffix of its process's stream: each later chunk once, in order, nothing missing between and nothing in both |
| `Terminal.ViewerSeesEverything` | crates/core/src/terminal.rs:208-220 | while a process's own output fits and none of it is shed or cleared, whatever other processes meet, a viewer sees all of it from the first byte |
| `Terminal.StreamGrows` | crates/core/src/terminal.rs:128-150 | a process's stream is only ever appended to, relaunches included |
| `Terminal.RecordIsKeptAndSent` | crates/core/src/terminal.rs:128-134 | after any run, a chunk is published and joins what its process's terminal keeps: the last bytes of the two, 256 KiB at most, less what had to be shed |
| `Terminal.RestartIsMarkedIff` | crates/core/src/terminal.rs:142-150 | after any run, a launch is marked if and only if the terminal keeps something from before it; the mark is then published once and joins what is kept, and otherwise nothing changes |
| `Terminal.ClearingEmpties` | crates/core/src/terminal.rs:271-279 | after any run, clearing leaves nothing to replay and takes nothing from the stream |
| `Terminal.ScrollbackIsBounded` | crates/core/src/terminal/buffers.rs:92-105 | over any run, no terminal keeps more than 256 KiB to replay |
| `IpcServer.ServeRequest` | crates/app/src/ipc_server.rs:166-202 | one request: its remarks out while the peer takes them, run to its answer in any case, the answer last |
| `IpcServer.HandleConnection` | crates/app/src/ipc_server.rs:137-204 | the loop's acts are the specified session for any turns: it ends on a stop, a close, a failed read or a failed write |
| `IpcServer.ReplyDiscipline` | crates/app/src/ipc_server.rs:154-202 | read back by a peer, the frames written are one group of remarks and answer for each completed request, in the order asked, each with its own answer; remarks without an answer come only last, of the last request served, and only when a write failed while it was |
| `IpcServer.EveryRequestIsAnswered` | crates/app/src/ipc_server.rs:154-202 | the requests read are those of the turns served, each run to its own answer, and none is read at or after an observed stop |
| `IpcServer.SessionIsOpenedAndClosedOnce` | crates/app/src/ipc_server.rs:137-204 | the session is opened first, closed last, each once; a peer not accepted gets neither |
| `IpcClient.Exchange` | crates/mcp/src/client.rs:294-326 | one exchange reads frames until an answer, handing over the remarks before it; a remark not asked for, a close or a bad frame is a transport failure |
| `IpcClient.ExchangeTakesAGroup` | crates/mcp/src/client.rs:306-326 | an exchange that asks for remarks takes exactly one group of frames off the stream, or fails having found none, whatever part of a frame the stream ends in |
| `IpcClient.UnaskedExchange` | crates/mcp/src/client.rs:306-318 | one that asks for none takes exactly the first frame, and is answered by it or fails with nothing handed over when it is a remark; it fails too when there is no frame |
| `IpcClient.EachExchangeGetsItsOwnAnswer` | crates/mcp/src/client.rs:294-326 | end to end through the bytes, each exchange asking for remarks or not: the i-th gets exactly the remarks and the answer of the i-th request the server completed, as far as one that is told what it did not ask for; that one fails, as does one past the last request, whatever part of a frame a failing write left behind |
| `IpcClient.OwnAnswers` | crates/mcp/src/client.rs:294-326 | where every exchange so far asked for remarks or was told none, the i-th got its own answer |
| `Settings.SettingsStore.Get` | crates/core/src/settings.rs:230-232 | the record there is, else the defaults; or the store's failure |
| `Settings.SettingsStore.Update` | crates/core/src/settings.rs:238-247 | one read-modify-write with a mutator that rejects nothing; a failed load or save changes nothing |
| `Settings.SettingsStore.TryUpdate` | crates/core/src/settings.rs:253-269 | the same with a mutator that may reject, a rejection changing nothing |
| `Settings.UpdatesAreSerial` | crates/core/src/settings.rs:213-218 | over every interleaving, failure and panic: each record is its committed changes applied in turn, none lost; a call that answered committed once, its answer being its change applied to all before; a call that failed or was rejected committed nothing; one call at most is past the lock |
| `Settings.SaveKeeps` | crates/core/src/settings.rs:234-247 | a save, made under the lock, is the change applied to what the record then is |
| `Settings.CommittedInRealTime` | crates/core/src/settings.rs:234-247 | a change committed before a call came is before that call's change in the order they take effect |
| `Settings.NeverStuck` | crates/core/src/settings.rs:239-242 | while any call is running one of them can take its next step, a panicked one's lock included |
| `Settings.CallIsOneUpdate` | crates/core/src/settings.rs:253-269 | from taking the lock to its answer, a call's steps come to the method's own result and record |
| `PtyBridge.PtyBridge.Install` | crates/app/src/pty_bridge.rs:48-65 | the new forwarder is held under the next token, then the smallest tokens are reclaimed down to the ceiling |
| `PtyBridge.PtyBridge.Clear` | crates/app/src/pty_bridge.rs:69-74 | the forwarder under the token is aborted, or nothing happens |
| `PtyBridge.PtyBridge.Oldest` | crates/app/src/pty_bridge.rs:57-59 | the smallest token held |
| `PtyBridge.BoundedAndAccounted` | crates/app/src/pty_bridge.rs:14-17 | over any run no more are live than the ceiling, and each handle installed is live under its own token or was aborted exactly once |
| `PtyBridge.InstallReclaimsTheOldest` | crates/app/src/pty_bridge.rs:53-63 | with room nothing is reclaimed; with none exactly the smallest token is |
| `PtyBridge.LostOnlyToLaterInstalls` | crates/app/src/pty_bridge.rs:53-63 | an uncleared token that is lost has had at least as many later installs as the ceiling |
| `PtyBridge.StillLive` | crates/app/src/pty_bridge.rs:53-63 | a token not cleared since, with fewer later installs than the ceiling, is live with its own handle |
| `PtyBridge.NothingReclaimedIff` | crates/app/src/pty_bridge.rs:53-55 | the ceiling takes nothing from anybody if and only if there are never more uncleared tokens than it allows |
| `PtyBridge.StaleClearIsNothing` | crates/app/src/pty_bridge.rs:9-12 | clearing a token that is gone changes nothing, over any run |
| `IntegrationServers.ToggleableServer.Toggle` | crates/app/src/integration_servers.rs:49-66 | a server is started, drained or left alone as its setting asks |
| `IntegrationServers.IntegrationServers.Apply` | crates/app/src/integration_servers.rs:123-129 | each server follows its own setting while serving, and neither does anything once stopped |
| `IntegrationServers.IntegrationServers.Shutdown` | crates/app/src/integration_servers.rs:133-142 | both are stopped, and neither follows a setting again |
| `IntegrationServers.RunsNeverOverlap` | crates/app/src/integration_servers.rs:46-66 | over any run of settings: each run is drained before the next starts, there is one for each time the setting went on before a shutdown, and one is going if and only if the last setting says so and nothing was shut down |
| `IntegrationServers.StoppedForGood` | crates/app/src/integration_servers.rs:118-142 | after a shutdown nothing that follows does anything, another shutdown included |
| `Frame.WriteFrame` | crates/ipc/src/frame.rs:31-45 | a frame is appended whole, or nothing at all when the body is past the limit, or, where the stream fails, exactly as much of the frame as it carried |
| `Frame.ReadFrame` | crates/ipc/src/frame.rs:49-67 | a read fails with the stream exactly when it asks for more than the stream carries before failing; otherwise it takes exactly one frame's bytes and says what it came to; no buffer it fills is larger than a frame may be |
| `Frame.BigEndianRoundTrip` | crates/ipc/src/frame.rs:39-53 | a length prefix reads back as the length it was written from |
| `Frame.FramesRoundTrip` | crates/ipc/src/frame.rs:31-67 | any list of messages written one after another reads back as that list, and then as closed |
| `Frame.FramesCutAnywhere` | crates/ipc/src/frame.rs:47-67 | cut after any byte, a stream yields exactly the messages whose frames are whole; then closed or ended too soon, according to whether a prefix had arrived |
| `Frame.OversizedIsRefused` | crates/ipc/src/frame.rs:60-63 | a prefix past the limit is refused, with nothing past it taken |
| `Frame.UndecodableIsMalformed` | crates/ipc/src/frame.rs:64-66 | a whole frame that does not decode is taken and is an error of its own |
| `Hash.ToHex` | crates/core/src/hash.rs:22-29 | the loop's text is the hex of the digest, high digit first |
| `Hash.FromHex` | crates/core/src/hash.rs:32-43 | fails on exactly the lengths other than 64 and the characters that are not hex; otherwise encoding the digest gives the input in lower case |
| `Hash.HexRoundTrip` | crates/core/src/hash.rs:22-43 | decoding an encoding gives the digest back |
| `Hash.HexIsInjective` | crates/core/src/hash.rs:22-29 | digests with one encoding are one digest |
| `Hash.HexIsLowerHex` | crates/core/src/hash.rs:22-29 | an encoding is lower-case hex throughout |
| `Hash.Hasher.Field` | crates/core/src/hash.rs:80-84 | a field feeds the digest its length and then its bytes |
| `Hash.FieldsAreUnambiguous` | crates/core/src/hash.rs:78-84 | two lists of fields feed the digest the same bytes if and only if they are the same list |
| `Hash.LittleEndianIsWorth` | crates/core/src/hash.rs:80-84 | the eight bytes fed before a field are its length, the lowest first |
| `CompanionBins.SameContents` | crates/app/src/companion_bins.rs:82-106 | however either file's reads are divided: different where a length is missing or they differ or `dest` will not open; an error where `src` will not, or where either fails to be read no later than the first byte they differ in or their end; otherwise whether they are equal |
| `CompanionBins.SameIsSame` | crates/app/src/companion_bins.rs:79-81 | comparing says the same if and only if the bytes are equal and neither file fails to be read as far as its end |
| `LogTail.Tail` | crates/forge/src/log.rs:35-51 | the loop's cut is the specified one: past the limit, the next character boundary, then past the first line that ends |
| `LogTail.TailIsText` | crates/forge/src/log.rs:40-46 | of any output, what is kept is text and within the limit |
| `LogTail.TailIsTheEnd` | crates/forge/src/log.rs:30-34 | what is kept of a text is text, within the limit and its very end, byte for byte |
| `LogTail.EveryLaterLineIsKept` | crates/forge/src/log.rs:46-50 | every line that follows a line's end among the last bytes there is room for is kept |
| `LogTail.WholeLinesIff` | crates/forge/src/log.rs:30-31 | what is kept begins a line if and only if the log fits or a line ends among its last bytes, one more of them than the limit |
| `LogTail.WhatFitsIsWhole` | crates/forge/src/log.rs:37-39 | a log that fits is handed over whole |
| `LogTail.TailBegins` | crates/forge/src/log.rs:42-50 | of one that does not, what is handed over begins after the first line to end past the first character boundary in the last bytes, or at that boundary when none does |
| `Utf8.ScalarIsChar` | crates/git/src/diff_parse.rs:129-131 | every number a character may have is encoded as one character |
| `Utf8.CharIsScalar` | crates/git/src/diff_parse.rs:129-131 | every character decoded is the encoding of such a number, so what counts as UTF-8 is what section 3 of RFC 3629 says |
| `Utf8.BrokenIsMaximal` | crates/git/src/diff_parse.rs:129-131 | decoding breaks off after the longest front of a character there is, or after one byte, and that much is replaced |
| `Utf8.TrimGivesBack` | crates/exec/src/lib.rs:228-228 | trimming text, whatever white space is put around it, gives that text back |
| `Utf8.TrimEndTakesSpace` | crates/git/src/log_parse.rs:48-48 | what trimming takes off an end is white space characters and nothing else |
| `Utf8.KeptIffValid` | crates/git/src/diff_parse.rs:129-131 | reading as text loses nothing if and only if the bytes were text |
| `Utf8.LossyAfterAscii` | crates/git/src/diff_parse.rs:129-131 | reading as text may be done line by line: it distributes over any boundary an ASCII byte ends |
| `Utf8.LossyIsValid` | crates/forge/src/log.rs:36-36 | what lossy reading produces is always text |

## Left out

- Processes, signals, pipes, sockets, files and clocks as facts of the system: what they give is an input of
  the models, as byte streams cut anywhere, outcomes and integer instants.
- The JSON codec inside frames and SHA-256 itself: a codec is a parameter, and injectivity is of the bytes fed
  to the digest.
- Terminal.NoGapNoDuplicate: a receiver that falls behind the live channel's capacity and is told it lagged is
  not modelled, nor is removing a terminal outright; both end the stream the law is about.
- Terminal.Terminals.Record: how much the budget shared by all terminals sheds is an input of each step, chosen
  freely, so the laws hold for any accounting of it. The rendered screen, its parser and its signals are not modelled.
- Terminal.Terminals.Open: channels shared by reference are places in one sequence, so sharing is an equal index.
- IpcClient.Exchange: its deadlines, a connection that errors instead of ending, and a remark dropped because nobody
  is keeping up with them are not modelled; each only cuts an exchange short or drops what it hands over.
- Frame.WriteFrame: flushing, which does nothing on the sockets frames are written to.
- IpcServer.HandleConnection: a turn's remarks are those taken up before its answer came; which remarks lose that
  race, and are then dropped, is an input.
- Settings.UpdatesAreSerial: a save that fails is taken to have changed nothing, as the store's own transactions
  promise; the store is not part of this model.
- PtyBridge.PtyBridge.Install: tokens do not wrap, which in the source takes 2^64 installs.
- IntegrationServers.IntegrationServers.Apply: both servers are present; a slot compiled out does nothing.
- StatusParse.Parse: what `GitStatus::new` does with the branch and the changes handed to it.
- LineCounts.Read: the commands that find the base to count from, and the base of a repository without a commit.
- The accept loop and its backoff, restart policy, trust requests, leases, the mailbox and the supervisor's
  actor: their state is a counter or a queue, and what could be said of each is plain from its body.
- HTTP routes and their checks, command-line parsing and rendering, the error tables, the forge's JSON, and
  everything of the interface.
