# Verified model of the copy-fail validator

The validator runs host checks concurrently, tallies their results, and prints reports. This
project models its hardest parts in Dafny and proves what they promise, over every input, every
schedule and every interleaving.

- `Report`: results, `NewSummary`, and the three verdicts (exit code, SARIF flag, human footer).
- `Runner`, `RunnerTheorems`, `RunnerOrder`, `RunnerLimit`, `RunnerMachine`: the check Runner as a step
  relation with one action per channel or mutex operation (dispatcher, bounded semaphore, workers, cancel,
  the two-way select, freeze and backfill); theorems over all schedules; the order in which checks are
  dispatched and begin; how many are at work at once; and the shared state as a class with arrays, each
  method proved to do exactly one action.
- `Conf`, `ConfTheorems`, `ConfLayout`: the modprobe.d line-joining loop, proved against a block-by-block
  definition; conservation, line numbers, malformed blocks; the layout round trip.
- `ConfDir`, `ModprobeChecks`: the sorted directory scan, "later wins", and the two checks built on it.
- `CanonJson`, `CanonJsonDecode`, `CanonJsonText`, `CanonJsonDoc`: the canonical JSON printer, a decoder
  that inverts it, which spelling of a string is printed, and source documents.
- `Prom`, `PromOrder`, `Textfile`: the check_state section with a reader for it (the Prometheus text
  exposition format), which reports have one text, and the atomic textfile write as a protocol over an
  abstract directory.
- `Rpm`, `RpmLines`: the `rpm -V` fold, and what the parser makes of a raw line.
- `Redact`, `RedactPattern`, `RedactLines`: the secret redactor; its pattern's keyword group as an
  expression; redaction line by line, and exactly when the redactor is line-bounded.
- `OsRelease`: the os-release(5) parser. `CappedBuffer`: the bounded output buffer.
- `Text`, `Sorting`, `Sequences`, `Buffers`, `Wrappers`: what these share (Go's string functions on code
  points, an in-place sort by key, facts on multisets, an append-only text buffer).

`dafny verify dfyconfig.toml` checks the whole project.

## Where the code and its documentation disagree

The model follows the code. Each entry names the exact condition under which the documentation is
right, proved for all inputs, and an input or run that breaks it.

- Exit code 0 is documented as "every required check passed". The two agree on a report exactly when it
  has no required skip and no required result of unknown state, or has a required fail or error beside
  it (`ExitOkMeansAllPassed`); a required skip alone breaks it (`ExitOkWithARequiredSkip`).
- Workers are documented to start in input order. The go statements are in that order
  (`DispatchedInInputOrder`), but nothing orders the first steps of two goroutines: every schedule begins
  its checks in input order exactly when the concurrency is 1 or there are fewer than two checks
  (`StartsInInputOrder`, `SecondBeginsFirst`). A check overtakes fewer earlier ones than there are tokens
  (`OvertakesFewerThanCapacity`).
- A cancelled Runner is documented to stop dispatching. Some schedule dispatches another check exactly
  while the dispatcher is in its loop, whatever the context says (`AnotherDispatch`, `CheckMayStart`), and
  some schedule begins one exactly while that is so or a spawned worker has not begun
  (`AnotherCheckMayStart`): for any checks, all of them can begin after `Run` has returned
  (`CheckMayStartAfterReturn`).
- Backfill is documented as the cancellation path. In an uncancelled run the backfill wrote a slot
  exactly when its check calls `runtime.Goexit`, with a nil error (`UncancelledBackfill`), and such runs
  exist for all checks (`UncancelledRunExists`).
- A comment in dependency_chain reports a broken symlink as Error. The code reports Fail exactly when
  some `.conf` entry's target does not exist (`ScanErrorVerdict`, `DanglingSymlinkReportsFail`).
- Redaction is documented as line-bounded, each line by itself. That is so exactly when every match that
  spans lines reads "=" and the marker from its separator on (`LineBounded`); a match stays on one line
  exactly when its head has no line feed and its value stays on the separator's line (`MatchOnOneLine`).
  The pattern's first `\s*` crosses in `HeadCrossesLine`, the second in `MatchCrossesLine`.
- `LineNum` is documented as the first line of the joined block. It is, exactly when that line is not a
  continuation backslash alone (`LineNumIsBlockStart`, `LoneBackslash`). As for tokens, the line it names
  starts with the kind unless its payload is exotic spaces (`LineNumIsFirstTokenLine`,
  `LineNumWithoutToken`).
- The capped buffer is documented to set truncated on the first overflow. An empty write to a full buffer
  sets it too (`Buffer.Write` has the exact condition, `EmptyWriteTruncates` an input). Only a direct
  caller of `Write` can reach this: the copy that fills the buffer never writes an empty chunk.
- `Clean` is documented as "matches in every observable way". It holds exactly when every line rpm wrote
  is unparseable or a row about the file that sets no surfaced position (`CleanOverlooks`). So a missing
  file is clean (`MissingFileIsClean`), and so is a file of which only D (device), L (link) or P
  (capabilities) deviates (`UnsurfacedFlagIsClean`, `UnsurfacedColumn`, `CapabilitiesAreClean`).
- `rpm -V` lines on other files are documented to be recorded and to flip no boolean. For absolute paths
  that is so exactly unless the first word of the other file's name is the queried path and the line is
  unmarked, or marked c with a surfaced position (`SiblingLine`, `SiblingFlips`, `SiblingStaysClean`).
- `HashMismatch` is documented as the hash deviation of the queried path. A line is read as what it says
  exactly when its file is one word and its mark is c or absent (`RowIsExact`); with another mark
  nothing it says about the queried path is surfaced (`OtherMarkIsLost`, `DocumentationHashIsLost`).
- The canonical form is documented to depend on the value alone. Member order is immaterial, at
  every depth, exactly when members of one object that share a key have the same value
  (`OrderMattersAtAnyDepth`, `MemberOrderMatters`, `RepeatedKeysDependOnOrder`).
- Keys are sorted by code point; section 3.2.3 of RFC 8785 sorts by UTF-16 code units. The keys of an
  object come out in that order exactly when no two of them cross (`ObjectKeysInUtf16Order`,
  `KeyOrderIsUtf16Order`, `KeyOrdersDiffer`).
- The canonical form is documented as a subset of RFC 8785. Its section 3.2.2.2 escapes quotes, backslashes
  and controls only; a string is printed that way exactly when it holds none of the five characters
  `encoding/json` escapes for HTML (`RfcString`, `ShortestText`).
- The canonical form is documented to write integers without trailing decimals. Literals are copied: it
  does exactly when the literal has no zero decimals (`DecimalsAreCopied`, `OneAndOnePointZero`).
- The Prometheus file is documented as byte-identical for the same report. The sort is not stable, and the
  check_state section is independent of it exactly when results that share a check id agree on severity and
  state (`SectionIsDetermined`, `SharedIdHasTwoTexts`).
- os-release values with unbalanced quotes are documented as skipped. The code skips a line exactly when it
  does not end in the quote it opened, spaces aside (`UnbalancedIsIgnored`), so an escaped quote closes too
  (`EscapedQuoteCloses`).
- `.conf` entries that are no regular files are documented as recorded in the returned error. An entry that
  is not read is recorded exactly when it is not one of those (`SkipIsRecorded`, `NotRegularIsSilent`).
- A modprobe.d line is documented as continued on an unescaped backslash at its end. The code agrees exactly
  unless the line ends in a positive even number of backslashes (`ContinuedWhenUnescaped`,
  `TwoBackslashes`).

## Model

| member | source | states |
|---|---|---|
| Report.NewSummary | report/report.go:67-95 | The counting loop computes the tally: per state, and for required results only, the number of results in that state |
| Report.SummaryMeaning | report/report.go:67-95 | Every figure of the tally is the number of results it stands for: total, the four states, and pass, fail and error among the results whose severity reads "required" |
| Report.SummaryAdditive | report/report.go:67-95 | The tally of two lists joined is the sum of their tallies |
| Report.SummaryPermutation | report/report.go:67-95 | Permuting the results leaves the tally unchanged |
| Report.WriteFooter | internal/render/human.go:150-175 | The footer's first line says PASS exactly when no required result failed or errored, and is reset exactly when it is coloured |
| Report.ExitCodeMeaning | cmd/copyfail-validate/exit.go:12-77 | The code is 2 exactly with a required fail, 4 exactly with a required error and no required fail, and 0 exactly with neither, read off the results themselves |
| Report.VerdictsAgree | internal/render/sarif.go:230-236 | Exit code 0, SARIF success, a footer line that says PASS and "no required result failed or errored" are the same statement, for every result list; otherwise the line says FAIL |
| Report.SaysOne | internal/render/human.go:150-168 | The verdict line reads PASS or FAIL, bold green or bold red with a reset when coloured, word for word |
| Report.ExitOkMeansAllPassed | cmd/copyfail-validate/exit.go:13-18 | Exit code 0 and "every required check passed" agree on a report exactly when it has no required skip or unknown state, or has a required fail or error beside it |
| Report.ExitOkWithARequiredSkip | cmd/copyfail-validate/exit.go:13-18 | A run whose required check was skipped exits 0 |
| Runner.InitialInv | check/runner.go:145-173 | The state Run sets up satisfies the protocol invariant |
| Runner.StepInv | check/runner.go:129-289 | Every action of dispatcher, worker, canceller or Run keeps the invariant: prefix dispatched, tokens balanced, slots owned, each slot written at most once |
| Runner.ExecInv | check/runner.go:129-289 | The invariant holds after every schedule |
| Runner.StepLogFreeze | check/runner.go:213-224 | The freeze and backfill writes exactly the incomplete slots, each once, and every write logged so far still stands |
| Runner.EmptySlotAtFreeze | check/runner.go:200-224 | A slot still incomplete at the freeze of an uncancelled run belongs to a check that exited its goroutine |
| RunnerTheorems.SlotsWrittenOnce | check/runner.go:213-224 | In every interleaving a slot is written at most once, exactly once when frozen, and only by its own worker or the backfill |
| RunnerTheorems.FrozenForever | check/runner.go:64-77 | Once frozen, no step of a leaked worker or the dispatcher changes results, completion, the number of writes to a slot or the returned report |
| RunnerTheorems.UncancelledBackfill | check/runner.go:182-223 | In an uncancelled run the backfill wrote a slot exactly when its check exits the goroutine; only there is the parent error nil |
| RunnerTheorems.BackfillImpliesCancelOrExit | check/runner.go:382-396 | Every backfilled slot carries the cancellation result, with the context's error, or a nil error for a check that exited |
| RunnerTheorems.EverySlotComplete | check/runner.go:291-364 | However the run went, each slot of the frozen report is what its check returned with empty identity fields filled in, its skip, its panic, the error of the cancelled context, or the nil-error result of a goroutine that exited; each under the check's identity and with its exact texts |
| RunnerTheorems.UncancelledRunIsSequential | check/runner.go:129-237 | Under every schedule an uncancelled run returns the report of running the checks one after another, in input order |
| RunnerTheorems.CancelledCheckEndsAnyhow | check/runner.go:123-128 | A check that a cancellation reaches may end in any way, and before the freeze its own result stands |
| RunnerTheorems.RunsToReturn | check/runner.go:129-237 | From every reachable state some schedule without a cancellation ends in the return |
| RunnerTheorems.UncancelledRunExists | check/runner.go:129-237 | For all checks and capacities an uncancelled run exists and returns the sequential report, exited checks included |
| RunnerTheorems.BackfilledRequiredSlotExits | check/runner.go:213-226 | A returned run with a backfilled required slot exits 2 or 4 and is no success |
| RunnerTheorems.TokensBounded | check/runner.go:167-194 | Tokens held are the dispatched unreleased workers plus the one about to be spawned, at most the capacity; the dispatched checks are a prefix |
| RunnerTheorems.SequentialAtCapacityOne | check/runner.go:160-167 | With concurrency 1 every earlier check is past its slot write and has released before the next is dispatched |
| RunnerLimit.ConcurrencyIsTheLimit | check/runner.go:95-98 | For any setting: Concurrency when positive, the number of CPUs otherwise, is the least number of checks at work that no run exceeds; some run has that many at work, or all of them |
| RunnerLimit.ConcurrencyOrders | check/runner.go:95-98 | Every schedule begins the checks in input order exactly when the setting allows one check at a time or there are fewer than two |
| RunnerOrder.DispatchedInInputOrder | check/runner.go:160-194 | In every schedule the go statements are for checks 0, 1, 2 and so on, each once |
| RunnerOrder.StartsInInputOrder | check/runner.go:36-45 | Every schedule begins its checks in input order exactly when the concurrency is 1 or there are fewer than two checks |
| RunnerOrder.SecondBeginsFirst | check/runner.go:36-45 | With two tokens and two checks a legal schedule begins check 1 first |
| RunnerOrder.StartsOnce | check/runner.go:246-260 | In every schedule each check begins at most once, and has begun exactly when its worker is past its first step |
| RunnerOrder.OvertakesFewerThanCapacity | check/runner.go:160-167 | A check that begins overtakes fewer earlier checks than there are tokens |
| RunnerTheorems.RankDrops | check/runner.go:177-254 | Every step of every process lowers a rank |
| RunnerTheorems.ScheduleBounded | check/runner.go:177-254 | A schedule plus the rank it ends with is no longer than the rank it started with |
| RunnerTheorems.EveryScheduleEnds | check/runner.go:177-254 | No schedule over n checks is longer than 8n + 6 steps |
| RunnerTheorems.NoDeadlock | check/runner.go:130-206 | No reachable state before the return is stuck, and the step offered runs a check's own code only while a started check has not ended |
| RunnerTheorems.MaximalScheduleReturns | check/runner.go:177-237 | A schedule only a cancellation could extend has returned |
| RunnerTheorems.CancelledRunReturns | check/runner.go:200-237 | Once cancelled, Run returns by at most three steps of its own from any reachable state, while no worker moves |
| RunnerOrder.AnotherDispatch | check/runner.go:173-190 | In every reachable state, cancelled or not, some schedule dispatches another check exactly when the dispatcher has not left its loop |
| RunnerOrder.DispatchMayStop | check/runner.go:182-190 | At its select the dispatcher can take a step that ends dispatching for good exactly when the context is done |
| RunnerOrder.AnotherCheckMayStart | check/runner.go:64-77 | In every reachable state, cancelled or not, some schedule begins another check exactly when the dispatcher has not left its loop or a spawned worker has not begun |
| RunnerOrder.CheckMayStart | check/runner.go:182-194 | Check k has begun or can still begin exactly when it was dispatched or the dispatcher has not left its loop |
| RunnerOrder.CheckMayStartAfterReturn | check/runner.go:182-194 | For any checks and capacity a cancelled run returns with every slot backfilled, and all checks can begin afterwards |
| RunnerOrder.UnendedSlot | check/runner.go:213-223 | A check not dispatched, not begun or not ended leaves the context's error in its slot when the run returns |
| RunnerMachine.RunState.constructor | check/runner.go:151-167 | The freshly made state is the protocol's initial state |
| RunnerMachine.RunState.DispatcherStep | check/runner.go:177-198 | The dispatcher's updates between two channel operations are exactly the protocol's action |
| RunnerMachine.RunState.BeginCheck | check/runner.go:260-260 | A worker entering its check is exactly the protocol's action |
| RunnerMachine.RunState.Execute | check/runner.go:260-260 | A check's end, by skip, return, panic or goroutine exit, is exactly the protocol's action |
| RunnerMachine.RunState.RecordResult | check/runner.go:267-273 | The worker's critical section writes its slot exactly when the run is not frozen and the slot is free |
| RunnerMachine.RunState.Unwind | check/runner.go:253-254 | The deferred calls give back the token, then the wait group count |
| RunnerMachine.RunState.Backfill | check/runner.go:217-223 | The loop fills every incomplete slot with that check's cancellation result and keeps every other slot |
| RunnerMachine.RunState.FreezeAndBackfill | check/runner.go:213-224 | Freeze, backfill and unlock are one atomic action |
| RunnerMachine.RunState.Summarise | check/runner.go:226-226 | The summary returned is the tally of the frozen results |
| RunnerMachine.RunState.CanDo | check/runner.go:182-206 | Whether an action can happen now, read off the concrete state, is the protocol's enabledness |
| RunnerMachine.RunState.Do | check/runner.go:129-289 | Any action of any process changes the shared state exactly as the protocol says |
| RunnerMachine.Run | check/runner.go:129-237 | Under any scheduler: no checks give an empty report; otherwise exactly the enabled proposals are taken, in every state at most Concurrency checks are at work (the number of CPUs when it is not positive), with Concurrency 1 they begin in input order, the report is the frozen results with their tally, and without a cancel it is the sequential report |
| RunnerLimit.LegalIsTaken | check/runner.go:129-237 | A list of proposals is taken as it stands exactly when it is a legal schedule, so Run has every run of the protocol |
| Conf.ParseConfReader | internal/kernelmod/conf.go:154-256 | The one-pass loop over the pending builder computes the block-by-block parse, error included |
| Conf.Extend | internal/kernelmod/conf.go:201-210 | Writing a continued line keeps the builder's meaning: its fields are the tokens of the open block, it is empty exactly when no line contributed, and its start is the first line that did |
| Conf.Flush | internal/kernelmod/conf.go:213-233 | A line that is not continued ends the open block: an error leaves the parse of the whole file, success the loop's meaning with a fresh block |
| Conf.FlushAtEnd | internal/kernelmod/conf.go:240-253 | What the builder holds at end of file completes the parse of the whole file |
| ConfTheorems.LineTokens | internal/kernelmod/conf.go:179-227 | A line contributes the fields of its text without comment, and without the backslash when it is continued |
| ConfTheorems.TokensConserved | internal/kernelmod/conf.go:154-294 | On success the directives' tokens, joined, are exactly the tokens of all lines in order |
| ConfTheorems.LineNumbers | internal/kernelmod/conf.go:203-227 | Line numbers strictly increase; each names a line of the file that contributes, and everything in front of it belongs to the directives before |
| ConfTheorems.LineNumIsBlockStart | internal/kernelmod/conf.go:92-97 | LineNum is the first line of the joined block, blank lines aside, exactly when that line contributes something |
| ConfTheorems.LoneBackslash | internal/kernelmod/conf.go:201-210 | A backslash alone on line 1 gives the directive line number 2 |
| ConfTheorems.LineNumIsFirstTokenLine | internal/kernelmod/conf.go:203-227 | The line a directive is attributed to starts with its kind, unless its payload is only spaces other than blank and tab |
| ConfTheorems.LineNumWithoutToken | internal/kernelmod/conf.go:201-210 | A vertical tab and a backslash take the line number without giving a token |
| ConfTheorems.ContinuedWhenUnescaped | internal/kernelmod/conf.go:142-145 | A line is continued as documented, on an unescaped backslash at its end, exactly when it does not end in a positive even number of backslashes |
| ConfTheorems.TwoBackslashes | internal/kernelmod/conf.go:199-210 | A line of two backslashes is continued, and the first of them stays in the text |
| ConfTheorems.BehindBackslash | internal/kernelmod/conf.go:179-201 | Behind the backslash of a continued line a blank, a tab, a comment or another backslash may stand, and nothing else |
| ConfTheorems.SourceIsFile | internal/kernelmod/conf.go:287-293 | Every directive names the file it came from |
| ConfTheorems.MalformedBlock | internal/kernelmod/conf.go:229-232 | On error the directives returned are exactly the parse of the lines before the malformed block, which has fewer than two tokens and whose first contributing line the error names |
| ConfLayout.LineParses | internal/kernelmod/conf.go:179-227 | Every layout of one line gives back its words, and ends a block exactly when it is not continued |
| ConfLayout.LayoutRoundTrip | internal/kernelmod/conf.go:171-294 | Every layout of directives (indentation, gaps, comments, blank lines anywhere, continuation breaks, a final continuation) parses back to the same directives |
| ConfDir.LastInstallMeaning | internal/kernelmod/conf.go:380-400 | The resolution is the last install directive for the module; none exactly when there is none |
| ConfDir.InstallTarget | internal/kernelmod/conf.go:390-400 | The overwriting loop returns the joined arguments of the last install directive |
| ConfDir.LastInstallDirective | preset/copyfail/modprobe_dependency_chain.go:135-145 | The check's own loop finds the same directive and reports its place |
| ConfDir.IsBlacklisted | internal/kernelmod/conf.go:410-417 | True exactly when some blacklist directive names the module |
| ConfDir.LastInstallConcat | internal/kernelmod/conf.go:380-400 | Over concatenation the later list decides unless it is silent |
| ConfDir.BlacklistMonotone | internal/kernelmod/conf.go:402-417 | A concatenation blacklists exactly when one of its parts does |
| ConfDir.ParseConfDir | internal/kernelmod/conf.go:310-378 | The scan visits a sorted permutation of the listing and collects every file's parsed prefix and every error, in that order; it reports an error exactly when some entry does |
| ConfDir.ScanHolds | internal/kernelmod/conf.go:304-309 | The directives are those of every readable .conf file up to its first malformed block, whatever errors other entries raise |
| ConfDir.ConfNames | internal/kernelmod/conf.go:327-331 | The scan looks at exactly the names that end in .conf |
| ConfDir.SkipIsRecorded | internal/kernelmod/conf.go:304-309 | With distinct names a .conf entry that is not read is recorded in the scan's error exactly when it is not one that is no regular file |
| ConfDir.NotRegularIsSilent | internal/kernelmod/conf.go:304-309 | A directory holding one .conf entry that is no regular file scans without an error |
| ConfDir.ScanIndependentOfListing | internal/kernelmod/conf.go:316-322 | With distinct names the scan does not depend on the order of the listing |
| ConfDir.DecidingFile | internal/kernelmod/conf.go:316-378 | The deciding directive is the last one in the greatest-named file holding any |
| ConfDir.ArgsAreWords | internal/kernelmod/conf.go:276-294 | Every argument of a parsed directive is a non-empty word without spaces |
| ConfDir.TargetIsWord | internal/kernelmod/conf.go:382-400 | The joined target equals one word exactly when the argument list is that word alone |
| Text.JoinConcat | internal/kernelmod/conf.go:396-396 | Joined arguments have one blank between any two neighbours |
| Text.CharacterBetween | internal/kernelmod/conf.go:277-277 | A character between two words separates them exactly when it is one of the 25 spaces; otherwise the three are one word |
| ModprobeChecks.RunDependencyChain | preset/copyfail/modprobe_dependency_chain.go:64-127 | The check's verdict over any listing, and the evidence it leaves: the count always, target and place of the last install exactly when the scan had no error, the override pair exactly on a fail with an install |
| ModprobeChecks.ChainPasses | preset/copyfail/modprobe_dependency_chain.go:97-127 | With distinct names and no scan error the check passes exactly when the greatest-named file installing the module has, last, the single argument /bin/false, and fails otherwise |
| ModprobeChecks.ScanErrorVerdict | preset/copyfail/modprobe_dependency_chain.go:77-95 | With scan errors the verdict is Fail exactly when some conf entry's target does not exist, and Error otherwise |
| ModprobeChecks.DanglingSymlinkReportsFail | preset/copyfail/modprobe_dependency_chain.go:79-90 | A dangling symlink is reported as Fail |
| ModprobeChecks.RunConfCorrect | preset/copyfail/modprobe_conf_correct.go:76-129 | The check's verdict over any file, the directive count (0 when there is nothing to parse), and on a well-formed file the resolved target and whether the module is blacklisted |
| ModprobeChecks.CorrectPasses | preset/copyfail/modprobe_conf_correct.go:106-128 | The check passes exactly on a well-formed file whose last install is /bin/false alone and that blacklists the module |
| ModprobeChecks.CorrectVerdict | preset/copyfail/modprobe_conf_correct.go:85-129 | The verdict in every case: Fail exactly when the file is missing, or parses and lacks either a last install with /bin/false alone or a blacklist directive; Error exactly when it cannot be opened or does not parse; Pass otherwise |
| ModprobeChecks.CorrectImpliesChain | preset/copyfail/modprobe_dependency_chain.go:99-127 | In any listing with distinct names that scans without error, a file conf_correct passes makes dependency_chain pass when no greater-named file installs the module |
| CanonJson.Write | internal/canonjson/canonjson.go:49-104 | write appends the canonical form of the value to the shared buffer and touches nothing else |
| CanonJson.WriteItems | internal/canonjson/canonjson.go:68-77 | The array loop appends the items separated by commas |
| CanonJson.SortedKeyList | internal/canonjson/canonjson.go:79-83 | Whatever order the map iteration has, the sorted key list is the unique ascending one |
| CanonJson.WriteMembers | internal/canonjson/canonjson.go:78-99 | The object loop appends the members in ascending key order |
| CanonJsonText.PlainText | internal/canonjson/canonjson.go:62-67 | A string is printed as it is exactly when it has no quote, no backslash, no control character, none of <, >, & and neither U+2028 nor U+2029 |
| CanonJsonText.EscapeConcat | internal/canonjson/canonjson.go:62-67 | The printed text of a string is that of its characters, one after another |
| CanonJsonText.ShortForms | internal/canonjson/canonjson.go:62-67 | The quote, the backslash and five controls take a backslash and their letter |
| CanonJsonText.LongForms | internal/canonjson/canonjson.go:62-67 | Every other escaped character takes \u and its code in four lower-case hexadecimal digits |
| CanonJsonText.RfcString | internal/canonjson/canonjson.go:62-67 | A string is printed as section 3.2.2.2 of RFC 8785 says exactly when it holds none of the five characters escaped for HTML |
| CanonJsonText.ShortestText | internal/canonjson/canonjson.go:62-67 | The canonical form of a string is a shortest text that decodes to it exactly when it holds none of the five characters escaped for HTML |
| CanonJsonDecode.StringRoundTrip | internal/canonjson/canonjson.go:62-67 | The escaped string reads back as the string, for every string (section 7 of RFC 8259) |
| CanonJsonDecode.ReadBack | internal/canonjson/canonjson.go:49-104 | The decoder reads the canonical form of any value back, whatever follows that is no number character |
| CanonJsonDecode.CanonDecodes | internal/canonjson/canonjson.go:49-104 | Decoding the canonical form gives the value |
| CanonJsonDecode.CanonInjective | internal/canonjson/canonjson.go:49-104 | Two values with equal canonical bytes are equal, and conversely |
| CanonJsonDecode.CanonIdempotent | internal/canonjson/canonjson.go:25-37 | Canonicalizing the canonical form returns it unchanged |
| CanonJsonDecode.DecimalsAreCopied | internal/canonjson/canonjson.go:22-24 | An integer literal loses its zero decimals exactly when it has none |
| CanonJsonDecode.OneAndOnePointZero | internal/canonjson/canonjson.go:22-24 | 1.0 comes out as 1.0, and not as 1 does |
| CanonJsonDecode.KeysAscend | internal/canonjson/canonjson.go:83-99 | The member list of every emitted object has strictly ascending keys |
| CanonJsonDoc.CanonIgnoresMemberOrder | internal/canonjson/canonjson.go:22-37 | Permuting object members at any depth gives the same bytes, when members of the document that share a key have the same value |
| CanonJsonDoc.MemberOrderMatters | internal/canonjson/canonjson.go:22-37 | All orders of an object's own members give the same bytes exactly when members that share a key have the same value |
| CanonJsonDoc.OrderMattersAtAnyDepth | internal/canonjson/canonjson.go:22-37 | All reorderings of a document, with members permuted at any depth, give the same bytes exactly when no object in it, however deep, has two members of one key with different values |
| CanonJsonDoc.RepeatedKeysDependOnOrder | internal/canonjson/canonjson.go:25-37 | One key with true and false: the bytes depend on the order |
| CanonJsonDoc.KeyOrderIsUtf16Order | internal/canonjson/canonjson.go:83-83 | On two keys the order is that of section 3.2.3 of RFC 8785 exactly when the first characters that differ are not one outside the basic plane and one from U+E000 up inside it |
| CanonJsonDoc.ObjectKeysInUtf16Order | internal/canonjson/canonjson.go:83-83 | The keys of an emitted object are in that order exactly when no two of them cross |
| CanonJsonDoc.KeyOrdersDiffer | internal/canonjson/canonjson.go:83-83 | U+E000 and U+10000 are ordered the other way round |
| OsRelease.ExpandDoubleQuoteEscapes | internal/hostinfo/osrelease.go:189-214 | Fast path and index loop both compute the expansion of the escapes |
| OsRelease.FastPath | internal/hostinfo/osrelease.go:190-192 | Without a backslash the expansion is the value itself |
| OsRelease.ParseOSRelease | internal/hostinfo/osrelease.go:48-83 | Each field is the last well-formed assignment of its key, or empty |
| OsRelease.LastValueMeaning | internal/hostinfo/osrelease.go:55-77 | The value is that of the last line assigning the key; none exactly when no line does |
| OsRelease.LastValueConcat | internal/hostinfo/osrelease.go:69-76 | Over concatenation the later lines decide unless they are silent |
| OsRelease.JunkIsIgnored | internal/hostinfo/osrelease.go:57-67 | A blank, comment or malformed line changes nothing wherever it stands |
| OsRelease.SpacesAround | internal/hostinfo/osrelease.go:56-56 | Spaces around a line make no difference |
| OsRelease.ExpandInvertsEscape | internal/hostinfo/osrelease.go:189-214 | The expansion inverts every way of escaping a value |
| OsRelease.QuotedRoundTrip | internal/hostinfo/osrelease.go:93-181 | Writing KEY="escaped value" and parsing returns key and value, for every spelling |
| OsRelease.SingleQuotedRoundTrip | internal/hostinfo/osrelease.go:169-173 | Single quotes keep every character |
| OsRelease.BareRoundTrip | internal/hostinfo/osrelease.go:174-180 | A bare value reads back as itself exactly when it neither opens with a quote nor ends in a space |
| OsRelease.QuotedLine | internal/hostinfo/osrelease.go:158-173 | The value of any line that opens a quote: the text to the last character, spaces at the end aside, when that is the same quote; nothing otherwise |
| OsRelease.UnbalancedIsIgnored | internal/hostinfo/osrelease.go:104-110 | A line that opens a quote assigns nothing exactly when, spaces at its end aside, it does not end in that quote |
| OsRelease.EscapedQuoteCloses | internal/hostinfo/osrelease.go:137-173 | KEY="abc\" is accepted: the escaped last quote closes, and the backslash stays in the value |
| OsRelease.FileRoundTrip | internal/hostinfo/osrelease.go:55-82 | In a whole file the written line decides its key, whatever precedes it and whatever junk and other keys follow |
| OsRelease.KnownKeysRoundTrip | internal/hostinfo/osrelease.go:69-76 | ID, VERSION_ID and PRETTY_NAME read back from any file, whatever precedes the line and whatever junk and other keys follow |
| OsRelease.KeyMeaning | internal/hostinfo/osrelease.go:117-139 | A key is valid exactly when it is made of ASCII letters, digits and underscores and begins with no digit |
| OsRelease.BackslashMeaning | internal/hostinfo/osrelease.go:189-214 | In front of one of five characters a backslash is dropped; in front of any other it stays |
| Prom.PromLabelValue | internal/render/prom.go:189-207 | The builder computes the quoted, escaped label value |
| Prom.LabelReadBack | internal/render/prom.go:185-207 | The escape has an inverse: no raw line feed and no early closing quote, for every string |
| Prom.LabelAsItIs | internal/render/prom.go:189-207 | A label value is written as it is exactly when it has no backslash, quote or line feed |
| Prom.PlainRow | internal/render/prom.go:99-105 | A row whose labels need no escape, letter for letter |
| Prom.LabelInjective | internal/render/prom.go:189-207 | Equal label values come from equal strings |
| Prom.SortedByCheckID | internal/render/prom.go:212-219 | The copy is a permutation sorted by check id |
| Prom.WriteCheckStateMetric | internal/render/prom.go:88-109 | The section appended is header, four rows for each result of a sorted permutation, blank line |
| Prom.SectionReadsBack | internal/render/prom.go:88-109 | The section, header lines included, parses to the series of its results, in order |
| Prom.SectionRows | internal/render/prom.go:88-109 | Reading the section gives four series per result: series 4i + k carries result i's check id and severity under their own labels, the name of state number k of pass, fail, skip, error, and 1 exactly when the result is in that state |
| Prom.TotalIsCount | internal/render/prom.go:94-106 | Summing a state's values over the rows counts the results in that state |
| Prom.TotalsAreSummary | internal/render/prom.go:86-109 | The four sums are the report's own tally, whatever order the sort left |
| PromOrder.SectionIsDetermined | internal/render/prom.go:68-70 | The section is the same text for every sorted copy of the results, however equal check ids fall, exactly when results that share a check id agree on severity and state (states without a row agree with each other) |
| PromOrder.SectionTellsViews | internal/render/prom.go:88-109 | Two sections are the same text exactly when they show the same ids, severities and states in the same order |
| PromOrder.SharedIdHasTwoTexts | internal/render/prom.go:208-219 | A pass and a fail under one check id: both orders are sorted, and their texts differ |
| Textfile.TmpIsNotFinal | internal/render/prom.go:260-261 | No suffix makes the temp path the destination |
| Textfile.PathsInDir | internal/render/prom.go:235-261 | Both files are in the directory; the destination is the base name with .prom; the temp file carries the suffix and, as that is hexadecimal, never ends in .prom |
| Textfile.StepInv | internal/render/prom.go:256-304 | Every step of every writer, faulty or not, keeps the protocol invariant |
| Textfile.ReadersSeeWholeFiles | internal/render/prom.go:235-247 | At every moment of every interleaving the destination is as it was when no rename went through, and otherwise holds the complete rendering of the last renamer |
| Textfile.LastRenameWins | internal/render/prom.go:287-291 | From any state of the protocol, the last rename that goes through decides the destination's content; without one it is unchanged |
| Textfile.OnlyOwnTempsTouched | internal/render/prom.go:263-304 | A writer appends to, renames and removes only a temp file it created, and renames it complete |
| Textfile.NoDebris | internal/render/prom.go:240-243 | A failed writer whose remove succeeded leaves no file, a successful one only the destination; other files stay as they were |
| Textfile.CallsInOrder | internal/render/prom.go:263-304 | In every interleaving the calls of a writer are those its phase stands for: create, writes, end of write, sync, close, rename, each only after the one before; a failed one ends on a remove |
| Textfile.SucceededCalls | internal/render/prom.go:271-292 | A writer that replaced the destination has created its temp file, written, synced, closed and renamed it, and made no other call |
| Textfile.WriteAll | internal/render/prom.go:271-275 | A write in any pieces leaves a prefix, the whole when it succeeds |
| Textfile.WriteTextfileAtomic | internal/render/prom.go:248-292 | One call is one writer of the protocol: every change to the directory is a legal step of it, and its result is the phase the writer ends in. It succeeds exactly without a fault or a taken temp name; success replaces the destination by the rendering, failure leaves the directory as it was, or a partial temp file when the remove failed |
| Textfile.Directory.OpenExclusive | internal/render/prom.go:263-269 | The exclusive create is the protocol's step, and fails on a taken name |
| Textfile.Directory.RenameFile | internal/render/prom.go:287-290 | The rename is the protocol's step |
| Textfile.Directory.RemoveFile | internal/render/prom.go:298-304 | The remove is the protocol's step |
| Redact.HeadMeaning | internal/redact/redact.go:38-38 | Keyword, spaces and separator can be read in one way only, so the order of alternatives is immaterial |
| RedactPattern.KeywordIsGroup | internal/redact/redact.go:38-38 | What is taken for a keyword is exactly the language of the pattern's keyword group, under case folding |
| RedactPattern.LanguageIsWords | internal/redact/redact.go:38-38 | A text is in the language of such an expression exactly when it folds to one of its words |
| RedactPattern.CaseIsImmaterial | internal/redact/redact.go:38-38 | Two words equal up to ASCII case are both keywords or neither |
| RedactPattern.KeywordIsRedacted | internal/redact/redact.go:38-74 | Every keyword in any case, any spaces, a colon or an equals sign and any value on one line come out as keyword, spaces, equals sign and marker |
| RedactPattern.OneCharacterBetween | internal/redact/redact.go:38-38 | Between keyword and separator exactly the five characters of the space class may stand, and the separators are the colon and the equals sign |
| Redact.ValueFound | internal/redact/redact.go:38-38 | A value is found exactly when something other than line feeds follows |
| Redact.ValueMeaning | internal/redact/redact.go:38-38 | The value is the one a greedy engine prefers: most to the spaces, then to the end of its line |
| Redact.CallbackKeepsKeyword | internal/redact/redact.go:61-73 | The callback keeps the match up to its separator; the fallback is never taken |
| Redact.NoEarlierMatch | internal/redact/redact.go:60-74 | Replacing a value never creates an earlier match |
| Redact.RedactIdempotent | internal/redact/redact.go:60-74 | Redact is idempotent on every text |
| Redact.RedactHidesValuesOnly | internal/redact/redact.go:49-74 | Every match in the output has exactly the marker as its value, there are as many as before, and the text outside is unchanged |
| Redact.StaysOnLine | internal/redact/redact.go:12-19 | A value stays on its separator's line exactly when something other than a space follows on it, or only line feeds follow it |
| Redact.MatchOnOneLine | internal/redact/redact.go:27-29 | A whole match is on one line exactly when its head has no line feed and its value stays on the separator's line |
| Redact.MatchCrossesLine | internal/redact/redact.go:23-29 | A value on the next line is taken with its line feed |
| Redact.HeadCrossesLine | internal/redact/redact.go:27-29 | A line feed between keyword and separator: the second line is rewritten |
| RedactLines.LineBounded | internal/redact/redact.go:12-29 | Redacting the text equals redacting every line by itself exactly when every match that spans lines reads "=" and the marker from its separator on |
| RedactLines.MarkedIsUnchanged | internal/redact/redact.go:60-74 | A match is left as it is exactly when it reads "=" and the marker from its separator on |
| RedactLines.RedactBreaks | internal/redact/redact.go:60-74 | Redaction adds no line feed, and loses those of the values it replaces |
| RedactLines.LineBreaksKept | internal/redact/redact.go:27-29 | Line by line, every line feed is kept |
| RedactLines.HarmlessCrossing | internal/redact/redact.go:60-74 | A match may span lines and be left as it is |
| RedactLines.ValueLosesBreak | internal/redact/redact.go:27-29 | The text with a value on the next line is redacted differently line by line |
| Rpm.ApplyFlags | internal/integrity/rpm.go:262-295 | Each surfaced position sets its own boolean and nothing else; a column of another width changes nothing |
| Rpm.ParseVerify | internal/integrity/rpm.go:186-227 | The loop computes: a boolean is set exactly when some row about the queried path sets its position, and the reasons are listed in order |
| Rpm.ReasonsInOrder | internal/integrity/rpm.go:208-224 | The reasons are one for each row about another file or with a c marker, in the order of the output, each naming its file and saying which of the three it is |
| Rpm.CleanMeaning | internal/integrity/pkgmgr.go:130-149 | Clean exactly when every parseable line is about the queried path, carries no c marker and sets none of the six positions |
| Rpm.SiblingsFlipNothing | internal/integrity/rpm.go:211-223 | A row the parser reads as another file's changes no boolean, and the result is not clean |
| RpmLines.RowIsExact | internal/integrity/rpm.go:229-255 | On the raw line: the row says what the line says, flags, c mark and file, exactly when the file's name is one word and the mark is c or absent (or spells the name itself) |
| RpmLines.RecordedRow | internal/integrity/rpm.go:208-224 | A parseable line, wherever it comes in the output, changes no boolean and leaves the result unclean exactly when its row is about another file, or marked c without a surfaced position |
| RpmLines.SiblingLine | internal/integrity/rpm.go:101-106 | For absolute paths a raw line about another file is recorded and promoted into no boolean exactly unless the first word of its name is the queried path and it is unmarked, or marked c with a surfaced position |
| RpmLines.OtherMarkIsLost | internal/integrity/rpm.go:250-254 | A line about the queried path with a mark other than c reaches no boolean, whatever its flags |
| RpmLines.SiblingFlips | internal/integrity/rpm.go:101-106 | A size deviation of the file "/a b" is reported for "/a", with no reason recorded |
| RpmLines.SiblingStaysClean | internal/integrity/pkgmgr.go:130-139 | A capability deviation of the file "/a b" leaves "/a" clean |
| RpmLines.DocumentationHashIsLost | internal/integrity/pkgmgr.go:97-100 | A changed hash on a line about the queried path, marked d, leaves the hash mismatch unset |
| Rpm.OrderDoesNotMatter | internal/integrity/rpm.go:194-227 | Permuting the output lines keeps the booleans and Clean and permutes the reasons |
| Rpm.CleanOverlooks | internal/integrity/pkgmgr.go:130-149 | On the raw output: Clean exactly when every line rpm wrote is unparseable or a row about the queried path that sets no surfaced position |
| Rpm.MissingFileIsClean | internal/integrity/rpm.go:243-249 | A "missing" line for the queried path leaves the result clean |
| Rpm.UnsurfacedFlagIsClean | internal/integrity/rpm.go:275-294 | A row about the queried path whose column sets none of the six positions parses, and leaves the result clean |
| Rpm.UnsurfacedColumn | internal/integrity/rpm.go:275-294 | A column that marks the device, the link or the capabilities alone sets none of the six positions |
| Rpm.CapabilitiesAreClean | internal/integrity/rpm.go:293-294 | Changed capabilities alone are clean |
| CappedBuffer.Buffer.Write | internal/exec/runner.go:263-282 | Every write reports its full length; the content stays the first cap bytes of everything written, and truncated says the total passed the cap or an empty write met a full buffer |
| CappedBuffer.Capture | internal/exec/runner.go:252-282 | The same for a whole stream written to a fresh buffer |
| CappedBuffer.ChunkingIrrelevant | internal/exec/runner.go:252-282 | For non-empty writes the outcome depends on the stream alone, and truncated says exactly that bytes were dropped |
| CappedBuffer.EmptyWriteTruncates | internal/exec/runner.go:270-274 | An empty write to an exactly full buffer, which only a direct caller can make, sets truncated with nothing dropped |

## Left out

- Times: `StartedAt`, `DurationMS`, `Generated`, per-check timeouts and log lines carry no functional property.
- A check is its identity and how it ends; `ID`, `Title` and `Severity` are total. Until the context is done a check ends in its declared way, afterwards in any way, or never.
- RunnerMachine.Run: goroutines are not Dafny threads; each channel or mutex operation is one atomic method call chosen by an arbitrary scheduler.
- RunnerTheorems.EveryScheduleEnds: a check that never ends takes no step, so the bound speaks of steps, and the return needs every started check to end or a cancellation.
- File contents reach the parsers as lines: `bufio.Scanner`, its length limit and read errors are not modelled.
- Strings are sequences of code points: invalid UTF-8 is not modelled, and the rpm flag column's width is counted in characters.
- Directory listings, stat results, open results and random suffixes are inputs; symlink resolution, absolute paths and path cleaning are not modelled.
- Evidence keys that repeat the configuration (directory, path, module), detail strings and wrapped error texts; a place is a pair, not the text "source:line".
- CanonJsonDecode.ReadBack: numbers keep their literal text, and a number is any text that starts with a minus or a digit and holds only characters of numbers, more than the grammar allows.
- `encoding/json`'s decoder (trailing data, invalid input), SHA-256 and hex. A document is a tree; only "the last of repeated members wins" is taken from the decoder.
- The human report's result lines and second footer line, SARIF rules and results, and the other Prometheus sections: single passes that print.
- Textfile.WriteTextfileAtomic: the rendering is given, and the byte count returned beside an error is not modelled.
- Textfile.NoDebris: a remove that fails may leave the temp file, as in the code.
- Argument validation and allowlists of the subprocess runner, dpkg, process and module scans, check filters, flag parsing, logging and build info would add only easy members.
