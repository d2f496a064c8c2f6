# Belt queue: a verified model

Belt is a work queue for autonomous development. This project models the parts of it where a small
mistake changes what work runs, when it runs, or whether it ever stops, and proves what they promise.

* **Schedules** (`CronField`, `CronGrammar`, `CronSchedule`, `CronMeaning`). A field such as `1-30/5,7` is
  expanded into its values, and the next fire is searched minute by minute over a day. Exactly the texts that
  spell clauses are understood, in signs and leading zeros too; a field's values are exactly what its
  clauses mean; a written schedule fires at the earliest minute its clauses mean, or not at all exactly
  when there is none; a daily schedule with unrestricted dates always fires, except when the minute of the
  last run is its only match.
* **The lifecycle and human responses** (`Phase`, `Queue`, `Hitl`, `HitlRuns`, `HitlLineage`,
  `HitlTermination`). Queue items move through eight phases; an item that waits for a human can be finished, retried, skipped or replanned. Over every
  run of the store: lengths of an item's life, the lineage of replans, and a measure that makes the
  responses run out.
* **The gate between specs** (`Dependency`, `SpecAdd`). Dependencies live as comma-separated text.
  Adding a spec turns module overlaps into dependencies, and the new spec is then held back until the
  specs it overlaps are completed.
* **Answers of a language model** (`LlmResponse`, `LlmResponseLaws`, `LlmSections`). Delimiter lines split
  an answer into files: one for each delimiter, with the lines up to the next one, trimmed. What stands
  before the first delimiter is dropped, and so is a last section without content. The files found are
  never lost after that, missing ones get defaults, the expected ones come first, and parsing a written
  list of files gives the list back.
* **Escalation** (`Escalation`, `PolicyText`). A failure count is looked up in a policy; the policy has a
  textual form with string keys.
* **Paths into item contexts** (`JsonPath`, `JsonLaws`, `JsonCompose`), **token usage** (`Tokens`) and **number formatting** (`FmtNum`).

`Text`, `Decimal` and `Sequences` give the strings, numerals and lists underneath: trim, split, join,
words, unsigned parsing and printing, order and repetition. `dafny verify dfyconfig.toml` checks everything.

The code that changes things step by step is modelled as methods with loops and as classes with fields
(`Queue.QueueItem`, `Queue.Database`); each is proved against a function or a predicate, and the laws are
lemmas about those.

## Where the code and its documentation part ways

The model follows the code.

* `HitlRespondAction::Replan` is documented as HITL to Failed (`crates/belt-core/src/queue.rs:57-58`), but a
  response moves the item back to Pending (`crates/belt-cli/src/main.rs:3931-3953`). It fails exactly when
  its count has reached the limit (`HitlRuns.ReplanBranches`, and `HitlLineage.ReplanOutcome` for every store
  that a run reaches).
* The count is documented to prevent endless loops by a limit of three replans
  (`crates/belt-core/src/queue.rs:164`), but it is the new item that carries it, and it bounds the depth of a
  lineage only. One item can be rolled back any number of times (`HitlLineage.RollbacksUnbounded`). A replan
  rolls the item back before it stores the replan item, with nothing that ties the two together: from the
  second time on the insert is rejected, the command reports an error, and the item has left HITL all the
  same (`HitlRuns.ReplanSucceedsOnce`).
* Transitions are documented to be validated outside of hydration and tests
  (`crates/belt-core/src/queue.rs:318-322`), but `queue done`, `queue hitl` and `queue skip` write their phase
  over any other (`crates/belt-cli/src/main.rs:1035`, `:1101`, `:1148`, `:1170`). So Done and Skipped are
  terminal for transitions only: a finished item is put back before a human by `queue hitl`
  (`HitlRuns.ForcedBackExample`). `HitlRuns.TerminalForGoodIff`, `HitlRuns.OverForGood` and
  `HitlRuns.AnswerIsFinal` say exactly which runs leave such items alone.
* The line `--- FILE: ---` passes both delimiter tests but is too short to hold a name, so slicing it
  aborts the parse (`LlmResponse.AbortExample`); it is the only such line (`LlmResponse.ParseLlmResponse`).
* The field `0-4294967295/2` walks past the 32-bit range (`CronField.FieldOverflowExample`); which clauses
  do is decided by their bounds (`CronField.OverflowClosed`). A lone value with a stride starts an open
  range: `5/10` means 5, 15 and so on up to the field's bound (`CronField.ClauseRoundTrip`).
* All five schedule fields must match at once, the day of the month and the weekday included, unlike the
  crontab utility of POSIX.1-2017 (`CronSchedule.WrittenScheduleFires`).
* `append_dependencies` is documented to remove duplicates, but it compares unparsed texts with parsed ones.
  Clean identifiers leave the duplicates that are there (`Dependency.AppendKeepsDuplicates`): `a,a` with `b`
  appended is `a,a,b` (`Dependency.DuplicateStaysExample`). A padded text even adds one: `a` and ` a`, appended
  to nothing, are read back as `a` twice (`Dependency.DuplicateAddedExample`). `Dependency.AppendDuplicatesIff`
  says exactly when none is read back, for every list of texts. Nor does a second append of the same texts
  always leave the text as it is: exactly when, among the new ones, clean identifiers come first and the
  others name nothing (`Dependency.AppendAgainIff`; `Dependency.AppendAgainTexts` at `x`, a space and `y`).
* Checking dependencies keeps the blank parts that parsing drops, so a spec that depends on `a,` stays
  blocked when `a` is completed (`Dependency.TrailingCommaExample`); `Dependency.ReadyAgreesIff` says exactly
  when the two agree.
* A failure count is cut to 32 bits, so escalation can drop once, exactly where that count starts over
  (`Escalation.EscalationDropsIff`, `Escalation.EscalationDropExample`).

## Model

| member | source | states |
|---|---|---|
| `CronField.ExpandCronField` | crates/belt-cli/src/status.rs:404-451 | the clause loop computes the field's expansion, whose meaning `FieldDenotation` and `FieldRoundTrip` give; it stops at the first malformed clause and at the first walk that leaves 32 bits |
| `CronField.PushWalk` | crates/belt-cli/src/status.rs:425-429 | the `while` walk appends the clause's progression and terminates; it fails exactly when its last 32-bit addition leaves the range |
| `CronField.PushRange` | crates/belt-cli/src/status.rs:430-441 | an unstepped range appends every value from its start to its end |
| `CronField.ProgressionMeaning` | crates/belt-cli/src/status.rs:425-429 | a walk's output is strictly increasing and holds v exactly when lo <= v <= hi and (v - lo) is a multiple of the step |
| `CronField.OverflowMeaning` | crates/belt-cli/src/status.rs:425-429 | a walk leaves 32 bits if and only if its clause has a step and denotes a value from which one more step would |
| `CronField.OverflowClosed` | crates/belt-cli/src/status.rs:425-429 | the same from the bounds alone: the end less the odd remainder of the range, plus the step, exceeds 32 bits |
| `CronField.FieldDenotation` | crates/belt-cli/src/status.rs:404-451 | when every part parses the values are exactly the union of the parts' meanings; one malformed part leaves the field empty; it breaks if and only if some walk, with nothing malformed up to it, leaves 32 bits |
| `CronField.ClauseRoundTrip` | crates/belt-cli/src/status.rs:407-447 | every clause `*`, `n`, `a-b`, with or without `/s`, is read back from its written form as the values it means |
| `CronField.ClauseOverflow` | crates/belt-cli/src/status.rs:425-429 | a written clause breaks exactly when a value it means is too large to be stepped from |
| `CronField.FieldRoundTrip` | crates/belt-cli/src/status.rs:400-451 | a written comma list of clauses expands to exactly the values that some clause means, and breaks exactly when some clause does |
| `CronField.FieldOverflowExample` | crates/belt-cli/src/status.rs:425-429 | the field `0-4294967295/2` breaks within every bound |
| `Decimal.ParseMeaning` | crates/belt-cli/src/status.rs:408-411 | unsigned parsing accepts exactly an optional plus sign and at least one digit, with a value within the bound, and gives that value |
| `CronGrammar.OtherSpellings` | crates/belt-cli/src/status.rs:444-446 | a plus sign or a zero in front of a numeral spells the same number |
| `CronGrammar.PartMeaning` | crates/belt-cli/src/status.rs:406-449 | for every text: it is accepted as a clause if and only if it is `*`, a number or `a-b`, possibly followed by `/s` with s > 0, numbers within 32 bits; then its values and its overflow are exactly those of the clause it spells |
| `CronGrammar.FieldTextMeaning` | crates/belt-cli/src/status.rs:404-451 | for every field text: it breaks if and only if a clause does that has only clauses before it; otherwise it holds exactly what some comma part means when all parts spell clauses, and nothing when one does not |
| `CronGrammar.NamesExample` | crates/belt-cli/src/status.rs:444-446 | the field `MON` is empty |
| `CronSchedule.BuildMatchers` | crates/belt-cli/src/status.rs:361-365 | each of the five fields is expanded within its own bound 59, 23, 31, 12, 7; there is no result exactly when an expansion breaks |
| `CronSchedule.MatchCandidate` | crates/belt-cli/src/status.rs:375-382 | a candidate matches if and only if its minute, hour, day, month and weekday are each in the list of their own field |
| `CronSchedule.ScanMinutes` | crates/belt-cli/src/status.rs:370-397 | the loop with its skips and early return is the search over the 1440 candidates, characterised by `ScanIsEarliest` |
| `CronSchedule.CronExpressionNextSecs` | crates/belt-cli/src/status.rs:349-398 | an expression fires as `NextFire` on its expanded words, including a wrong number of words and empty fields |
| `CronSchedule.SameMinuteMeaning` | crates/belt-cli/src/status.rs:386-391 | comparing date, hour and minute is comparing the minute number |
| `CronSchedule.CandidateInWindow` | crates/belt-cli/src/status.rs:370-374 | every candidate is a whole minute after now and at most a day later |
| `CronSchedule.WindowIsCandidate` | crates/belt-cli/src/status.rs:370-374 | every whole minute of that window is a candidate |
| `CronSchedule.WindowVisits` | crates/belt-cli/src/status.rs:370-374 | the 1440 minutes pass through each hour and minute exactly once |
| `CronSchedule.ScanEarliest` | crates/belt-cli/src/status.rs:373-397 | from any whole minute on, the search finds the first eligible whole minute of the window, and returns nothing only when none is eligible |
| `CronSchedule.ScanIsEarliest` | crates/belt-cli/src/status.rs:373-397 | from the next whole minute: a delay is 1 to 86400 and leads to the earliest eligible whole minute of the window |
| `CronSchedule.NextFireIsEarliest` | crates/belt-cli/src/status.rs:344-398 | for every schedule that parses, clock, calendar and last run: the delay leads to the earliest whole minute after now that matches all five fields and is not the last run's minute; no delay means that there is none |
| `CronSchedule.UnusableNeverFires` | crates/belt-cli/src/status.rs:356-368 | only five non-empty fields can fire; a search breaks if and only if an expansion does |
| `CronSchedule.WrittenScheduleFires` | crates/belt-cli/src/status.rs:344-451 | from text to time: five clause lists joined by commas and spaces fire at the earliest whole minute after now each of whose readings some clause means and which is not the last run's; nothing means there is none; the search breaks if and only if a clause does |
| `Text.WordsMeaning` | crates/belt-cli/src/status.rs:356 | whatever white space stands before, between and behind words, splitting at it gives the words |
| `CronMeaning.ScheduleTextFires` | crates/belt-cli/src/status.rs:344-451 | for any text, clock, calendar and last run: the search breaks if and only if one of five fields does, and otherwise finds the earliest whole minute after now whose minute, hour, day, month and weekday its five words mean and which is not the last run's; other word counts and misspelled parts mean no minute |
| `CronSchedule.DailyScheduleText` | crates/belt-cli/src/status.rs:356-365 | minute clauses, hour clauses and three stars, written with spaces, are read as a daily schedule |
| `CronSchedule.StarField` | crates/belt-cli/src/status.rs:430-433 | a star holds every value up to the field's bound |
| `CronSchedule.DailyAlwaysFires` | crates/belt-cli/src/status.rs:361-397 | a daily schedule always fires when there was no last run; it does not fire if and only if the last run's minute is its only match in the window |
| `CronSchedule.FireOf` | crates/belt-cli/src/status.rs:330-337 | an enabled evaluate job contributes the next fire of its schedule after its last run, any other job nothing |
| `CronSchedule.ComputeNextEvaluateSecs` | crates/belt-cli/src/status.rs:325-342 | the loop over the jobs computes the running minimum that `CountdownIsSmallest` characterises |
| `CronSchedule.CountdownIsSmallest` | crates/belt-cli/src/status.rs:322-342 | the countdown is the smallest delay among the enabled jobs named `...:evaluate`, nothing exactly when none of them fires, and broken exactly when a schedule of one of them is |
| `CronSchedule.CountdownMeaning` | crates/belt-cli/src/status.rs:329-340 | the same from the jobs: only enabled ones whose name ends in `:evaluate` count, each with its own schedule and its own last run |
| `CronSchedule.CountdownBounds` | crates/belt-cli/src/status.rs:322-342 | a countdown lies between one second and a day for all jobs and clocks |
| `Phase.Transit` | crates/belt-core/src/state_machine.rs:29-38 | a transition succeeds exactly on the valid pairs; the same-phase error arises exactly when nothing would change |
| `Phase.TransitionsListed` | crates/belt-core/src/state_machine.rs:3-26 | the valid transitions are exactly the seventeen listed pairs |
| `Phase.TerminalIffStuck` | crates/belt-core/src/phase.rs:37-39 | the terminal phases are exactly those that no valid transition leaves |
| `Phase.RunBudget` | crates/belt-core/src/state_machine.rs:4-26 | the invariant of every run: steps taken plus the longest way forward are paid for by 6 and 5 for each way back |
| `Phase.RunLength` | crates/belt-core/src/state_machine.rs:4-26 | a run from Pending with k ways back has at most 6 + 5k transitions and enters Running at most k + 1 times |
| `Phase.RunLengthAttained` | crates/belt-core/src/state_machine.rs:4-26 | for every k some run attains both bounds |
| `Queue.QueueItem.constructor` | crates/belt-core/src/queue.rs:177-199 | a new item is pending, untitled, without a human's note, with no replans |
| `Queue.QueueItem.Transit` | crates/belt-core/src/queue.rs:216-225 | a valid transition moves the item and returns the phase it left; an invalid one changes nothing |
| `Queue.QueueItem.SetPhaseUnchecked` | crates/belt-core/src/queue.rs:323-325 | the phase is forced and nothing else changes |
| `Queue.Database.GetItem` | crates/belt-infra/src/db.rs:621-635 | the stored item, or none when the id is unknown |
| `Queue.Database.InsertItem` | crates/belt-infra/src/db.rs:360-391 | a stored id is rejected without a change; otherwise exactly the item's row is added |
| `Queue.Database.UpdatePhase` | crates/belt-infra/src/db.rs:399-415 | exactly the named item's phase changes, without a check of the transition; an unknown id is an error |
| `Queue.Database.InsertSpec` | crates/belt-infra/src/db.rs:1153-1179 | a stored spec id is rejected without a change; otherwise exactly the spec is added |
| `Queue.Database.UpdateSpecStatus` | crates/belt-infra/src/db.rs:1292-1308 | exactly the named spec's status changes; an unknown id is an error |
| `Hitl.RespondReplan` | crates/belt-cli/src/main.rs:3929-3995 | the replan branch leaves the store and gives the reply that `Responded` says, whose laws are in `HitlRuns`: rollback and a new item, rollback and a rejected insert, or Failed at the limit |
| `Hitl.Respond` | crates/belt-cli/src/main.rs:3918-4067 | every response leaves the items as `Responded` says and settles a completion review's spec as `SettledSpecs` says; an unknown item and an item outside HITL change nothing |
| `HitlRuns.AnswerMeaning` | crates/belt-cli/src/main.rs:3996-4003 | done sends a waiting item to Done, retry to Pending, skip to Skipped, and nothing else in the store changes |
| `HitlRuns.RetriedComesBack` | crates/belt-core/src/state_machine.rs:4-26 | a retried item can be made ready, run and completed, and wait again: the store is then the one before the retry |
| `HitlRuns.ReplanStores` | crates/belt-cli/src/main.rs:3952-3974 | a successful replan leaves the item pending and stores one new item that waits in HITL with a count one higher, at most three, the same source, workspace and state, and its parent's note |
| `HitlRuns.SettlingMeaning` | crates/belt-cli/src/main.rs:4005-4063 | exactly an answer to a completion review settles a spec, its own: done completes it, retry and skip make it active |
| `HitlRuns.StoredForGood` | crates/belt-cli/src/main.rs:3928-4003 | over any run a stored item stays stored with the count it was created with |
| `HitlRuns.ReplanSucceedsOnce` | crates/belt-cli/src/main.rs:3952-3974 | after one successful replan of an item, whatever happens in between, replanning it again only takes it out of HITL and reports the duplicate |
| `HitlLineage.RollbacksUnbounded` | crates/belt-cli/src/main.rs:3952-3974 | for every k and every new pending item some run from the empty store rolls the item back k times by replans and leaves it as created, count included |
| `HitlRuns.TerminalStep` | crates/belt-infra/src/db.rs:399-415 | one event changes a terminal item if and only if it is a command that writes another phase over it |
| `HitlRuns.TerminalForGoodIff` | crates/belt-cli/src/main.rs:1148 | over any run a terminal item stays exactly as it is if and only if no command writes another phase over it |
| `HitlRuns.OverForGood` | crates/belt-core/src/state_machine.rs:4-26 | over any run a failed or terminal item stays failed or terminal, and so out of HITL, if and only if no command writes any other phase over it |
| `HitlRuns.AnswerIsFinal` | crates/belt-cli/src/main.rs:3928-4003 | over any run after the answer: a finished item stays done, and a skipped one skipped, if and only if no command writes another phase over it; one past its replan limit stays failed or terminal if and only if no command takes it back |
| `HitlRuns.ForcedBackExample` | crates/belt-cli/src/main.rs:1146-1148 | after an item is finished, one `queue hitl` restores the store in which it waits |
| `HitlLineage.StepKeepsLineage` | crates/belt-cli/src/main.rs:3930-3974 | every event keeps the lineage: counts at most three, and every positive count derived from a stored item with one less |
| `HitlLineage.RunKeepsLineage` | crates/belt-cli/src/main.rs:3930-3974 | the lineage holds in every store reachable from the empty one |
| `HitlLineage.ReplanOutcome` | crates/belt-cli/src/main.rs:3929-3974 | in every reachable store a replan fails the item if and only if its count is three, and otherwise rolls it back, with a new item if and only if that item's id is free and a duplicate error if and only if it is not |
| `HitlLineage.LineageInjective` | crates/belt-cli/src/main.rs:3957 | different originals have different replans at every depth |
| `HitlLineage.OriginOf` | crates/belt-cli/src/main.rs:3957-3973 | every item descends from exactly one original, at the depth its count says |
| `HitlLineage.StoreBound` | crates/belt-cli/src/main.rs:3930-3974 | a store with the lineage holds at most four items per original |
| `HitlLineage.FamilyBound` | crates/belt-cli/src/main.rs:3930-3974 | no original has a family of more than four |
| `HitlLineage.ReachableStore` | crates/belt-cli/src/main.rs:3930-3974 | in every reachable store: counts at most three, every item the replan of a stored original at the depth its count says, at most four items per original |
| `HitlTermination.WeightStore` | crates/belt-cli/src/main.rs:3930-3974 | storing a row changes the weight of the store by the row's own weight less the one it replaces |
| `HitlTermination.ResponseLowersWeight` | crates/belt-cli/src/main.rs:3928-4003 | every response that is acted on strictly lowers the sum of 4 - count over the items in HITL |
| `HitlTermination.ResponsesRunOut` | crates/belt-cli/src/main.rs:3928-4003 | over any run from any store, responses acted on plus the final weight are at most the initial weight plus four for each other entry into HITL: without new entries responses run out |
| `Dependency.ParseIsClean` | crates/belt-core/src/dependency.rs:161-167 | whatever the text, the parsed identifiers are trimmed, non-empty and comma-free |
| `Dependency.ParseJoin` | crates/belt-core/src/dependency.rs:161-167 | parsing the comma-joined text of clean identifiers gives them back |
| `Dependency.PendingIds` | crates/belt-core/src/dependency.rs:89-100 | exactly the listed identifiers that are missing or not completed are pending |
| `Dependency.ReadyIff` | crates/belt-core/src/dependency.rs:78-107 | a spec is ready if and only if it declares nothing or every trimmed part of its text, blank ones included, resolves to a completed spec |
| `Dependency.ReadyFromIds` | crates/belt-core/src/dependency.rs:78-107 | for every spec: ready if and only if all parsed identifiers are completed and, should the text have a blank part, the empty identifier is too |
| `Dependency.ReadyAgreesIff` | crates/belt-core/src/dependency.rs:87-100 | readiness equals completion of the parsed identifiers if and only if one of them is pending anyway, no part is blank, or the empty identifier is completed |
| `Dependency.TrailingCommaExample` | crates/belt-core/src/dependency.rs:87-100 | the text `a,` stays blocked, on the empty identifier, when `a` is completed |
| `Dependency.NamedDependencyBlocks` | crates/belt-core/src/dependency.rs:78-107 | a clean identifier that is a part of the text and does not resolve to a completed spec blocks and is reported as pending |
| `Dependency.AppendDependencies` | crates/belt-core/src/dependency.rs:230-246 | the loop computes the appended text, whose meaning is given by `AppendedIdsMeaning` and `AppendRoundTrip` |
| `Dependency.AppendedIdsMeaning` | crates/belt-core/src/dependency.rs:235-239 | the old identifiers in order, then each absent new one once at its first occurrence |
| `Dependency.AppendRoundTrip` | crates/belt-core/src/dependency.rs:161-167 | parsing the appended text gives the old identifiers in order followed by each absent new one once in first-occurrence order |
| `Dependency.AppendTwice` | crates/belt-core/src/dependency.rs:227-246 | appending the same clean identifiers twice equals appending them once |
| `Dependency.AppendAgainIff` | crates/belt-core/src/dependency.rs:227-246 | for every list of texts, clean or not: appending it twice equals appending it once if and only if, among the new ones, clean identifiers come first and the others hold no identifier |
| `Dependency.AppendOneTwice` | crates/belt-core/src/dependency.rs:227-246 | for one text the same condition reads: it parses to nothing or to itself |
| `Dependency.AppendAgainExample` | crates/belt-core/src/dependency.rs:227-246 | a text that names nothing between two clean identifiers is appended again; behind them it is not |
| `Dependency.AppendAgainTexts` | crates/belt-core/src/dependency.rs:227-246 | so it is with `x`, a space and `y` |
| `Dependency.AppendDuplicatesIff` | crates/belt-core/src/dependency.rs:227-246 | for every list of texts: what is read back is free of duplicates if and only if the old identifiers were, those named by the new texts are, and no old one is named again |
| `Dependency.AppendKeepsDuplicates` | crates/belt-core/src/dependency.rs:227-246 | for clean identifiers: the text read back is free of duplicates if and only if it was before |
| `Dependency.DuplicateAddedExample` | crates/belt-core/src/dependency.rs:227-246 | appending `a` and ` a` to nothing gives a text that is read back as `a` twice |
| `Dependency.DuplicateStaysExample` | crates/belt-core/src/dependency.rs:227-246 | appending `b` to `a,a` gives `a,a,b`, read back with both |
| `Dependency.CheckConflicts` | crates/belt-core/src/dependency.rs:109-145 | clear if and only if no spec with another id shares a path; otherwise the duplicate-free set of shared paths and the duplicate-free ids of the specs that own one of them first |
| `Dependency.EntryPointMeaning` | crates/belt-core/src/dependency.rs:149-158 | a path is read from an entry point if and only if it is non-blank and some comma part trims to it |
| `Dependency.EntryPointRoundTrip` | crates/belt-core/src/dependency.rs:149-158 | clean paths joined by commas are read back in order |
| `Dependency.ConflictAtText` | crates/belt-core/src/dependency.rs:109-145 | from the texts: clear if and only if no path that this spec names is named by a spec with another id; otherwise exactly the shared paths and the ids of the specs first to name one |
| `Dependency.VerdictIsSymmetric` | crates/belt-core/src/dependency.rs:109-145 | between two specs with different ids the verdict and the shared paths do not depend on which one is checked |
| `SpecAdd.CollectActions` | crates/belt-cli/src/main.rs:3195-3218 | module overlaps give their spec ids in order, and there is a conflict for a human if and only if some overlap is a file overlap |
| `SpecAdd.PrepareSpec` | crates/belt-cli/src/main.rs:3189-3238 | the draft gets its automatic dependencies; conflicts count only when the spec names entry points |
| `SpecAdd.QueueReview` | crates/belt-cli/src/main.rs:3257-3278 | exactly the review item is stored, waiting for a human; a stored review id is rejected |
| `SpecAdd.AddSpec` | crates/belt-cli/src/main.rs:3186-3286 | the spec becomes active if and only if no conflict is a file overlap; any conflict queues a review; a duplicate spec changes nothing; a rejected review leaves the spec stored as a draft |
| `SpecAdd.GateHoldsBack` | crates/belt-cli/src/main.rs:3190-3286 | after adding, for every module overlap with a clean id and every lookup in which that spec is missing or not completed, the new spec is not ready |
| `SpecAdd.AutomaticIsModuleOverlap` | crates/belt-cli/src/main.rs:3199-3218 | every automatic dependency comes from a module overlap |
| `SpecAdd.GateReadyIff` | crates/belt-core/src/dependency.rs:78-107 | for every request whose automatic identifiers are clean, none included: ready if and only if all it was declared to depend on and all it overlaps by module is completed, and, without an automatic dependency, no blank part of the declared text blocks |
| `LlmResponse.ShortDelimiter` | crates/belt-cli/src/bootstrap.rs:208-215 | exactly one trimmed line is a delimiter too short to hold a name: `--- FILE: ---` |
| `LlmResponse.DelimiterMeaning` | crates/belt-cli/src/bootstrap.rs:201-216 | a line opens a file if and only if, trimmed, it is `--- FILE: `, a name and ` ---`; the name is then trimmed |
| `LlmResponse.LinesMeaning` | crates/belt-cli/src/bootstrap.rs:207 | lines are read without their terminators, newline or carriage return and newline; a last line without one is kept as it is |
| `LlmResponse.ScanLines` | crates/belt-cli/src/bootstrap.rs:204-224 | the line loop computes the scan of the lines, characterised by `SectionsRoundTrip`, unless some delimiter is too short |
| `LlmResponse.AbortMeaning` | crates/belt-cli/src/bootstrap.rs:215 | no line is too short exactly when no line is the bare delimiter |
| `LlmResponse.AbortExample` | crates/belt-cli/src/bootstrap.rs:209-215 | the answer `--- FILE: ---` holds the bare delimiter and cannot be parsed |
| `LlmResponse.FillMissing` | crates/belt-cli/src/bootstrap.rs:239-252 | the defaults loop computes the filled list, whose meaning is `FillMeaning` |
| `LlmResponse.Reorder` | crates/belt-cli/src/bootstrap.rs:254-262 | the removing loop computes the ordered list, whose meaning is `PickMeaning` |
| `LlmResponse.ParseLlmResponse` | crates/belt-cli/src/bootstrap.rs:196-265 | the parse aborts if and only if some line is the bare delimiter, and otherwise gives the files that `ParseConserves` and `ResponseRoundTrip` describe |
| `LlmResponseLaws.FillMeaning` | crates/belt-cli/src/bootstrap.rs:247-252 | exactly the defaults whose names are missing are added, after the files; then every default's name is present |
| `LlmResponseLaws.TakeOne` | crates/belt-cli/src/bootstrap.rs:256-260 | taking out a further name takes the first file of that name of the whole list |
| `LlmResponseLaws.PickMeaning` | crates/belt-cli/src/bootstrap.rs:254-262 | the files picked are the first of their names, the rest keep their order, and none is lost or doubled |
| `LlmResponseLaws.ParseConserves` | crates/belt-cli/src/bootstrap.rs:239-264 | for every answer that parses: project, coding, commit, testing come first, the result is a permutation of the files found (`LlmSections.SectionsFound`) and the defaults for missing names only, and extras and repeats keep their order |
| `LlmSections.BlocksMeaning` | crates/belt-cli/src/bootstrap.rs:207-224 | the blocks that grow line by line are the ones between consecutive delimiter positions |
| `LlmSections.ContentTrimmed` | crates/belt-cli/src/bootstrap.rs:219-222 | the accumulated content, trimmed, is the joined lines of the section, trimmed |
| `LlmSections.SectionsFound` | crates/belt-cli/src/bootstrap.rs:204-232 | for every list of lines without the bare delimiter: the files found are, in order, one per delimiter line, with its name and the trimmed lines up to the next delimiter; only a last one without content is dropped |
| `LlmSections.PreambleDropped` | crates/belt-cli/src/bootstrap.rs:218-223 | lines before the first delimiter leave no trace in the files found |
| `LlmSections.ParseDenotation` | crates/belt-cli/src/bootstrap.rs:196-265 | for every answer without the bare delimiter: the kept sections, or the whole answer as the project file when there are none, and the defaults for the names they lack, rearranged with the expected four in front |
| `LlmResponseLaws.FourFiles` | crates/belt-cli/src/bootstrap.rs:239-260 | the first four files of every parse are project.md, coding.md, commit.md and testing.md, each the first of that name in the answer or else that name's own template |
| `LlmResponseLaws.OrderConserves` | crates/belt-cli/src/bootstrap.rs:239-264 | the same for any list of found files |
| `LlmResponseLaws.LinesOfAnswer` | crates/belt-cli/src/bootstrap.rs:207 | the lines of a written answer are its headers and content lines |
| `LlmResponseLaws.SectionsRoundTrip` | crates/belt-cli/src/bootstrap.rs:201-237 | writing files as sections and splitting the text gives the list back, for trimmed one-line names and trimmed contents without a delimiter line and without a carriage return at a line's end; only the last content must be non-empty |
| `LlmResponseLaws.ResponseRoundTrip` | crates/belt-cli/src/bootstrap.rs:196-265 | when moreover the first four files are the expected ones, parsing the written answer gives the same list, extra files included |
| `Escalation.Floor` | crates/belt-core/src/escalation.rs:144-148 | the greatest key not above the count, and none exactly when there is no such key |
| `Escalation.ResolveIsFloor` | crates/belt-core/src/escalation.rs:135-149 | the action at the greatest key not above the count, or a retry when every key is above it; the exact-hit shortcut agrees |
| `Escalation.ResolveMonotone` | crates/belt-core/src/escalation.rs:135-149 | under a policy whose severity never drops with the key, more failures never call for a milder action |
| `Escalation.MaxAttempt` | crates/belt-core/src/context.rs:255-262 | the highest attempt recorded for the state, or zero |
| `Escalation.FailuresMeaning` | crates/belt-core/src/context.rs:247-252 | the count is the number of history entries of the state asked for that failed |
| `Escalation.FailuresGrow` | crates/belt-core/src/context.rs:247-252 | appending entries never lowers the number of failures, and raises it by at most their number |
| `Escalation.EscalationNeverDrops` | crates/belt-core/src/escalation.rs:135-149 | as an append-only history grows within 32 bits of failures, the action never gets milder |
| `Escalation.EscalationDropsIff` | crates/belt-core/src/context.rs:247-252 | one more entry makes the action milder if and only if it is a failure on top of a full 32-bit count and the policy ranks zero failures below that count |
| `Escalation.EscalationDropExample` | crates/belt-core/src/context.rs:247-252 | such a history, under the default policy: from asking a human to a silent retry |
| `Escalation.DefaultResolves` | crates/belt-core/src/escalation.rs:169-175 | the default policy's action for every failure count |
| `PolicyText.Serialize` | crates/belt-core/src/escalation.rs:80-93 | the written entries are the rules in key order and then the terminal action, read back by `PolicyRoundTrip` |
| `PolicyText.SortedIncreases` | crates/belt-core/src/escalation.rs:85-87 | the rules are written in numeric order, each once |
| `PolicyText.SerializedMeaning` | crates/belt-core/src/escalation.rs:85-91 | the entries are one per rule, its key as a numeral with its action, in numeric order, and then, if there is a terminal action, `terminal` with it |
| `PolicyText.CollectRaw` | crates/belt-core/src/escalation.rs:97 | a repeated string key keeps its last action |
| `PolicyText.LexMeaning` | crates/belt-core/src/escalation.rs:97-100 | keys are visited in dictionary order: a beginning comes first, and otherwise the first difference decides |
| `PolicyText.Deserialize` | crates/belt-core/src/escalation.rs:96-111 | the first key in string order that is neither `terminal` nor a 32-bit number is reported; otherwise each number gets the action of the last of its spellings in string order |
| `PolicyText.OutcomeUnique` | crates/belt-core/src/escalation.rs:96-111 | the entries determine the outcome |
| `PolicyText.PolicyRoundTrip` | crates/belt-core/src/escalation.rs:80-112 | reading a written policy gives the same rules and terminal action, for every policy, although reading goes by string order |
| `JsonPath.NormalizePath` | crates/belt-core/src/context.rs:225-243 | the character loop computes the normalised path, a homomorphism by `UnbracketConcat` |
| `JsonPath.UnbracketConcat` | crates/belt-core/src/context.rs:231-241 | the bracket loop distributes over concatenation |
| `JsonPath.NormalizedIsUnbracket` | crates/belt-core/src/context.rs:226-228 | on paths without a stray closing bracket the fast exit agrees with the loop |
| `JsonPath.WalkConcat` | crates/belt-core/src/context.rs:211-218 | walking a concatenation of segments is walking the first part and then the second |
| `JsonPath.BracketIsDot` | crates/belt-core/src/context.rs:221-243 | extracting `p[i]` equals extracting `p.i` |
| `JsonPath.WrittenPath` | crates/belt-core/src/context.rs:199-243 | however the later segments are written, with dots or brackets, with or without a leading dot, extraction walks exactly the path's segments |
| `JsonLaws.ExtractIndex` | crates/belt-core/src/context.rs:211-216 | for every value and 64-bit n: the path n finds element n of an array that has one, and nothing else |
| `JsonLaws.ExtractName` | crates/belt-core/src/context.rs:211-218 | a name that is no index finds that field of an object that has it, and nothing else |
| `JsonLaws.ExtractRoot` | crates/belt-core/src/context.rs:203-206 | the empty path and the lone dot find the value itself |
| `JsonLaws.PathReaches` | crates/belt-core/src/context.rs:199-219 | however a path is written, it finds a value if and only if its segments lead there, index by index through arrays and name by name through objects |
| `JsonCompose.BracketIsDotIff` | crates/belt-core/src/context.rs:221-243 | for an index without brackets: `p[i]` extracts like `p.i` in every value if and only if p is non-empty and has no closing bracket without an opening one |
| `JsonCompose.NestSeparates` | crates/belt-core/src/context.rs:211-218 | for any two lists of segments some value tells them apart unless they step alike, an index counting as a number however it is written |
| `JsonCompose.KeysComposeIff` | crates/belt-core/src/context.rs:203-243 | the segments of `p.q` step like those of p followed by those of q if and only if p and q are composable |
| `JsonCompose.PathComposition` | crates/belt-core/src/context.rs:199-219 | for composable p and q, well-bracketed ones among them: extracting `p.q` equals extracting p and then q from the result |
| `JsonCompose.PathCompositionIff` | crates/belt-core/src/context.rs:199-243 | over all paths: that law holds in every value if and only if either p is empty and q does not start with a dot, or p is neither empty nor a lone dot, q is non-empty without a leading dot, and neither has a closing bracket but no opening one where the other has an opening one |
| `FmtNum.FmtNum` | crates/belt-cli/src/status.rs:1570-1583 | pushing digits and commas backwards and reversing gives the numeral in groups, whose shape `FmtNumMeaning` gives |
| `FmtNum.GroupPrepend` | crates/belt-cli/src/status.rs:1576-1581 | one more digit opens a new group exactly after every third |
| `FmtNum.FmtNumMeaning` | crates/belt-cli/src/status.rs:1569-1583 | for every number: without commas the text is the decimal numeral, the first group has one to three digits and every later one three, and d digits take d + (d-1)/3 characters |
| `FmtNum.FmtNumInjective` | crates/belt-cli/src/status.rs:1569-1583 | different numbers print differently |
| `Tokens.TallyInvocations` | crates/belt-cli/src/status.rs:637-648 | the loop's totals are the sums over all rows and its map is the tally, unless a total leaves 64 bits |
| `Tokens.TallyMeaning` | crates/belt-cli/src/status.rs:641-648 | the model map has exactly the models of the rows, each with its own sums of inputs, outputs and runs |
| `Tokens.ListModels` | crates/belt-cli/src/status.rs:650-659 | in whatever order the map is visited, every model is listed exactly once with its own sums, and nothing else |
| `Tokens.GatherWorkspaceTokenUsage` | crates/belt-cli/src/status.rs:631-669 | no rows give nothing; otherwise the totals are the row sums and the listing is a descending permutation of one summary per model; it breaks if and only if input and output together leave 64 bits |
| `Tokens.SortMeaning` | crates/belt-cli/src/status.rs:660 | sorting permutes, orders by descending total, keeps equal totals in their order and conserves every sum |
| `Tokens.ModelsPartitionRows` | crates/belt-cli/src/status.rs:641-648 | the models' sums add up to the sum over all rows |
| `Tokens.ListedIsSumOverModels` | crates/belt-cli/src/status.rs:650-659 | a listing of each model once adds up to the models' sums |
| `Tokens.TokensConserved` | crates/belt-cli/src/status.rs:637-668 | listed inputs, outputs, runs and totals add up to the row sums and the grand totals |
| `Tokens.RunsAreRows` | crates/belt-cli/src/status.rs:647 | the runs counted over all models are the number of rows |
| `Tokens.ModelSumsFit` | crates/belt-cli/src/status.rs:645-656 | when the grand total fits in 64 bits, every model's total does |
| `Tokens.BuildPeriodUsage` | crates/belt-cli/src/status.rs:672-701 | the totals are the row sums and the listing is the sorted rows, each with its own total; it breaks if and only if the total of tokens or of runs leaves 64 bits |
| `Tokens.RowSummariesMeaning` | crates/belt-cli/src/status.rs:682-688 | one summary per row, in order, with the row's own model, amounts and total |
| `Tokens.PeriodConserved` | crates/belt-cli/src/status.rs:678-700 | a period's listing is a stable descending permutation of its rows that conserves every sum |

## Left out

- Additions after an overflow: a 32-bit or 64-bit addition out of range ends the model's operation with an outcome of its own, proved to arise exactly then; what a build with wrapping arithmetic does afterwards is not modelled.
- Time below one second, leap seconds and the ends of the representable date range; the clock and the calendar's day, month and weekday are parameters.
- Reading the time of the last run from text: a job comes with its last run, if any.
- A failing database read makes the countdown and the token summary empty in the program; here the rows are given.
- The order in which a hash map lists its models is arbitrary here; that order decides only between equal totals.
- Sorting and unsigned parsing belong to the standard library and are modelled as functions from what it documents.
- JSON and YAML syntax: a policy's text is the list of its entries, a context is a JSON value, and numbers in it are integers.
- The size of values and numbers: a machine word has 64 bits, which decides whether a path segment is an index or a key, and the value by which `JsonCompose.NestSeparates` tells two paths apart holds an array as long as the index it is about.
- `ConflictDetector::detect`: its conflicts are an input of `SpecAdd.AddSpec`, and their JSON text too.
- SQLite: each statement is atomic, commits on its own and fails only for a missing or repeated key; deletion is not modelled.
- Spec content, its validation and its decomposition after activation, priorities and labels; of a new spec's id only that it may be taken.
- Time stamps, worktree marks and the other fields of a queue item that none of the modelled operations reads.
- The interactive response (`crates/belt-cli/src/main.rs:1992-2040`) moves items as `Hitl.Respond` does, but may replace the replan item's note, does not settle specs and cleans up worktrees.
- The daemon's own retries and replans, whose counts follow other rules; in `HitlRuns` new originals have count zero. Of `queue done`, `queue hitl` and `queue skip` only the phase they write is modelled, not the scripts and cleanups around it.
- The dashboard and its own number formatting, progress bars and countdown text, and the text forms of phases, reasons and actions, which would only add easy members.
