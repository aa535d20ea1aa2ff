# cargo-berth in Dafny

A model of the parts of cargo-berth and cargo-handler whose correctness is hard to see by reading
them, with proofs about every input, every run or every reachable state of the model. Pure code is
modelled by functions, and code that updates fields, loops or writes files by methods and classes
proved against such functions. Check it with `dafny verify dfyconfig.toml`.

| part | files |
|---|---|
| the closed-selector schema rewrite and the generator's failure search | `json_schema.dfy`, `closed_selector.dfy`, `closed_selector_meaning.dfy`, `output_contract.dfy` |
| civil dates, recorded timestamps and their order as text | `calendar.dfy`, `decimal_text.dfy`, `timestamps.dfy`, `timestamp_order.dfy` |
| recovery commands printed for a shell | `shell_commands.dfy` |
| the once-only fixture build between crashing processes | `build_protocol.dfy` |
| configuration: parser, printer, initialization, two-level lookup | `rust_text.dfy`, `config.dfy`, `config_lines.dfy`, `config_round_trip.dfy`, `config_layering.dfy` |
| directory snapshots | `text_rewriting.dfy`, `directory_snapshot.dfy` |
| the retained frame of the terminal application | `retained_frame.dfy` |
| the two renderers of drift feedback | `drift_feedback.dfy` |
| reference resolution without git | `references.dfy` |
| overlap answers and alert routing | `selections.dfy`, `alerts.dfy`, `overlap_answers.dfy`, `alert_routing.dfy` |
| optional values and failures, used throughout | `wrappers.dfy` |

## What the proofs found

Where a property one would expect does not hold of the modelled code on all inputs, the code is
modelled as it is, the exact condition is proved, and a failing case is given.

- **Schema rewrite.** The rewrite never loses an instance. It gains none exactly when every known
  value is accepted by the selector's own schema in every instance it can complete, which holds for
  a bare string `enum` and for a `oneOf` of bare string `const`s. A further constraint on the selector
  (such as a `not`) is dropped, because each alternative replaces the selector's schema.
- **Timestamp order.** For timestamps with real calendar fields, text order is time order. The
  format check accepts any digits, though. An accepted text sorts against the real ones as its time
  does exactly when it is real itself, or its year is 9999 or 0 and its month, day and time carry it
  past that end; the few fields that stay inside are spelled out. Texts past opposite ends agree
  with each other, and texts past the same end need not. A leap second, which RFC 3339 section 5.6
  allows, ties with the following midnight.
- **Calendar.** The day-to-date function saturates when shifting to its own epoch, so as a function
  the last 719,468 days of `i64` all map to one date, and every other day makes the round trip. Its
  only caller passes at most the days of a 64-bit count of seconds, which never saturate.
- **Elapsed time.** When the clock moved backwards, the elapsed time is the longest duration there
  is, so it adds along three times exactly when they are in order or one step is empty.
- **Recovery commands.** The words always read back. The first word of an argument vector is still
  not the command when it is a reserved word or an assignment, since those print bare. The vectors
  that cargo-berth makes up begin with its own name; one that repeats the arguments it was started
  with, or is read back from JSON, begins with whatever stood there.
- **Build protocol.** At most one build is recorded complete, but a build may run to its end more
  than once: a process that crashes between finishing and marking makes the next one build again.
  For processes that want the same build, at most one more build is finished than such crashes
  happened. A second build is ruled out altogether exactly for a single process, and in all runs
  without such a crash exactly when all processes want the same build. Returned roots stay whole in
  every run under that same condition, and then every process that has not crashed can always return.
- **Retained frame.** A reused body is current exactly when the content and toasts it was painted
  from are those now to be shown. Every run of the application's own events is current. That rests
  on polls discarding the body when something changed: a full-frame request alone would not do,
  since a clock request overrides it.
- **Drift feedback.** The renderers agree on stopping, and on silence but for one case: a reservation
  that could not be compared is reported by the plain renderer and not by the live-board one. The
  plain renderer tells a first touch alone, so it can stop a run for a collision without naming it.

## Model

| member | source | states |
|---|---|---|
| ClosedSelector.TransformClosedSelector | crates/cargo-berth/src/output.rs:289-375 | succeeds exactly on object schemas with one closed, required, nonempty, all-string, distinct selector; the result holds one alternative per known value, in order; an error is the one whose guard fails while every earlier guard passed |
| ClosedSelector.ClosedExactly | crates/cargo-berth/src/output.rs:191-215 | a property is closed exactly when it has an `enum` array, or else a `oneOf` array whose every alternative holds a `const` beside anything else, and then over exactly these items or constants in order |
| ClosedSelector.AcceptedExactly | crates/cargo-berth/src/output.rs:289-352 | in terms of the schema alone, the rewrite is accepted if and only if exactly one property lists values and these are required, strings, some, and distinct |
| ClosedSelector.DescribedConstantsAreAccepted | crates/cargo-berth/src/output.rs:196-215 | a selector that is a `oneOf` of string constants is accepted whatever else its alternatives hold |
| ClosedSelector.SelectsUniquely | crates/cargo-berth/src/output.rs:307-320 | a schema selects by at most one property and one list of values, so the result does not depend on map order |
| ClosedSelector.FirstRepeat | crates/cargo-berth/src/output.rs:344-352 | inserting values one by one into a set finds the first value that occurs before it, and none exactly when all are distinct |
| ClosedSelectorMeaning.ClosedAcceptsOnlyKnown | crates/cargo-berth/src/output.rs:191-215 | a property counted as closed accepts no value outside those it names |
| ClosedSelectorMeaning.AlternativeMeaning | crates/cargo-berth/src/output.rs:355-370 | one alternative accepts exactly the objects that pass everything else and hold that alternative's value |
| ClosedSelectorMeaning.TransformedMeaning | crates/cargo-berth/src/output.rs:353-375 | the rewritten schema accepts exactly the instances that pass everything else and name a known value |
| ClosedSelectorMeaning.OneAlternativeAccepts | crates/cargo-berth/src/output.rs:344-375 | of an accepted instance, exactly the alternative of its own value accepts it |
| ClosedSelectorMeaning.TransformAcceptsEveryInstance | crates/cargo-berth/src/output.rs:289-375 | every instance of the input schema is an instance of the output |
| ClosedSelectorMeaning.TransformEquivalence | crates/cargo-berth/src/output.rs:289-375 | input and output accept the same instances if and only if no known value is refused by the selector's schema in an instance that passes the rest |
| ClosedSelectorMeaning.BareSelectorTransformPreservesMeaning | crates/cargo-berth/src/output.rs:191-215 | for a selector that is a string `enum` or a `oneOf` of bare string constants, input and output accept the same instances |
| ClosedSelectorMeaning.ConstrainedSelectorLosesItsConstraint | crates/cargo-berth/src/output.rs:355-370 | an `enum` of two values with a `not` of the second passes every guard; the input refuses the second variant and the rewrite accepts both |
| OutputContract.SerializesAsObject | crates/cargo-berth/src/output.rs:282-287 | the schema is replaced by its rewrite exactly when it has such a selector, and else by the failure schema of the guard that failed |
| OutputContract.RejectedAcceptsNothing | crates/cargo-berth/src/output.rs:245-276 | no instance satisfies a failure schema |
| OutputContract.FailureIsRecorded | crates/cargo-berth/src/output.rs:229-276 | two failures leave the same schema only when they are the same failure over the same member, value and count |
| OutputContract.StopsExactlyOnFailure | crates/cargo-berth/src/output_contract.rs:136-182 | generation stops if and only if some object at some depth, through any arrays and objects, has the failure member |
| OutputContract.FailurePath | crates/cargo-berth/src/output_contract.rs:153-182 | what stops generation is the failure recorded at some place in the schema, and that record is the one reported |
| OutputContract.EmbeddedRejectionStops | crates/cargo-berth/src/output_contract.rs:142-182 | a failure schema at any position of any schema stops generation |
| OutputContract.TransformedStops | crates/cargo-berth/src/output_contract.rs:153-182 | an accepted rewrite stops generation only when the schema around the selector already did, or the selector is named like the failure member |
| Calendar.DayRoundTrip | crates/cargo-berth/src/ids.rs:546-631 | every `i64` day gives a valid date; converting it back gives the day if and only if the shift to the civil epoch does not saturate, and saturated days share one date |
| Calendar.DateRoundTrip | crates/cargo-berth/src/ids.rs:546-631 | every valid date whose day is representable is found again from its day, negative days included |
| Calendar.NextDateIsNextDay | crates/cargo-berth/src/ids.rs:592-631 | the Gregorian successor of any valid date, leap years included, has the next day number |
| Calendar.DaysFollowCalendar | crates/cargo-berth/src/ids.rs:546-590 | day 0 is 1970-01-01 and day n+1 is the Gregorian successor of day n |
| Calendar.DatesInOrder | crates/cargo-berth/src/ids.rs:592-631 | an earlier date has a smaller day number |
| Calendar.EraIsFloorOfDay | crates/cargo-berth/src/ids.rs:562-568 | the branch for negative days makes the truncating division a floor, so the day of the era is in range |
| Calendar.YearOfEraFindsYear | crates/cargo-berth/src/ids.rs:568-576 | the correction by 1460, 36524 and 146096 days finds the year of the era that holds the day; a 366th day is met only in a leap year |
| DecimalText.PaddedIsFixed | crates/cargo-berth/src/ids.rs:431-434 | zero padding gives exactly the field width when the number fits it and a longer text when it does not |
| Timestamps.TextOfFields | crates/cargo-berth/src/ids.rs:528-544 | every accepted text is what its seven numbers print as |
| Timestamps.FieldsOfText | crates/cargo-berth/src/ids.rs:528-544 | the printed form of any seven numbers that fit is accepted and read back as them |
| Timestamps.MillisecondsOfText | crates/cargo-berth/src/ids.rs:455-475 | for every accepted text, parsing and the saturating arithmetic give the exact count of milliseconds its fields name |
| Timestamps.ReadsSignedNumbers | crates/cargo-berth/src/ids.rs:461-468 | digits with or without a sign read as the number they print, and as zero when it does not fit 64 bits |
| Timestamps.ReadsOthersAsZero | crates/cargo-berth/src/ids.rs:461-468 | every other slice reads as zero |
| TimestampOrder.RecordedRoundTrip | crates/cargo-berth/src/ids.rs:416-435 | a clock reading's text is accepted exactly before year 10000, and then reads back as the same millisecond |
| TimestampOrder.RealTextOrder | crates/cargo-berth/src/ids.rs:408-475 | on timestamps with real calendar fields text order is time order, and equal texts are equal times |
| TimestampOrder.AcceptedTextOrder | crates/cargo-berth/src/ids.rs:408-475 | an accepted text sorts against all real timestamps as its time does if and only if its fields are real, or its year is 9999 or 0 and its month, day and time of day put it past that end, as given field by field |
| TimestampOrder.OppositeSidesAgree | crates/cargo-berth/src/ids.rs:408-475 | two accepted texts past opposite ends of the four-digit years are ordered as their times |
| TimestampOrder.TwoTextsBeyondLastDisagree | crates/cargo-berth/src/ids.rs:408-475 | of two accepted texts past the year 9999, the 99th of December sorts before the first of a thirteenth month and is later |
| TimestampOrder.LeapSecondTies | crates/cargo-berth/src/ids.rs:528-544 | the leap second of any day is accepted, sorts before the next midnight, and is the same millisecond |
| TimestampOrder.ElapsedAdds | crates/cargo-berth/src/ids.rs:438-443 | for all accepted texts elapsed times add along three of them if and only if they are in time order or one of the two steps is empty |
| TimestampOrder.ElapsedIsDifference | crates/cargo-berth/src/ids.rs:438-443 | between two accepted texts the elapsed time is the difference of their times in milliseconds, or the longest 64-bit duration when the second is earlier |
| TimestampOrder.ElapsedBetweenReadings | crates/cargo-berth/src/ids.rs:416-443 | between the texts of two clock readings it is the milliseconds between the readings |
| TimestampOrder.ElapsedAddsInTextOrder | crates/cargo-berth/src/ids.rs:408-443 | elapsed times add along three real timestamps whose texts are in order |
| TimestampOrder.FollowsByText | crates/cargo-berth/src/ids.rs:445-453 | a record follows a commit exactly when its text does not sort before the text of the next whole second, so never within the commit's own second |
| TimestampOrder.ReadingFollows | crates/cargo-berth/src/ids.rs:445-453 | the text of a clock reading follows a commit exactly when the reading was taken in a later second |
| TimestampOrder.FollowsOutsideTheYears | crates/cargo-berth/src/ids.rs:445-453 | a commit whose next second has no four-digit year is followed by every record when it is before the epoch and by none when after |
| ShellCommands.DisplayReadsBack | crates/cargo-berth/src/coordination_identity.rs:339-355 | tokenizing a printed recovery action by IEEE 1003.1 XCU sections 2.2.1, 2.2.2 and 2.3 gives `cd`, the directory, one `&&` and the argument vector, whatever characters they hold |
| ShellCommands.QuotedRun | crates/cargo-berth/src/coordination_identity.rs:952-966 | a quoted word leaves the shell's scanner inside exactly that word, quoted exactly when it was not plain |
| ShellCommands.RenderRun | crates/cargo-berth/src/coordination_identity.rs:177-183 | a rendered argument vector reads as its words in order, empty ones and ones with apostrophes, blanks, `&` or newlines included |
| ShellCommands.DisplayIsInjective | crates/cargo-berth/src/coordination_identity.rs:339-355 | two actions print alike only with the same directory and the same argument vector |
| ShellCommands.FirstWordIsCommand | crates/cargo-berth/src/coordination_identity.rs:952-966 | the first word of the vector is run as the command exactly when it is neither a reserved word printed bare nor a bare assignment (IEEE 1003.1 XCU sections 2.4 and 2.10.2) |
| ShellCommands.SomeFirstWordsAreNotCommands | crates/cargo-berth/src/coordination_identity.rs:952-966 | a vector that begins with `if` or with `A=b` is printed so that its first word is not the command |
| BuildProtocol.StepKeepsInv | crates/cargo-berth-test-support/src/repository_template.rs:283-319 | every step of every process, crashes included, keeps the invariant, never removes a written mark, and never finds a leftover root to create over |
| BuildProtocol.OnceOnly | crates/cargo-berth-test-support/src/repository_template.rs:283-319 | over every run for one key each returned root is whole and stays whole, a mark is never removed, at most one build is recorded complete, and at most one more build is finished than processes crashed between finishing and marking |
| BuildProtocol.FinishesOnceExactlyForOneKey | crates/cargo-berth-test-support/src/repository_template.rs:308-318 | in all runs in which no process crashes between finishing and marking at most one build is finished, if and only if all processes want the same build |
| BuildProtocol.FinishesOnceExactlyAlone | crates/cargo-berth-test-support/src/repository_template.rs:308-318 | in all runs, crashes at any step included, at most one build is finished, if and only if there is at most one process |
| BuildProtocol.SafeExactlyForOneKey | crates/cargo-berth-test-support/src/repository_template.rs:388-405 | returned roots stay whole in all runs if and only if all processes want the same build |
| BuildProtocol.OneProcessBuilds | crates/cargo-berth-test-support/src/repository_template.rs:283-319 | from an empty directory one process can build, mark, unlock and return its root |
| BuildProtocol.MarkedIsReturnedByCheck | crates/cargo-berth-test-support/src/repository_template.rs:308-310 | a process that finds its build marked returns at once and changes nothing |
| BuildProtocol.MarkedIsReturnedUnderLock | crates/cargo-berth-test-support/src/repository_template.rs:311-318 | a process that finds the mark only under the lock releases the lock and returns, and neither builds nor removes anything |
| BuildProtocol.OnlyCrashesCrash | crates/cargo-berth-test-support/src/repository_template.rs:283-319 | for one key, a run in which nothing from outside crashes a process leaves none crashed |
| BuildProtocol.ProcessCanReturn | crates/cargo-berth-test-support/src/repository_template.rs:283-319 | for one key, every process that has not crashed can return from every reachable state, whatever crashed and wherever the others stand |
| BuildProtocol.EveryRunCanReturn | crates/cargo-berth-test-support/src/repository_template.rs:283-319 | for one key, every run can go on until all processes that have not crashed have returned whole roots, which is every process after a run without outside crashes |
| BuildProtocol.OtherKeySweepsReturnedRoot | crates/cargo-berth-test-support/src/repository_template.rs:388-405 | a process that wants another key reaches a state in which a returned root is gone and two builds are finished although nothing crashed |
| BuildProtocol.FinishedTwice | crates/cargo-berth-test-support/src/repository_template.rs:372-383 | any two processes can both run a build to its end, the first crashing before its mark |
| BuildProtocol.SweepMayStopHalfway | crates/cargo-berth-test-support/src/repository_template.rs:388-405 | a sweep that crashes midway leaves a damaged root without a mark |
| Config.StripComment | crates/cargo-berth/src/config.rs:474-487 | the result is the text before the first `#` preceded by an even number of quotes; without one it is the whole line when its quotes are even, and an error when they are odd |
| Config.ParsedConfigValues.constructor | crates/cargo-berth/src/config.rs:340-349 | parsing starts with every slot missing |
| Config.ParsedConfigValues.Set | crates/cargo-berth/src/config.rs:351-370 | an invalid value or an unknown key is refused before a repeated key, a refusal changes nothing, and a success fills exactly the slot of its key |
| Config.ReadLine | crates/cargo-berth/src/config.rs:327-336 | one line changes the slots as its setting does, or not at all when it holds none |
| Config.FromToml | crates/cargo-berth/src/config.rs:325-338 | the loop over the lines gives the configuration that the line-by-line specification gives, or its first error |
| ConfigLines.AcceptedExactly | crates/cargo-berth/src/config.rs:325-370 | a text is accepted if and only if each of its lines reads as a valid setting or as nothing and no two lines set the same key |
| ConfigLines.ConfiguredByLines | crates/cargo-berth/src/config.rs:372-390 | in an accepted configuration a key has the value its line gives, and exactly the keys that no line sets have their default |
| ConfigLines.SettingExactly | crates/cargo-berth/src/config.rs:352-370 | a value is accepted for a key exactly when it is written as that key demands: a quoted string without quotes, `observe` or `enforce`, an absolute path, `first_ready`, or digits with an optional plus that fit 32 bits |
| ConfigLines.StringRefusals | crates/cargo-berth/src/config.rs:461-472 | a refused string is unterminated when only its closing quote is missing, and a syntax error when its opening one is or when it holds a third |
| ConfigLines.SettingRefusals | crates/cargo-berth/src/config.rs:352-370 | exactly the keys other than the six are unknown, whatever the value; a string or number that its key does not allow is an invalid value of that key |
| ConfigLines.LineGivesExactly | crates/cargo-berth/src/config.rs:327-336 | a line gives a setting exactly when, before any comment, the trimmed texts around its first `=` are a key and such a value |
| ConfigLines.LineIsBlankExactly | crates/cargo-berth/src/config.rs:327-331 | a line gives nothing without an error exactly when it is blank up to any comment |
| ConfigRoundTrip.ParsedIsPrintable | crates/cargo-berth/src/config.rs:461-494 | every accepted configuration holds only strings without quotes and newlines, an absolute approver, and limits that fit 32 bits |
| ConfigRoundTrip.QuotedEntryReads | crates/cargo-berth/src/config.rs:461-487 | any text without a quote survives printing in quotes and reading, `#` and `=` included |
| ConfigRoundTrip.PrintedReadsBack | crates/cargo-berth/src/config.rs:303-338 | parsing what is printed for any printable configuration gives that configuration |
| ConfigRoundTrip.ParsedReprints | crates/cargo-berth/src/config.rs:303-338 | for every accepted text, printing its configuration and parsing again gives the same configuration |
| ConfigRoundTrip.LineOrderIsIrrelevant | crates/cargo-berth/src/config.rs:325-370 | two texts with the same lines in any order are both refused or configure the same |
| ConfigLayering.Worktrees.Initialize | crates/cargo-berth/src/config.rs:187-231 | a worktree that has a file keeps it, and a broken one is reported; otherwise the caller's file or the default is written, a broken caller's file being reported instead; a file that appears between the look and the exclusive creation is kept and validated |
| ConfigLayering.ReadFileExactly | crates/cargo-berth/src/config.rs:292-301 | a file reads as missing exactly when there is none, and as an error exactly when it cannot be opened, a line of it is no setting, or two of its lines set one key |
| ConfigLayering.ReadExactly | crates/cargo-berth/src/config.rs:233-278 | a lookup fails exactly when a file it depends on is broken, names the file to create exactly when there is none, and else takes the policy from the main file and the limits from the worktree's own, each where it exists |
| ConfigLayering.InitializeAlone | crates/cargo-berth/src/config.rs:187-231 | without interference it succeeds exactly when the initialized file can be read, or is missing and the caller's can be read, and a failure changes no file |
| ConfigLayering.InitializedFileReads | crates/cargo-berth/src/config.rs:197-231 | afterwards the initialized file reads as what it held, or the caller's configuration, or the default, and every other file is untouched |
| ConfigLayering.InitializationKeepsCallersConfig | crates/cargo-berth/src/config.rs:187-278 | an enrolled caller reads the same configuration before and after |
| ConfigLayering.InitializationEnrolls | crates/cargo-berth/src/config.rs:187-278 | an unconfigured caller is told the path that is then created, and is enrolled with the defaults |
| ConfigLayering.MainGovernsEveryWorktree | crates/cargo-berth/src/config.rs:234-278 | afterwards every worktree of that main whose own file is missing or readable is enrolled with the main file's trunk, gate mode, approver and default answer, an own file keeping its limits |
| ConfigLayering.InitializationIsIdempotent | crates/cargo-berth/src/config.rs:187-231 | initializing again succeeds and changes nothing |
| DirectorySnapshots.DirectorySnapshot.CaptureDirectory | crates/cargo-berth-test-support/src/directory_snapshot.rs:56-80 | appends each path under the directory once, with its contents and mode, every directory before what it contains, for any listing order; it fails exactly when it meets something that is neither file nor directory |
| DirectorySnapshots.DirectorySnapshot.CaptureChild | crates/cargo-berth-test-support/src/directory_snapshot.rs:57-79 | does the same for one child and everything under it |
| DirectorySnapshots.DirectorySnapshot.ReplaceText | crates/cargo-berth-test-support/src/directory_snapshot.rs:90-108 | in every captured file each occurrence of the text gives way to the other and all else stays, and exactly the files that contain it are named; it fails exactly when one of them is not text |
| TextRewriting.ReplacedExactly | crates/cargo-berth-test-support/src/directory_snapshot.rs:99-101 | the rewritten contents are the only ones that join, by the new text, the pieces between the occurrences of the old one, each found from the end of the one before |
| DirectorySnapshots.MentioningInOrder | crates/cargo-berth-test-support/src/directory_snapshot.rs:91-107 | the named paths are those of the entries that contain the text, in order and once each |
| DirectorySnapshots.DirectorySnapshot.Restore | crates/cargo-berth-test-support/src/directory_snapshot.rs:116-154 | whatever the root held before, the result is what the entries write into an empty root, and it succeeds exactly when every entry finds its parent there and its place free |
| DirectorySnapshots.ClearRoot | crates/cargo-berth-test-support/src/directory_snapshot.rs:117-129 | removing each listed child leaves only the root, in any listing order |
| DirectorySnapshots.ListingRestores | crates/cargo-berth-test-support/src/directory_snapshot.rs:116-154 | writing any listing of a tree into an empty root yields exactly that tree |
| DirectorySnapshots.RewrittenLists | crates/cargo-berth-test-support/src/directory_snapshot.rs:90-108 | rewriting a listing gives a listing of the tree with its file contents rewritten |
| DirectorySnapshots.CopyTree | crates/cargo-berth-test-support/src/directory_snapshot.rs:50-154 | capturing one root, rewriting and restoring into another with any contents succeeds exactly for trees of files and directories whose rewritten files are text; the result has the same paths, directories and modes, and file contents with every occurrence replaced |
| RetainedFrame.DeadlineProtects | crates/cargo-handler/src/app.rs:413-440 | an unchanged toast deadline that has not passed means the toasts look the same as when the body was painted |
| RetainedFrame.DeadlineIsAhead | crates/cargo-handler/src/app.rs:414-428 | a toast deadline is the next scheduled change, but at least a poll of 8 milliseconds away, so the guard never finds the deadline it has just computed passed |
| RetainedFrame.FrameIsCurrentExactly | crates/cargo-handler/src/app.rs:413-456 | in every reachable state a frame equals a full paint if it is painted anew or the content and toasts the retained body was painted from are those now to be shown, and only if, for every body that tells its inputs apart |
| RetainedFrame.FramesFollowTheColorMode | crates/cargo-handler/src/app.rs:430-446 | without colour no cell of a frame holds ink, with colour a painted frame is as painted, and symbols always are |
| RetainedFrame.RunIsCurrentExactly | crates/cargo-handler/src/app.rs:413-456 | over every run, all frames equal full paints if no reuse of the body happens while what it was painted from differs from what is to be shown, and only if, for every body that tells its inputs apart |
| RetainedFrame.HonoredRunsAreCurrent | crates/cargo-handler/src/app.rs:117-134 | over every run in which no frame is drawn while a full-frame request stays overridden by a clock request, until a discard or a new full-frame request, every frame equals a full paint |
| RetainedFrame.LoopFramesAreCurrent | crates/cargo-handler/src/terminal.rs:386-420 | over every run of keys, clicks, wheel steps, resizes, polls, tile motion and frames, every frame equals a full paint |
| RetainedFrame.ClockOverridesFullRequest | crates/cargo-handler/src/app.rs:220-232 | the two requests in an order the loop never issues: a clock request after a full-frame request shows the old body, so each change needs a discard of its own |
| RetainedFrame.DiscardedIsNotReused | crates/cargo-handler/src/app.rs:224-229 | once discarded, a body is not reused whatever happens before the next frame and whatever the size |
| RetainedFrame.App.constructor | crates/cargo-handler/src/app.rs:271-319 | the first frame is painted in full |
| RetainedFrame.App.RequestClockFrame | crates/cargo-handler/src/app.rs:220-223 | changes the request alone |
| RetainedFrame.App.InvalidateBody | crates/cargo-handler/src/app.rs:225-229 | discards the body and asks for a full frame |
| RetainedFrame.App.PrepareFullFrame | crates/cargo-handler/src/app.rs:231-232 | asks for a full frame and keeps the body |
| RetainedFrame.App.OnKey | crates/cargo-handler/src/app.rs:486-489 | a key's changes are never shown from the retained body |
| RetainedFrame.App.OnClick | crates/cargo-handler/src/app.rs:463-466 | a click's changes are never shown from the retained body |
| RetainedFrame.App.OnScroll | crates/cargo-handler/src/app.rs:458-461 | a wheel step's changes are never shown from the retained body |
| RetainedFrame.App.OnPoll | crates/cargo-handler/src/terminal.rs:386-420 | a poll that changed anything discards the body, one that only moved the uptime asks for a clock frame, and another leaves a full request |
| RetainedFrame.App.DrawFrame | crates/cargo-handler/src/app.rs:413-456 | the frame and the new state are those of the fast path exactly when its guard holds, the request is always used up, and an unstable body is never kept |
| DriftFeedback.AppendEffects | crates/cargo-berth/src/output.rs:3720-3769 | the inner loop answers unverifiable exactly when some incursion of the result is on neither or both of the board's lists, and otherwise appends the result's stops and notices in order |
| DriftFeedback.MembershipExactly | crates/cargo-berth/src/board/rows.rs:571-590 | an incident is outstanding or recorded when exactly that list holds it, and unverifiable when both or neither do |
| DriftFeedback.LiveRendering | crates/cargo-berth/src/output.rs:3695-3784 | the answer is the unverifiable stop exactly when some incursion anywhere in the report is unverifiable; otherwise its detail is all stops, then the notices, then a line for each alert but those on orphaned reservations, in order, under the stop heading if there are stops, else that of lost evidence if there is such an alert, else one that states the notices and alerts |
| DriftFeedback.StopsInReportOrder | crates/cargo-berth/src/output.rs:3712-3770 | the effect stops are, in report order and once each, those of every outstanding incursion and every collision, and of nothing else |
| DriftFeedback.StopDecisionsAgree | crates/cargo-berth/src/output.rs:3695-3841 | on every report without incursions both renderers stop exactly when the attribution is an incursion or ambiguous, acquisition was refused, or some result collided |
| DriftFeedback.PlainStopsExactly | crates/cargo-berth/src/output.rs:3786-3841 | the plain renderer heads its feedback with the stop exactly then |
| DriftFeedback.PlainPresents | crates/cargo-berth/src/output.rs:3836-3840 | the plain renderer presents its lines in that same way, as stops exactly when the run must stop |
| DriftFeedback.FirstLinesInOrder | crates/cargo-berth/src/output.rs:3911-3957 | the widening and the collision lines are one for each result that has such an effect, in report order and for the first of its effects |
| DriftFeedback.PlainLinesTell | crates/cargo-berth/src/output.rs:3806-3835 | what the plain renderer says under each attribution: the engine message, or each widening, collision and refusal by its own line, except that a first touch tells only itself and a refusal |
| DriftFeedback.LiveStopsExactly | crates/cargo-berth/src/output.rs:3695-3784 | the live-board renderer has a stop message exactly then |
| DriftFeedback.SilenceDiffers | crates/cargo-berth/src/output.rs:5020-5064 | without incursions, a silent plain renderer means a silent live one; the live one alone is silent exactly when nothing but an uncomparable reservation is to be reported |
| References.ReadFixtureReference | crates/cargo-berth-test-support/src/git_driver.rs:314-361 | the loop answers an object exactly when at most seven symbolic hops lead to it, loose files going before packed entries and HEAD being read per worktree |
| References.ReadPacked | crates/cargo-berth-test-support/src/git_driver.rs:346-356 | the search of the packed file answers as its specification, which takes the first line that names the reference |
| References.FixtureReferenceRead | crates/cargo-berth-test-support/src/git_driver.rs:291-312 | the fast path answers an object exactly for `rev-parse` of one known name that resolves, and every other question goes to git |
| References.ResolutionIsUnique | crates/cargo-berth-test-support/src/git_driver.rs:314-361 | a reference resolves to at most one object after exactly one number of hops |
| References.CyclesResolveNothing | crates/cargo-berth-test-support/src/git_driver.rs:314-361 | a chain that runs into a cycle, at its start or further along as every cycle from HEAD does, resolves to nothing, so git is asked |
| References.PackedHopMeaning | crates/cargo-berth-test-support/src/git_driver.rs:346-356 | packed references answer with the object of the first line naming the reference, when it is an object name |
| References.LooseHopExactly | crates/cargo-berth-test-support/src/git_driver.rs:335-344 | a loose file names an object or points to another reference exactly as its trimmed text says, and only inside `refs/` and without a `..` part |
| References.HopReadsFrom | crates/cargo-berth-test-support/src/git_driver.rs:329-358 | HEAD is read from the worktree's own git directory and every branch from the shared one, a loose file before the packed references |
| References.PackedLineExactly | crates/cargo-berth-test-support/src/git_driver.rs:348-353 | a packed line names a reference exactly when it is an object, one space before which there is none, and the reference |
| References.ObjectNamesAreHex | crates/cargo-berth-test-support/src/git_driver.rs:363-366 | an object name is 40 or 64 hexadecimal digits of either case |
| References.KnownReferenceExactly | crates/cargo-berth-test-support/src/git_driver.rs:301-308 | the fast path takes HEAD, and each of the two fixture branches by its short and its full name |
| References.PlaceIsUnknown | crates/cargo-berth-test-support/src/git_driver.rs:315-326 | no place is found when `.git` is neither a directory nor a pointer, or when the shared directory cannot be read |
| References.MainWorktreePlace | crates/cargo-berth-test-support/src/git_driver.rs:315-326 | in a main worktree both directories are its `.git` |
| References.LinkedWorktreePlace | crates/cargo-berth-test-support/src/git_driver.rs:315-326 | a linked worktree's `.git` file names its own directory, and the `commondir` file in there the shared one |
| References.LinkedHeadResolves | crates/cargo-berth-test-support/src/git_driver.rs:314-361 | a linked worktree's HEAD resolves to the object of its own branch, whatever the main worktree has checked out |
| OverlapAnswers.SequencedBlockers | crates/cargo-berth/src/cli.rs:1364-1396 | fails exactly when some holder is named in both directions, naming such a holder, and otherwise returns the first mentions |
| OverlapAnswers.FirstMentionsInOrder | crates/cargo-berth/src/cli.rs:1378-1394 | the answer is read off the mentions at exactly the places where a holder is first named, in order, `--before` holders first |
| OverlapAnswers.AnswerIsWhatWasNamed | crates/cargo-berth/src/cli.rs:1364-1396 | each named holder occurs once, with its own flag's direction, and no other holder occurs |
| OverlapAnswers.AnswerFollowsTheFlags | crates/cargo-berth/src/cli.rs:1368-1394 | the answer follows the `--before` list and then the `--after` list, at exactly the places that name a holder not named before, with the direction of that place's flag |
| AlertRouting.EveryAlertReachesSomeone | crates/cargo-berth/src/alert.rs:265-310 | for every alert and invoking worktree, that worktree's opening session delivers it or a live holder's worktree is delivered it on both hook occasions |
| AlertRouting.DeliveredExactly | crates/cargo-berth/src/alert.rs:274-310 | a completed Bash call delivers an alert exactly to holders of a reservation it names, and an opening session also to everyone when none of those is held live |
| AlertRouting.EveryHolderIsTold | crates/cargo-berth/src/alert.rs:84-101 | the holder of each reservation an alert is about, every one waiting on an uncovered target included, is delivered it on both hook occasions |
| AlertRouting.DeliveriesNest | crates/cargo-berth/src/alert.rs:274-286 | a worktree's Bash occasion delivers no more than its opening session, a direct invocation delivers everything, and delivery depends only on the set of named reservations |
| AlertRouting.RouteKeepsOrder | crates/cargo-berth/src/alert.rs:265-272 | routing keeps exactly the delivered alerts, in their order |

## Left out

- Schema `$ref` and `$defs`: every schema here is self-contained. Keywords outside the interpreted
  ones are a parameter that may look at its siblings, but not at what `properties` says of a name.
- JSON object order: an object is a finite map, so which of several failures the generator reports
  first is not determined.
- Overflow inside the calendar arithmetic: integers are unbounded except for the saturating shift,
  and dates are taken far enough inside `i64` that ids.rs does not overflow.
- A system clock before 1970: cargo-berth reads it as the epoch, which is the reading of zero seconds here.
- WireOrderedReservationIds: sorting and deduplicating through library calls is not modelled.
- Shell tokenizer: whatever would be more than words and `&&` (expansions, other operators,
  comments, double quotes) is one refusing state.
- Build protocol: it is a transition system on values. A crash is a step of its own, file system
  calls are atomic but for the removal of a directory tree, and the calls' own failures are crashes.
- `prepare_before_run`, `prepare_fixture_build` and expiry of recorded-ledger templates: they
  repeat the protocol with another mark or a timer.
- ConfigLayering.Worktrees.Initialize: does not model write errors, or a crash between creating the
  file and writing it, because cargo-berth has no recovery for either.
- `exclude_from_git` and the parser's error wording.
- DirectorySnapshots.DirectorySnapshot.Restore: permissions of directories, which are not
  captured, and hard-linked hook scripts, which are plain files with their contents and mode here.
- UTF-8: which file contents are text is a parameter of the snapshot rewrite.
- Age texts: what the body shows of the clock changes with the polls that report it, so a frame drawn
  after such a text has flipped and before the next poll is not modelled.
- Painting: body and status line are arbitrary functions of what they depend on; the status line
  covers its own row. Toasts that are pruned are taken to show nothing any more.
- RetainedFrame.App.DrawFrame: the counter of full frames kept in test builds is not part of the
  state.
- Feedback wording, maintenance notices and engine messages: a line stands for what it states.
- References.ReadFixtureReference: a file's contents are one answer per path, so a reference that
  moves between two reads is not modelled.
- `overlap_selection` and the request conversions: finite tables.
