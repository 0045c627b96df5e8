# show-timer: the timer logic in Dafny

This project models the pure logic behind show-timer's timer screens, written as Dafny functions over integers, sequences and records. Every rendering and animation layer is left out. The wall clock, stored text and file contents are passed in as parameters. The modules are:

- **Keypad codecs.**
  - `StageValueCodec` is the array encoding: the newest digit goes to index 0, and a decoder reads the digits as HHMMSS.
  - `DurationPicker` is the string encoding: a six-character "HHMMSS" text is shifted as digits arrive, and read back into optional hours, minutes and seconds.
  - `NumberButton` maps keys to actions and labels.
  - `TwoDigit` is the two-character formatter.
- **Count-up timer** (`CountUpTimer`): elapsed seconds, plus the inclusive alert/warning/okay classification against two keypad-edited thresholds.
- **Clock timer** (`ClockTimer`):
  - the time of day as a duration;
  - the length-gated disabled keys;
  - the display press;
  - the props passed to the layout.
- **Display decomposition**:
  - `Countdown` clamps to the cap, then splits into sign, days, hours, minutes and seconds, with leading-zero flags and the seconds variant.
  - `AnimatedNumber` selects the digit at a position.
- **Persistence store** (`TimersPersist`): a state machine made of the latest snapshot, a pending snapshot, an in-flight write flag and the loaded data. The flush ticks, write completions and load results are its events.
- **Stand-alone border timer** (`LegacyTimer`):
  - `formatTime`;
  - the twenty-minute remaining-time formula;
  - the border colour thresholds;
  - start-up, foreground, tick and reset.
- **Newer timer screen**:
  - `StageSelector` holds `durationToString`, the indicator position and the button actions.
  - `TimerScreen` holds `durationsToSeconds`, the selection of the stage to edit, and the baseline seconds.
- **Pagination** (`Pagination`): the page under a scroll offset, wrap-around previous/next, and the spacer widths.

There are also helper modules:

- `Decimal` models JavaScript `toString`, `parseInt`, `padStart(2, "0")` and the truncating `%`.
- `ColonTime` is a reference reader for "H:MM:SS" text. The formatters' round trips are stated against it.
- `Colours` and `Stages` hold the stage enumerations.
- `Wrappers` holds `Option`, which models `null` and `undefined`.

Dafny's `/` by a positive divisor rounds down, so it is used for `Math.floor(a / b)`. `JsRem` models JavaScript's `%` wherever the left operand can be negative.

The backspace action of the array encoding drops the **last** element of the value (`prevValue.slice(0, -1)`). That element is the oldest, most significant digit, not the newest one. The model follows the code.

The clock timer's key gating allows the hour digits "2" then "5". A digit-only entry therefore reaches at most 25 hours, not 23, as `ClockTimer.DigitOnlyEntryIsClockLike` and `ClockTimer.GatingAdmitsHourTwentyFive` state. The gating looks only at the length of the value, so double-zero and backspace escape it. `ClockTimer.DoubleZeroEscapesGate` shows an entry of 55 hours and 95 minutes made only with enabled keys.

## Model

| member | source | states |
|---|---|---|
| NumberButton.OnPress | features/number-pad/NumberButton.tsx:29-41 | no handler without `onAction`; a digit key emits `number` with that digit, backspace emits `backspace`, double-zero emits `double-zero`, and a press never emits `clear` |
| NumberButton.OnLongPress | features/number-pad/NumberButton.tsx:43-50 | a long-press handler exists exactly for backspace with `onAction`, and it emits `clear` |
| NumberButton.Label | features/number-pad/NumberButton.tsx:52-58 | a digit key shows that one digit; the other keys show two characters, "<-" for backspace and "00" for double-zero |
| NumberButton.PressIsInjective | features/number-pad/NumberButton.tsx:32-39 | distinct keys emit distinct press actions |
| NumberButton.LabelIsInjective | features/number-pad/NumberButton.tsx:52-58 | distinct keys carry distinct labels |
| StageValueCodec.GetActionValue | features/timers/getActionValue.ts:6-32 | clear gives the empty value; backspace on empty gives empty; otherwise backspace removes exactly the last element and keeps the rest in order; number and double-zero put the digit (or 0, 0) at the front; the tail is the previous value cut to the length limit; the length is never above 6 when the input's is not |
| StageValueCodec.TwoDigitText | utils/stageValueToDuration.ts:71-73 | `parseInt` of two adjacent digits is 10·a + b |
| StageValueCodec.StageValueToDuration | utils/stageValueToDuration.ts:11-77 | null, empty and over-long values decode to null; a value of length 1 to 6 decodes to 3600·(10·v5+v4) + 60·(10·v3+v2) + 10·v1+v0, absent positions read as 0; the result is at most 362439 |
| StageValueCodec.Typed | features/timers/getActionValue.ts:18-22 | digits pressed in turn from the unset value give a value of length min(n, 6) whose first element is the last digit pressed |
| StageValueCodec.TypedKeepsNewestSix | features/timers/getActionValue.ts:18-22 | typed digits are the six newest, newest first; each digit beyond six drops the oldest |
| StageValueCodec.FiveZeroZeroIsFiveMinutes | utils/stageValueToDuration.ts:39-41 | pressing 5, 0, 0 gives [0, 0, 5], which decodes to 300 seconds |
| StageValueCodec.DocumentedExamples | utils/stageValueToDuration.ts:4-9 | the decoder's documented examples: [0]→0, [1]→1, [2,1]→12, [4,3,2,1]→754, [6,5,4,3,2,1]→45296 |
| StageValueCodec.HighZeroIsNeutral | utils/stageValueToDuration.ts:18-66 | appending 0 at the most significant end of a value shorter than 6 leaves the decoded duration unchanged |
| StageValueCodec.DoubleZeroIsTwoZeros | features/timers/getActionValue.ts:24-29 | double-zero equals two `number(0)` presses, truncation included |
| TwoDigit.FormatTwoDigitNumber | features/duration-display/formatTwoDigitNumber.ts:1-13 | always two digit characters; a negative input gives "00"; the text reads as the input for 0..99 and as its last two digits above 99 |
| TwoDigit.TwoDigitsDetermined | features/duration-display/formatTwoDigitNumber.ts:12 | two two-digit texts that read as the same number are the same text |
| TwoDigit.SameShownSameText | features/duration-display/formatTwoDigitNumber.ts:1-13 | inputs that show the same two digits format to the same text |
| DurationPicker.DurationString | features-2/duration-picker/changeDuration.ts:9-13 | the six-character text is all digits and reads as 10000·HH + 100·MM + SS of the displayed fields |
| DurationPicker.FromDurationString | features-2/duration-picker/changeDuration.ts:52-60 | each field read back is undefined exactly when its group is 0, and otherwise lies in 1..99; together they give the text's value back |
| DurationPicker.ChangeDuration | features-2/duration-picker/changeDuration.ts:5-61 | with hours of 10 or more, number and double-zero return the input unchanged; every other result has each field undefined or in 1..99 |
| DurationPicker.NumberShiftsIn | features-2/duration-picker/changeDuration.ts:16-24 | below ten hours, a digit shifts the HHMMSS value up one place, dropping its top digit, and becomes the units |
| DurationPicker.DoubleZeroShiftsIn | features-2/duration-picker/changeDuration.ts:25-41 | below ten hours, double-zero shifts in two zeros when hours is undefined or 0, and one zero otherwise |
| DurationPicker.BackspaceShiftsOut | features-2/duration-picker/changeDuration.ts:42-45 | backspace shifts the HHMMSS value down one place |
| DurationPicker.ClearEmpties | features-2/duration-picker/changeDuration.ts:46-49 | clear leaves hours, minutes and seconds all undefined |
| DurationPicker.TypeDigit | features-2/duration-picker/changeDuration.ts:21 | appending a digit to the text and keeping the last six reads back as the value shifted up with the digit as units |
| DurationPicker.TypeTwoZeros | features-2/duration-picker/changeDuration.ts:35 | appending "00" and keeping the last six reads back as the value shifted up two places |
| DurationPicker.DeleteDigit | features-2/duration-picker/changeDuration.ts:43 | dropping the last character and prefixing "0" reads back as the value shifted down one place |
| DurationPicker.Normalize | features-2/duration-picker/changeDuration.ts:52-60 | replacing zero fields by undefined keeps the HHMMSS value and gives the shape the picker reports |
| DurationPicker.PackedDetermines | features-2/duration-picker/changeDuration.ts:52-60 | a result in the reported shape is determined by its HHMMSS value |
| DurationPicker.BackspaceUndoesNumber | features-2/duration-picker/changeDuration.ts:16-45 | for fields in 0..99 with hours below 10, backspace after a digit restores the input, with zero fields written as undefined |
| DurationPicker.DigitAfterClear | features-2/duration-picker/changeDuration.ts:46-49 | clear followed by digit d leaves only d seconds (nothing when d is 0) |
| CountUpTimer.TimerDuration | features/timers/Timer.tsx:17-34 | null exactly when not started; otherwise the whole seconds elapsed, rounded down |
| CountUpTimer.StageFor | features/timers/Timer.tsx:78-96 | alert iff the duration and the alert threshold are both present and the duration is at least the threshold; warning iff the same holds for the warning threshold and alert does not; okay otherwise |
| CountUpTimer.OnNumberPadAction | features/timers/Timer.tsx:58-68 | a keypad action changes only the selected stage's value, through `getActionValue` |
| CountUpTimer.OnStart | features/timers/Timer.tsx:70-74 | starting records the current instant and changes nothing else |
| CountUpTimer.LoopIsIrrelevant | features/timers/Timer.tsx:28-30 | the animation loop value never changes the duration |
| CountUpTimer.ElapsedIsMonotone | features/timers/Timer.tsx:24-26 | elapsed seconds never decrease as `now` grows |
| CountUpTimer.StageIsMonotone | features/timers/Timer.tsx:78-96 | a longer duration never gives a less severe stage |
| CountUpTimer.ScreenStageOnlyEscalates | features/timers/Timer.tsx:76-96 | as time passes, the screen's stage only escalates |
| CountUpTimer.WarningBoundaryIsInclusive | features/timers/Timer.tsx:83-86 | exactly reaching the warning threshold, below alert, is warning |
| CountUpTimer.DefaultThresholds | features/timers/Timer.tsx:14-15 | the defaults decode to 240 s and 300 s; a started default timer is okay before 240 s, warning until 300 s, alert after |
| CountUpTimer.NotStartedIsOkay | features/timers/Timer.tsx:23 | before the start the stage is okay, whatever the thresholds |
| ClockTimer.ClockDuration | features/timers/ClockTimer.tsx:35-45 | the duration is h·3600 + m·60 + s; it lies in 0..86399 and reads back as the same hours, minutes and seconds |
| ClockTimer.ClockDurationIsInjective | features/timers/ClockTimer.tsx:36-40 | different local times give different durations |
| ClockTimer.OnNumberPadAction | features/timers/ClockTimer.tsx:79-90 | a keypad action changes only the selected stage's value, through `getActionValue` |
| ClockTimer.DisabledButtons | features/timers/ClockTimer.tsx:110-123 | length 0 disables 3..9 and backspace; lengths 1, 2 and 4 disable 6..9; length 6 disables every key but backspace; other lengths disable nothing |
| ClockTimer.DigitOnlyEntryIsClockLike | features/timers/ClockTimer.tsx:110-123 | six digit keys entered with only enabled keys give at most 25 hours, and minutes and seconds of at most 59 |
| ClockTimer.DoubleZeroEscapesGate | features/timers/ClockTimer.tsx:110-123 | 2, 5, 5, 9, 5 are each enabled when pressed, double-zero is enabled at length five, and the result [0, 0, 5, 9, 5, 5] reads as 203700 seconds |
| ClockTimer.GatingAdmitsHourTwentyFive | features/timers/ClockTimer.tsx:110-123 | the gating accepts 2, 5, 0, 0, 0, 0, which reads as 90000 seconds |
| ClockTimer.FullValueOnlyShrinks | features/timers/ClockTimer.tsx:118-119 | with six digits held, backspace is the only enabled key, and it leaves five |
| ClockTimer.OnPressDisplay | features/timers/ClockTimer.tsx:92-108 | handled iff the full-screen amount is 0, and then it targets 1; otherwise nothing is animated |
| ClockTimer.Layout | features/timers/ClockTimer.tsx:125-140 | the layout always gets the okay stage and a duration in 0..86399; with six digits held, double-zero is disabled and backspace is not |
| Countdown.Clamp | features/countdown/Countdown.tsx:40-46 | null iff the input is null; otherwise within ±863999, the input itself when within the cap, and the nearer bound when outside it |
| Countdown.IsNegative | features/countdown/Countdown.tsx:48-52 | true iff the value is present and negative |
| Countdown.DurationAbs | features/countdown/Countdown.tsx:54-58 | null iff the input is null; otherwise the magnitude of the clamped value, at most the cap |
| Countdown.Days | features/countdown/Countdown.tsx:60-69 | null iff type is "time", the input is null, or there is less than a day; otherwise the whole days, 1..9 |
| Countdown.Hours | features/countdown/Countdown.tsx:73-83 | null iff the input is null, or the duration type is below an hour; otherwise the whole hours, not reduced modulo 24 |
| Countdown.Minutes | features/countdown/Countdown.tsx:91-101 | null iff the input is null, or the duration type is below a minute; otherwise in 0..59 |
| Countdown.Seconds | features/countdown/Countdown.tsx:110-116 | null iff the input is null; otherwise in 0..59 and congruent to the magnitude modulo 60 |
| Countdown.LeadingZeroesHours | features/countdown/Countdown.tsx:85-89 | true iff type is "time" or days are shown |
| Countdown.LeadingZeroesMinutes | features/countdown/Countdown.tsx:103-108 | true iff type is "time" or hours are shown |
| Countdown.LeadingZeroesSeconds | features/countdown/Countdown.tsx:118-124 | true iff type is "time" or minutes are shown |
| Countdown.SecondsVariantOf | features/countdown/Countdown.tsx:149-157 | small iff small is requested and some larger unit is shown |
| Countdown.ShowSecondsColon | features/countdown/Countdown.tsx:170-174 | the colon shows only with default-size seconds, and then iff the seconds are padded |
| Countdown.ClampIsIdempotent | features/countdown/Countdown.tsx:40-46 | clamping twice is clamping once |
| Countdown.UnitsReassemble | features/countdown/Countdown.tsx:76-113 | seconds are always shown; the shown units add back up to the clamped magnitude, and hours imply minutes |
| Countdown.DaysWithinHours | features/countdown/Countdown.tsx:60-83 | shown days come with at least 24 shown hours |
| AnimatedNumber.IsLeadingZeroFrom | features/countdown/AnimatedNumber.tsx:65-77 | the leading-zero scan is true iff every more significant character is '0' |
| AnimatedNumber.ZeroToNineIndex | features/countdown/AnimatedNumber.tsx:39-82 | null for a null value; past the digits, 0 with leading zeros and null without; position 0 of a non-negative value is its last digit; any result is a digit |
| AnimatedNumber.DigitSelection | features/countdown/AnimatedNumber.tsx:50-81 | inside the digits of a non-negative value the result is (value / 10^i) mod 10 |
| AnimatedNumber.PaddedDigitSelection | features/countdown/AnimatedNumber.tsx:50-63 | with leading zeros on, every position shows (value / 10^i) mod 10 |
| TimersPersist.ApplyUpdate | features/timers/TimersPersistContext.tsx:132-139 | only the named section of the latest snapshot is replaced; pending becomes the new latest; in-flight and loaded data are unchanged |
| TimersPersist.FlushTick | features/timers/TimersPersistContext.tsx:109-121 | no-op while a write is in flight or nothing is pending; otherwise it writes the pending snapshot, clears pending and sets in-flight |
| TimersPersist.WriteSettled | features/timers/TimersPersistContext.tsx:122-124 | completion clears in-flight whether or not the write succeeded, and changes nothing else |
| TimersPersist.LoadedData | features/timers/TimersPersistContext.tsx:156-189 | the validated file when it parses, the defaults for a missing file, a read error or a rejected parse |
| TimersPersist.LoadFinished | features/timers/TimersPersistContext.tsx:152-195 | a cancelled load changes nothing; otherwise the loaded snapshot becomes the latest and the consumers' data; pending and in-flight are never touched |
| TimersPersist.UpdatesKeepFlagsAndData | features/timers/TimersPersistContext.tsx:132-139 | any run of updates keeps the in-flight flag and the consumers' data |
| TimersPersist.OnlyLastSnapshotIsWritten | features/timers/TimersPersistContext.tsx:109-139 | after several updates between ticks, the next tick writes exactly the latest snapshot, and the following tick writes nothing |
| TimersPersist.LaterUpdateWins | features/timers/TimersPersistContext.tsx:133-136 | of two updates to the same section, the later one is kept |
| TimersPersist.WriteSettledUnblocks | features/timers/TimersPersistContext.tsx:109-124 | once a write settles, a pending snapshot is written at the next tick |
| TimersPersist.ReadinessOnlyAfterLoad | features/timers/TimersPersistContext.tsx:141-207 | nothing is provided before loading, whatever updates happen; once loaded, the data stays provided through updates, ticks and write completions |
| LegacyTimer.FormatUnsigned | src/components/Timer.tsx:26-35 | the text starts with a digit and always ends with the seconds padded to two digits |
| LegacyTimer.FormatTime | src/components/Timer.tsx:22-37 | starts with '-' iff the input is negative, followed by the text of the magnitude; always ends in two-digit seconds |
| LegacyTimer.FormatUnsignedGroups | src/components/Timer.tsx:30-35 | the groups are padded hours, minutes and seconds when there are hours, padded minutes and seconds when there are minutes, else the padded seconds alone |
| LegacyTimer.FormatTimeSegments | src/components/Timer.tsx:30-33 | there are three groups iff hours ≠ 0, at least two iff hours or minutes ≠ 0, and each group has at least two characters |
| LegacyTimer.FormatUnsignedRoundTrip | src/components/Timer.tsx:26-35 | the text of a non-negative number of seconds reads back, as H:MM:SS, to that number |
| LegacyTimer.FormatTimeRoundTrip | src/components/Timer.tsx:22-37 | the text of any integer number of seconds reads back, sign included, to that integer |
| LegacyTimer.Elapsed | src/components/Timer.tsx:59-61 | whole seconds since the start, rounded down |
| LegacyTimer.RemainingTime | src/components/Timer.tsx:59-62 | 1200 minus the whole seconds elapsed |
| LegacyTimer.BorderColour | src/components/Timer.tsx:139-145 | red iff at most 1140 remain, yellow iff 1141..1170 remain, green iff more than 1170 remain |
| LegacyTimer.Initialize | src/components/Timer.tsx:52-67 | a start time is written iff none was stored, and then it is `now` and 1200 remain; with a stored start the remaining time comes from it |
| LegacyTimer.OnAppActive | src/components/Timer.tsx:78-94 | with a stored start time the remaining time is recomputed from it, otherwise it is kept |
| LegacyTimer.Tick | src/components/Timer.tsx:71-73 | each interval tick takes exactly one second off |
| LegacyTimer.Reset | src/components/Timer.tsx:44-50 | a reset shows 1200 and stores `now` as the start |
| LegacyTimer.BorderByElapsed | src/components/Timer.tsx:139-145 | the border is red iff at least 60 s have passed, yellow iff 30..60 s have passed, green before 30 s |
| LegacyTimer.BorderOnlyEscalates | src/components/Timer.tsx:139-145 | as time passes, the border only moves from green towards red |
| LegacyTimer.TicksKeepStep | src/components/Timer.tsx:71-73 | k ticks from the remaining time at `now` equal the remaining time k seconds later |
| LegacyTimer.FirstLaunchIsRemembered | src/components/Timer.tsx:52-92 | after a first launch, a later launch and a return to the foreground both compute from that launch's start |
| StageSelector.DurationToString | features-2/stages/StageSelector.tsx:22-36 | the text is never empty, and 0 gives "0" |
| StageSelector.PositiveText | features-2/stages/StageSelector.tsx:25-35 | from an hour up the text is H:MM:SS with unpadded hours; below an hour it is M:SS with unpadded minutes |
| StageSelector.DurationParts | features-2/stages/StageSelector.tsx:25-27 | for non-negative input the minutes and seconds parts lie in 0..59 and add back up to the input |
| StageSelector.DurationToStringGroups | features-2/stages/StageSelector.tsx:29-35 | the text's colon groups are hours, padded minutes and padded seconds, or minutes and padded seconds |
| StageSelector.DurationToStringRoundTrip | features-2/stages/StageSelector.tsx:22-36 | the text of a non-negative duration reads back, as H:MM:SS, to that duration |
| StageSelector.IndicatorIndex | features-2/stages/StageSelector.tsx:63-81 | yellow gives 1, red gives 2, and green or any other text gives 0 |
| StageSelector.ButtonAction | features-2/stages/StageSelector.tsx:49-56 | each button reports its own stage |
| StageSelector.IndicatorMatchesColumn | features-2/stages/StageSelector.tsx:66-78 | the indicator index of each stage is its button's column |
| StageSelector.PressMovesIndicator | features-2/stages/StageSelector.tsx:49-78 | pressing a button moves the indicator under that button |
| TimerScreen.DurationsToSeconds | screens/Timer.tsx:23-31 | null iff hours, minutes and seconds are all undefined; otherwise hours·3600 + minutes·60 + seconds with undefined fields as 0 |
| TimerScreen.SecondsOfPickerText | screens/Timer.tsx:23-31 | for picker-shaped fields, the result is null iff the HHMMSS value is 0, and otherwise HH·3600 + MM·60 + SS of that value |
| TimerScreen.SelectedDurations | screens/Timer.tsx:53-60 | the green, yellow or red durations, matching the selected stage |
| TimerScreen.SetDurations | screens/Timer.tsx:53-60 | the setter replaces only the selected stage's durations, so they are read back as given |
| TimerScreen.SelectStage | screens/Timer.tsx:159-161 | selecting a stage changes only the stage |
| TimerScreen.SetSelectedIsIdentity | screens/Timer.tsx:53-60 | writing back the edited durations changes nothing |
| TimerScreen.LastEditWins | screens/Timer.tsx:53-60 | of two edits of the same stage, the second replaces the first |
| TimerScreen.BaselineFollowsGreenOnly | screens/Timer.tsx:62-65 | editing yellow or red keeps the baseline seconds; editing green sets them to the new durations' seconds |
| TimerScreen.InitialBaseline | screens/Timer.tsx:36-41 | the initial green durations of 5 minutes and 0 seconds give 300 seconds |
| TimerScreen.PressSelectsStage | screens/Timer.tsx:159-167 | pressing a stage button selects that stage's durations for editing, moves the indicator to it, and keeps the baseline |
| Pagination.Round | features/pagination/usePagination.tsx:122 | `Math.round`: the result is within half of the argument, halves rounding up |
| Pagination.PreviousIndex | features/pagination/usePagination.tsx:123 | index 0 goes to pageCount − 1, any other index to index − 1 |
| Pagination.NextIndex | features/pagination/usePagination.tsx:141 | an index at or beyond pageCount − 1 goes to 0, any other index to index + 1 |
| Pagination.Previous | features/pagination/usePagination.tsx:119-135 | nothing happens when scrolling is disabled; otherwise the target is the previous index times the page width |
| Pagination.Next | features/pagination/usePagination.tsx:137-153 | nothing happens when scrolling is disabled; otherwise the target is the next index times the page width |
| Pagination.SpacerWidths | features/pagination/usePagination.tsx:55-66 | the right spacer is the offset, and the two spacers sum to (pageCount − 1)·pageWidth |
| Pagination.StepsStayInRangeAndInvert | features/pagination/usePagination.tsx:122-141 | for an index in range, previous and next stay in range and undo each other |
| Pagination.SettledOffsetGivesIndex | features/pagination/usePagination.tsx:122 | an offset within half a page of page i gives current index i |
| Pagination.NextThenSettle | features/pagination/usePagination.tsx:140-145 | once the scroll reaches next's target, the current index is the next index |
| Pagination.PreviousThenSettle | features/pagination/usePagination.tsx:122-127 | once the scroll reaches previous's target, the current index is the previous index |
| Pagination.NextWalksRound | features/pagination/usePagination.tsx:140-141 | k settled presses of next from an index in range give (index + k) mod pageCount |
| Pagination.NextCycle | features/pagination/usePagination.tsx:140-141 | pageCount presses of next return to the starting page |

## Left out

- Rendering, styling and animation are left out: React components, reanimated timing and springs, font sizes, the AnimatedNumber `rounded` option and its styles, and layout interpolation. They are visual only.
- I/O is reduced to parameters:
  - `Date.now()` and `new Date()` become `now` (milliseconds) or a `LocalTime` record.
  - AsyncStorage and expo-file-system reads become an already-parsed start time or a `ReadOutcome`.
  - JSON parsing and zod validation become a `ParseResult`.
  - Writes appear as the snapshot a flush tick emits.
  - `setInterval` ticks and app-state events are explicit calls.
  - The error logs in `formatTwoDigitNumber` are dropped.
- The timer-state and duration-state zod schemas imported from Timer.types are not part of this model. The run state is modelled as stopped, running with an end date, or paused with seconds left.
- No start/pause/add-time machine is modelled. The timer controls' behaviour is a reanimated animation and is not part of this model.
- Stored start times are modelled as parsed milliseconds. ISO-8601 text and invalid dates are not modelled.
- NumberButton.OnPress: `number` actions carry a digit 0..9 only. The button type allows nothing else, and the keypad never emits other numbers.
- Countdown.Hours, Countdown.Minutes, Countdown.Seconds and AnimatedNumber.ZeroToNineIndex take integer seconds. Fractional durations, and JavaScript's exponent notation for very large numbers in `toString`, are not modelled.
- LegacyTimer.FormatTime and StageSelector.DurationToString take integer seconds. Fractional and non-finite numbers are not modelled.
- StageSelector.DurationToStringRoundTrip is stated for non-negative durations only. The text of a negative input mixes a floored hour with truncated remainders, and is not a base-60 reading of the input. DurationToString itself follows the code for every integer.
- Pagination.Previous, Pagination.Next and Pagination.CurrentIndex require a positive page width. A zero width divides by zero in the code and produces no index.
- ClockTimer.DisabledButtons returns the empty set where the code returns `undefined`, since both mean that no key is disabled.
- TimerScreen: the newer duration picker that calls the setter is not part of this model. SetDurations takes any new durations.
- DurationPicker.BackspaceUndoesNumber requires fields in 0..99 and hours below 10. Outside that range the text shows only the last two digits, so the input cannot come back.
- Pagination: offsets, page widths and `Math.round` are modelled over exact reals. The code computes with IEEE doubles, so rounding error near a half-page boundary is not modelled.
- DurationPicker.DurationString uses the formatter in features/duration-display/formatTwoDigitNumber.ts. The picker imports `../duration-display/formatTwoDigitNumber` from features-2, and features-2/duration-display/formatTwoDigitNumber.ts is not part of this model. The two formatters are assumed to behave the same.
