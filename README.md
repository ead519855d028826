# Stopwatch lap tracker, modelled in Dafny

This project models the logic of the `Stopwatch` widget of the LetsGoooComposables
library (`Stopwatch.kt`):

- the lap state `LapState` (`Prepped`, `InProgress(startTime)`, `Completed(startTime, endTime)`);
- the list of completed laps;
- the two button handlers that drive them, "Lap" and the Start/Stop action;
- the elapsed-time decomposition `getTimeBetween`;
- the zero-padding helper `Long.zeroPrefixedString`;
- the `HH:MM:SS.mmm` and `N days` lines the widget shows.

The two value types of the source are datatypes: `Duration.TimeElapsed` (Stopwatch.kt:264-270,
days, hours, minutes, seconds and milliseconds) and `Stopwatch.LapState` (Stopwatch.kt:272-276,
with `CompletedLap` for the `List<LapState.Completed>` the history holds). They carry no
contracts of their own, so what is proved about them is in the rows of the functions below.

Instants are integer epoch milliseconds. Every `Instant.now()` reading is a method parameter.

Files:

- `decimal.dfy` (module `Decimal`): the decimal text of a Kotlin `Long`, as `toString()`
  writes it, and a parser that reads it back.
- `duration.dfy` (module `Duration`): `TimeElapsed` and `getTimeBetween`. Kotlin's `/` and
  `%` on `Long` round toward zero, so they are modelled as `Quot` and `Rem`. Negative spans
  are therefore covered too.
- `format.dfy` (module `Format`): the `zeroPrefixedString` loop as a method. Its closed-form
  specification `ZeroPrefixed` is a function. The display lines are built from that function,
  and `ReadTimeText` and `ReadDaysText` read them back.
- `stopwatch.dfy` (module `Stopwatch`): the class `StopwatchState`. It holds `currentLapState`
  and `pastLapStates` and has the two onClick handlers as methods. Value-level versions
  `LapClicked`, `ActionClicked` and `Run` state properties of sequences of button presses.

The model keeps these behaviours of the code, including the ones a user of the widget might not expect:

- Start does not read the clock. It sets the start time to the fixed instant
  2007-12-03T10:15:30Z (`FixedStartInstant`).
- Lap reads the clock twice. The lap it closes ends at the first reading, and the next lap
  starts at the second. So consecutive laps meet exactly only when the two readings agree
  (`StartLapLapStop`).
- From `Completed`, Lap does not start a new lap. Both buttons are disabled and both handlers
  do nothing.
- `endTime >= startTime` is not enforced by the code. The model proves it, and that laps come
  in chronological order, for a fresh stopwatch (`Prepped` with no `initialPastLapStates`) and
  a clock that never goes backwards and reads no earlier than the fixed instant
  (`FreshRunIsChronological`). The fresh-stopwatch condition is needed: earlier laps that end
  after the fixed instant are followed by a lap that starts at the fixed instant, so the
  history is out of order even with a monotone clock (`InitialLapsBreakOrder`).
- The callback receives the history as it is at the moment of the call.

## Model

| member | source | states |
|---|---|---|
| Decimal.NatToString | library/src/main/java/com/ryanmolyneux/letsgooocomposables/Stopwatch.kt:251 | `toString()` of a non-negative Long: at least one digit, all digits, "0" for zero and no leading zero otherwise |
| Decimal.LongToString | library/src/main/java/com/ryanmolyneux/letsgooocomposables/Stopwatch.kt:259 | `toString()` of any Long: it starts with '-' exactly when the number is negative, followed by the magnitude's digits |
| Decimal.NatToStringValue | library/src/main/java/com/ryanmolyneux/letsgooocomposables/Stopwatch.kt:251 | the digits of a number read back as that number |
| Decimal.LongToStringRoundTrip | library/src/main/java/com/ryanmolyneux/letsgooocomposables/Stopwatch.kt:259 | parsing the text of any Long gives that Long back |
| Decimal.NatToStringLength | library/src/main/java/com/ryanmolyneux/letsgooocomposables/Stopwatch.kt:251 | the text has at most k characters exactly when the number is below 10^k |
| Decimal.NatToStringInjective | library/src/main/java/com/ryanmolyneux/letsgooocomposables/Stopwatch.kt:251 | different numbers have different texts |
| Duration.Quot | library/src/main/java/com/ryanmolyneux/letsgooocomposables/Stopwatch.kt:230-234 | Kotlin `/` by a positive divisor: the quotient rounds toward zero |
| Duration.Rem | library/src/main/java/com/ryanmolyneux/letsgooocomposables/Stopwatch.kt:231-235 | Kotlin `%`: quotient times divisor plus remainder is the dividend, and the remainder has the dividend's sign and is smaller than the divisor |
| Duration.GetTimeBetween | library/src/main/java/com/ryanmolyneux/letsgooocomposables/Stopwatch.kt:228-238 | days*86400000 + hours*3600000 + minutes*60000 + seconds*1000 + milliseconds is the span; a non-negative span has days >= 0, hours < 24, minutes and seconds < 60, milliseconds < 1000, all non-negative; a non-positive span has the mirror image |
| Duration.RemOfRem | library/src/main/java/com/ryanmolyneux/letsgooocomposables/Stopwatch.kt:233-234 | the remainder of the remainder by 3600000 (or 60000) is the plain remainder by 60000 (or 1000), which is why minutes and seconds come out right |
| Duration.NormalizedUnique | library/src/main/java/com/ryanmolyneux/letsgooocomposables/Stopwatch.kt:228-238 | round trip: getTimeBetween over the total of an in-range decomposition returns that decomposition |
| Duration.GetTimeBetweenCharacterization | library/src/main/java/com/ryanmolyneux/letsgooocomposables/Stopwatch.kt:228-238 | for a non-negative span, a decomposition is what getTimeBetween returns if and only if it is in range and adds up to the span |
| Duration.GetTimeBetweenNegative | library/src/main/java/com/ryanmolyneux/letsgooocomposables/Stopwatch.kt:229-235 | a negative span decomposes into the negation of its magnitude's decomposition |
| Duration.GetTimeBetweenSwap | library/src/main/java/com/ryanmolyneux/letsgooocomposables/Stopwatch.kt:229-235 | swapping start and end negates every component |
| Duration.GetTimeBetweenShift | library/src/main/java/com/ryanmolyneux/letsgooocomposables/Stopwatch.kt:229 | only the span between the two instants matters |
| Format.ZeroPrefixed | library/src/main/java/com/ryanmolyneux/letsgooocomposables/Stopwatch.kt:250-262 | the padded text is as long as width or as the number's text, whichever is longer |
| Format.ZeroPrefixedShape | library/src/main/java/com/ryanmolyneux/letsgooocomposables/Stopwatch.kt:250-262 | result length is max(width, length of the number's text); it ends with that text; everything before it is '0'; it is the text itself when that is already as long as width |
| Format.ZeroPrefixedString | library/src/main/java/com/ryanmolyneux/letsgooocomposables/Stopwatch.kt:250-262 | the counting-down loop (default width 2) returns the ZeroPrefixed string, whose shape ZeroPrefixedShape states: max(width, text length) characters, ending with the number's text, '0' before it |
| Format.LeadingZerosValue | library/src/main/java/com/ryanmolyneux/letsgooocomposables/Stopwatch.kt:254-259 | prefixed zeros do not change the value the digits stand for |
| Format.ZeroPrefixedField | library/src/main/java/com/ryanmolyneux/letsgooocomposables/Stopwatch.kt:250-262 | a number below 10^width pads to exactly width digits that read back as the number |
| Format.TimeText | library/src/main/java/com/ryanmolyneux/letsgooocomposables/Stopwatch.kt:111-115 | the time line has at least 12 characters: hours, minutes and seconds padded to 2, milliseconds to 3, and the three separators |
| Format.DaysText | library/src/main/java/com/ryanmolyneux/letsgooocomposables/Stopwatch.kt:121 | the days line is at least one character of day count followed by " days" |
| Format.TimeTextLayout | library/src/main/java/com/ryanmolyneux/letsgooocomposables/Stopwatch.kt:111-115 | for in-range components the time line is exactly 12 characters `hh:mm:ss.mmm`, and each field reads back as its component |
| Format.DaysTextLayout | library/src/main/java/com/ryanmolyneux/letsgooocomposables/Stopwatch.kt:121 | the days line is the day count's text followed by " days", and the count reads back |
| Format.ElapsedTextsRoundTrip | library/src/main/java/com/ryanmolyneux/letsgooocomposables/Stopwatch.kt:129-149 | for a non-negative span the two displayed lines determine it: reading them back, days*86400000 plus the time of day gives the span in milliseconds |
| Format.FiveDaysScenario | library/src/main/java/com/ryanmolyneux/letsgooocomposables/Stopwatch.kt:111-125 | 5 d 1 h 2 min 3 s 4 ms shows "01:02:03.004" and "5 days" |
| Format.HundredSecondsScenario | library/src/main/java/com/ryanmolyneux/letsgooocomposables/Stopwatch.kt:111-125 | 100 s shows "00:01:40.000" and "0 days" |
| Format.NegativeSpanText | library/src/main/java/com/ryanmolyneux/letsgooocomposables/Stopwatch.kt:111-115 | an end 1 ms before the start shows "00:00:00.0-1" (zero prefix in front of the minus sign) |
| Stopwatch.ButtonsEnabled | library/src/main/java/com/ryanmolyneux/letsgooocomposables/Stopwatch.kt:178 | both buttons are enabled exactly in Prepped and InProgress, that is, until the stopwatch is Completed |
| Stopwatch.LapClicked | library/src/main/java/com/ryanmolyneux/letsgooocomposables/Stopwatch.kt:168-177 | from InProgress(T0) with readings t1, t2: the history gains exactly Completed(T0, t1) at its end and the current lap becomes InProgress(t2); from any other state nothing changes |
| Stopwatch.ActionClicked | library/src/main/java/com/ryanmolyneux/letsgooocomposables/Stopwatch.kt:181-192 | from Prepped: InProgress(fixed instant), history unchanged, no callback; from InProgress(T0) at t: the current lap and the appended last lap are Completed(T0, t) and the callback gets the new history; the callback is called exactly from InProgress; from Completed nothing changes |
| Stopwatch.ActionLabel | library/src/main/java/com/ryanmolyneux/letsgooocomposables/Stopwatch.kt:194-200 | "Finished" exactly when the buttons are disabled (Completed), "Stop" exactly when InProgress, "Start" exactly when Prepped |
| Stopwatch.StopwatchState.constructor | library/src/main/java/com/ryanmolyneux/letsgooocomposables/Stopwatch.kt:71-75 | the state starts from the initial lap state (default Prepped) and initial laps (default empty) |
| Stopwatch.StopwatchState.OnLapClick | library/src/main/java/com/ryanmolyneux/letsgooocomposables/Stopwatch.kt:168-177 | from InProgress(T0) with readings t1, t2: appends exactly Completed(T0, t1), earlier laps unchanged, current becomes InProgress(t2); otherwise nothing changes |
| Stopwatch.StopwatchState.OnActionClick | library/src/main/java/com/ryanmolyneux/letsgooocomposables/Stopwatch.kt:181-192 | from Prepped: InProgress(fixed 2007-12-03T10:15:30Z), laps unchanged, no callback; from InProgress(T0) at t: current and the appended last lap are both Completed(T0, t), and the callback is called once with the new list; from Completed: nothing |
| Stopwatch.StartLapStop | library/src/main/java/com/ryanmolyneux/letsgooocomposables/Stopwatch.kt:168-192 | on a fresh stopwatch, Start, Lap, Stop hands the callback [Completed(fixed, t1), Completed(t2, stop)] |
| Stopwatch.DisabledHandlersAreNoOps | library/src/main/java/com/ryanmolyneux/letsgooocomposables/Stopwatch.kt:178-193 | once Completed, both buttons are disabled and neither handler changes anything or calls the callback |
| Stopwatch.LapInPreppedIsNoOp | library/src/main/java/com/ryanmolyneux/letsgooocomposables/Stopwatch.kt:169-178 | from Prepped the Lap button is enabled but its handler changes nothing |
| Stopwatch.HandlersKeepFinishedIsLast | library/src/main/java/com/ryanmolyneux/letsgooocomposables/Stopwatch.kt:185-190 | both handlers preserve the invariant that a Completed current lap is the last entry of the history |
| Stopwatch.RunAppendsOnly | library/src/main/java/com/ryanmolyneux/letsgooocomposables/Stopwatch.kt:168-192 | over any sequence of presses the earlier history stays a prefix: laps are only appended |
| Stopwatch.RunGrowth | library/src/main/java/com/ryanmolyneux/letsgooocomposables/Stopwatch.kt:168-192 | each press appends at most one lap |
| Stopwatch.RunFromCompleted | library/src/main/java/com/ryanmolyneux/letsgooocomposables/Stopwatch.kt:169-184 | from Completed, any presses leave the state unchanged and never call the callback |
| Stopwatch.RunCallbackOnce | library/src/main/java/com/ryanmolyneux/letsgooocomposables/Stopwatch.kt:184-191 | from a state that is not Completed, a run calls the callback at most once; it has called it exactly when it ends Completed, with the final history whose last lap is the final state |
| Stopwatch.RunKeepsOrder | library/src/main/java/com/ryanmolyneux/letsgooocomposables/Stopwatch.kt:168-192 | from a state ordered up to the clock, where a Prepped state has no earlier laps and a running lap started no earlier than the last lap ended, a clock that never goes backwards keeps the history chronological |
| Stopwatch.FreshRunIsChronological | library/src/main/java/com/ryanmolyneux/letsgooocomposables/Stopwatch.kt:168-192 | from a fresh stopwatch (Prepped, no initial laps) and a monotone clock no earlier than the fixed instant, every lap has start <= end and no lap starts before the previous one ends |
| Stopwatch.InitialLapsBreakOrder | library/src/main/java/com/ryanmolyneux/letsgooocomposables/Stopwatch.kt:72-192 | counterexample: Prepped with the earlier lap Completed(t-1, t), t after the fixed instant, then Start at t and Stop: the presses are monotone but the history is not chronological |
| Stopwatch.StartLapLapStop | library/src/main/java/com/ryanmolyneux/letsgooocomposables/Stopwatch.kt:168-192 | Start, Lap, Lap, Stop yields three laps [fixed..b1, b2..c1, c2..d], current = the last, callback once with all three |
| Stopwatch.StateTexts | library/src/main/java/com/ryanmolyneux/letsgooocomposables/Stopwatch.kt:80-150 | each state shows a time line of at least 12 characters and a line ending in " days"; InProgress shows the remembered value, Completed the texts of its own span |
| Stopwatch.LiveElapsed | library/src/main/java/com/ryanmolyneux/letsgooocomposables/Stopwatch.kt:101-109 | the value one refresh tick stores adds up to the time since the lap started and is in range when that time is non-negative |
| Stopwatch.PreppedTexts | library/src/main/java/com/ryanmolyneux/letsgooocomposables/Stopwatch.kt:81-99 | Prepped shows "00:00:00.000" and "0 days", the texts of an all-zero TimeElapsed; a running lap shows the same while its remembered value is still the initial all-zero one (a lap entered by Start, or an initial InProgress state, before its first tick) |
| Stopwatch.LapRow | library/src/main/java/com/ryanmolyneux/letsgooocomposables/Stopwatch.kt:205-221 | row i is headed "#" followed by the text of i + 1, its time line has at least 12 characters and its days line ends in " days" |
| Stopwatch.LapRowLayout | library/src/main/java/com/ryanmolyneux/letsgooocomposables/Stopwatch.kt:205-217 | lap rows are numbered from 1 ("#1", ...) and a non-negative lap's time line is 12 characters |
| Stopwatch.FinishedHeaderMatchesLastRow | library/src/main/java/com/ryanmolyneux/letsgooocomposables/Stopwatch.kt:128-150 | when finished, the header shows the same two lines as the last row of the lap list |

## Left out

- Compose layout, theming and the preview: the `Column`, `Row`, `LazyColumn`, `Text`, `Button`
  and `Spacer` composition, and the name and goal lines. These are rendering only.
- The 100 ms refresh loop (`LaunchedEffect` with `delay(100L)`) and its cancellation when the
  state changes. These are coroutine timing. `LiveElapsed` gives the value one tick stores.
  `StateTexts` takes the remembered value as a parameter.
- StateTexts: the remembered `timeElapsed` has no key, so after Lap (InProgress(T0) to
  InProgress(t2)) it keeps the previous lap's last value until the next tick. Only the
  refresh effect restarts. The model does not track which value is remembered; callers pass it.
- `Instant.now()`: every reading is a parameter. `OnActionClick`'s `now` is used only by the
  Stop branch, because only that branch reads the clock.
- `java.time` details: instants are whole milliseconds. Not modelled: sub-millisecond
  truncation, and the `ArithmeticException` that `Duration.toMillis` throws on overflow.
- The 64-bit width of `Long`: integers are unbounded. The model has no overflow in the
  arithmetic of `getTimeBetween` or in instants.
- Callback aliasing: the callback receives the live observable list. The model hands it the
  list's value at the moment of the call. It does not model later changes seen through that
  reference.
- The other widgets (progress badges, dotted headings scroller, box-and-whiskers plot) are not
  part of this model. They are layout, drawing and float animation.
