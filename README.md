# Stopwatch model

A Dafny model of the stopwatch widget in `src/Watch.tsx`: a React component with
Start, Pause, Stop, Reset and Lap buttons, an elapsed-time display and a list of
recorded laps.

- `JsString.dfy` models the three JavaScript string builtins the formatter uses:
  `toString()` of a non-negative integer, `padStart` with a one-character pad, and
  `substring`. Digit strings get a value (`DigitsValue`) so that output can be read back.
- `TimeFormat.dfy` models `formatTime`. It builds `HH:MM:SS.ff` from integer
  division and remainder on a `nat` number of milliseconds. The lemmas prove
  where each field sits and that minutes and seconds are two digits below 60.
  The hundredths are truncated, not rounded. The fields recombine into
  `time / 10`, a parser reads the display back (`ParseTime`), and two times look
  alike exactly when their hundredths agree.
- `Watch.dfy` holds the component state. The `Stopwatch` class keeps `time`,
  `running` and `laps` as fields. It has one method per handler and a `Tick`
  method for the 10 ms timer. A disabled button becomes a precondition on its
  method; Reset has none. Each method's contract gives the complete new state and
  ties it to `Step`, the same transition written as a function on `State` values.
  Lemmas over `Step` and `Run` (a sequence of presses and ticks) prove an
  invariant of every reachable state. The elapsed time is a non-negative
  multiple of 10. No lap `time` is negative. While running, the last lap's
  `time` is at most the elapsed time.
- `LapView.dfy` models the lap list in the render: a reversed copy of the laps.
  Row `i` of `n` shows lap `n - 1 - i`, its number `n - i` padded to two digits,
  and `+` followed by the formatted lap time.

The Lap handler subtracts the previous record's own `time` field, not the elapsed
time at which the previous lap was taken. The model keeps that formula as written
(`Watch.NextLap`). One could read a lap's `time` as the duration of the segment
since the previous lap. That reading holds for the first two laps only:
`Watch.ThirdLap` shows a third lap at 4000 ms recording 2500 rather than 1500.

## Model

| member | source | states |
|---|---|---|
| JsString.NatToString | src/Watch.tsx:114-126 | `n.toString()` is a non-empty digit string with no leading zero whose value is `n` |
| JsString.NatToStringLength | src/Watch.tsx:114-126 | the decimal form of `n` has at most `k` digits exactly when `n < 10^k` |
| JsString.PadStart | src/Watch.tsx:116 | `padStart` keeps `s` as the suffix, fills with the pad character in front, and the result is `max(width, |s|)` long |
| JsString.Substring | src/Watch.tsx:117 | `substring(start, end)` is the slice `s[start..end]` with both ends clamped to the length |
| JsString.PadNatToString | src/Watch.tsx:116-126 | zero-padding keeps the value, and pads to exactly `width` digits if and only if the number is below `10^width` |
| TimeFormat.HundredthsTruncate | src/Watch.tsx:114-117 | the first two characters of the remainder padded to three digits equal the remainder divided by 10 padded to two (truncation, not rounding) |
| TimeFormat.TwoDigitField | src/Watch.tsx:118-123 | a number below 100 padded to two places is exactly two digits denoting it |
| TimeFormat.FormatTimeLayout | src/Watch.tsx:113-129 | the display is `hours:minutes:seconds.hundredths`, with unwrapped hours of at least two digits, two-digit minutes and seconds within the hour and minute, and truncated hundredths |
| TimeFormat.FormatTimeRecombines | src/Watch.tsx:118-128 | minutes and seconds are below 60 and `HH*360000 + MM*6000 + SS*100 + ff == time / 10` |
| TimeFormat.ParseFormatTime | src/Watch.tsx:113-129 | reading the display back gives exactly `time / 10` |
| TimeFormat.FormatTimeByHundredths | src/Watch.tsx:113-129 | the display depends on `time` only through `time / 10` |
| TimeFormat.FormatTimeSameDisplay | src/Watch.tsx:113-129 | two times are displayed alike if and only if their counts of hundredths agree |
| TimeFormat.FormatTimeZero | src/Watch.tsx:113-129 | `formatTime(0) == "00:00:00.00"` |
| TimeFormat.FormatTimeJustUnderOneSecond | src/Watch.tsx:114-117 | `formatTime(999) == "00:00:00.99"` |
| TimeFormat.FormatTimeOneHourOneMinute | src/Watch.tsx:118-128 | `formatTime(3661010) == "01:01:01.01"` |
| Watch.DisabledControls | src/Watch.tsx:62-92 | a disabled button, or a tick while stopped, leaves the whole state unchanged; Start while running does not touch the elapsed time |
| Watch.StepKeepsInv | src/Watch.tsx:29-55 | every press and tick keeps the invariant: elapsed time a non-negative multiple of 10, lap times non-negative, last lap time at most the elapsed time while running |
| Watch.RunKeepsInv | src/Watch.tsx:14-55 | any sequence of presses and ticks keeps the invariant |
| Watch.ReachableInv | src/Watch.tsx:9-12 | every state reachable from a fresh stopwatch satisfies the invariant |
| Watch.TicksAdvance | src/Watch.tsx:14-18 | while running, `n` ticks add exactly `10 * n` and change nothing else |
| Watch.TicksWhileStopped | src/Watch.tsx:14-22 | while stopped, ticks change nothing |
| Watch.TwoLaps | src/Watch.tsx:48-55 | laps after `n1` and then `n2` more ticks from zero are `{10*n1, 10*n1}` and `{10*n2, 10*n2 - 10*n1}`; at 1000 and 2500 ms they are `{1000,1000}` and `{1500,500}` |
| Watch.ThirdLap | src/Watch.tsx:48-55 | a third lap at 4000 ms after those two records `{2500, 1000}` |
| Watch.LapsGrowOnlyByLap | src/Watch.tsx:48-55 | the lap list grows only through Lap while running, by exactly the record the formula computes, after the earlier ones |
| Watch.LapsKeptWithoutClear | src/Watch.tsx:29-55 | with no Start or Reset in between, earlier laps form a prefix of later ones |
| Watch.Stopwatch.constructor | src/Watch.tsx:9-12 | a new stopwatch has time 0, is not running and has no laps |
| Watch.Stopwatch.Start | src/Watch.tsx:29-32 | Start sets running and empties the laps, and leaves the time unchanged |
| Watch.Stopwatch.Pause | src/Watch.tsx:34-36 | Pause clears running, and leaves the time and the laps unchanged |
| Watch.Stopwatch.Stop | src/Watch.tsx:38-41 | Stop clears running and sets the time to 0, and keeps the laps |
| Watch.Stopwatch.Reset | src/Watch.tsx:43-46 | Reset sets the time to 0 and empties the laps, and leaves running unchanged |
| Watch.Stopwatch.RecordLap | src/Watch.tsx:48-55 | Lap appends one record with `time - last` and `(time - last) - last`, where `last` is the previous record's `time` or 0; earlier records are unchanged |
| Watch.Stopwatch.Tick | src/Watch.tsx:16-18 | a tick while running adds exactly 10 to the time |
| LapView.Reversed | src/Watch.tsx:96 | the reversed copy has element `i` equal to element `n - 1 - i` of the original |
| LapView.LapRows | src/Watch.tsx:94-105 | row `i` shows lap `n - 1 - i`, labelled `n - i`, with `+` and the formatted lap time |
| LapView.LapLabels | src/Watch.tsx:101 | labels denote `n` down to 1, and are two characters each while there are fewer than 100 laps |
| LapView.LabelDigits | src/Watch.tsx:101 | a label is the digits of its number, two characters long below 100 |
| LapView.RowsListAllLaps | src/Watch.tsx:96-105 | reading the rows back in reverse gives the chronological lap list |
| LapView.ReachableRows | src/Watch.tsx:96-103 | in every reachable state the lap times are non-negative, so the rows can be formatted |

## Left out

- JSX markup, CSS classes and React re-rendering (src/Watch.tsx:57-110 apart from the row mapping) are presentation.
- `setInterval`/`clearInterval`, the `intervalId` state and the `useEffect` cleanup (src/Watch.tsx:11, 14-27) are scheduling and effect lifecycle. The timer is modelled as `Tick`, which requires `running`. That models the timer being cleared when the watch stops.
- Floating-point `/` inside `Math.floor` (src/Watch.tsx:118-124) is modelled as integer division on `nat`. The two agree for non-negative integers below 2^53.
- `formatTime` of a negative number is not modelled. JavaScript's `%` and `toString` would print `-` signs there. `FormatTime` takes a `nat`. Lap `difference` values can be negative (laps at 1000 then 1010 ms give -990), so the row's third cell, `formatTime(lap.difference)`, is left out. `LapView.Row` carries the lap record instead.
- LapView.LapRows: requires every lap `time` to be non-negative, because `FormatTime` is defined on `nat` only. The source formats any number. `LapView.ReachableRows` proves that the requirement holds in every reachable state.
- `NatToString` always writes plain decimal digits. JavaScript switches to exponent notation from 10^21 and loses integer precision above 2^53. Both are far beyond any reachable elapsed time.
- The in-place `laps.reverse()` during render (src/Watch.tsx:96) mutates the state on every render, at times React chooses. That changes which lap the Lap handler later reads as the last one. The model treats the rows as a reversed copy and keeps the laps in chronological order. The running app can diverge from the model here.
- Stale closures and React state batching (handlers read `time` and `laps` from the last render) are not modelled. Each handler is one atomic step.
