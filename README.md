# pamVolum fill/drain timer — a verified model

pamVolum is a small French-language web page for timing a fill or a drain. A
calculator turns a volume (litres), a flow (millilitres per interval) and an
interval (seconds) into an estimated duration, printed as French text such as
"1 h 01 min 05 sec". Its start button adds a countdown experiment to a list.
Each experiment is anchored to the absolute time at which it will have drained
its volume (`endsAt`). A periodic tick recomputes the volume left from that
anchor. The list can pause and resume an experiment, reset it, or remove it,
and it is normalised in the same way when the page is loaded.

The Dafny modules follow the program's structure:

- `Wrappers`: an `Option` type, for nullable timestamps and failed reads.
- `Numbers`: a JavaScript number as a finite `real` or "not finite". It also
  has `Math.max` and a division that is not finite when the divisor is zero.
- `Text`: the string operations the formatter relies on. These are the decimal
  rendering of a natural number, `padStart(2, "0")` and `join(" ")`. Each has a
  partner: decimal reading for the rendering, and splitting on spaces for the join.
- `Calculator`: the duration formatter, the form's validity check, the
  duration formula, the end date and the start button.
  - `FormatDuration` is an imperative method, written as the source writes it
    (`%=` steps and `push`). It is proved equal to the specification function
    `DurationText`.
  - `DurationText` is proved to read back (`ParseDuration`) as the whole
    number of seconds it was built from. The formatter's rules are proved
    about it: shown parts, labels, padding and the "0 sec" fallback.
- `ExperimentPage`: the experiment record and the per-record transformations
  (tick, pause, resume, reset), plus removal over the list. The load-time
  normaliser is an imperative method with a loop, proved equal to the tick.
  `Tracker` is a class whose `experiments` field each handler replaces; every
  handler keeps the record invariant `WellFormed`.
- `ExperimentList`: the values each row of the list shows. These are the time
  left, printed by the same formatter, and the litres left.

The tracker's timestamps and durations (`startedAt`, `endsAt`, the tick's
`now`) are `real` milliseconds; the formatter's input, the calculator's
estimate (`TimeInSeconds`) and a row's time left (`RemainingTime`) are `real`
seconds. Volumes and rates are `real` as well. The clock (`Date.now()`) and the generated id are parameters.
Timestamps are tested by JavaScript truthiness, so a timestamp of 0 behaves
like a missing one (`Truthy`).

## Model

| member | source | states |
|---|---|---|
| Calculator.ClockOf | next-app/src/Presentation/components/Calculator.tsx:7-13 | days·86400 + hours·3600 + minutes·60 + seconds gives back the floored count, with hours < 24, minutes < 60 and seconds < 60 |
| Calculator.ClockUnique | next-app/src/Presentation/components/Calculator.tsx:7-13 | those bounds admit only one decomposition |
| Calculator.FormatDuration | next-app/src/Presentation/components/Calculator.tsx:5-25 | the imperative formatter (floor, `%=` steps, conditional pushes, join) returns exactly `DurationText` of its input; the copy at ExperimentList.tsx lines 5-24 has the same statements, so this method and its contract model both copies, and both print the same text for every input |
| Calculator.FormatParseRoundTrip | next-app/src/Presentation/components/Calculator.tsx:15-24 | reading the text back as amount/unit pairs gives the floored number of seconds, so no two whole durations share a text |
| Calculator.ZeroText | next-app/src/Presentation/components/Calculator.tsx:6 | the text is never empty; it is "0 sec" exactly when the input is negative, not finite, or floors to 0 |
| Calculator.ClockTextZero | next-app/src/Presentation/components/Calculator.tsx:21-22 | zero seconds prints "0 sec" (the forced seconds part) |
| Calculator.PartsShown | next-app/src/Presentation/components/Calculator.tsx:17-22 | "jours" is shown iff days > 1 and "jour" iff days = 1; "h" and "min" iff non-zero; "sec" iff non-zero or nothing else is shown |
| Calculator.AmountsShown | next-app/src/Presentation/components/Calculator.tsx:17-22 | every shown amount is its unit's value in decimal and reads back as it; days and hours are never padded; minutes have two digits iff days or hours are shown (or minutes ≥ 10); seconds have two digits iff any higher unit is shown (or seconds ≥ 10) |
| Calculator.ExampleFortyFive | next-app/src/Presentation/components/Calculator.tsx:7-22 | 45.5 prints "45 sec" |
| Calculator.ExampleSixtyFive | next-app/src/Presentation/components/Calculator.tsx:19-22 | 65 prints "1 min 05 sec" |
| Calculator.ExampleOneHour | next-app/src/Presentation/components/Calculator.tsx:18-21 | 3600 prints "1 h" |
| Calculator.ExampleOneHourOneSecond | next-app/src/Presentation/components/Calculator.tsx:18-22 | 3601 prints "1 h 01 sec" |
| Calculator.ExampleHourMinuteSecond | next-app/src/Presentation/components/Calculator.tsx:18-22 | 3661 prints "1 h 01 min 01 sec" |
| Calculator.ExampleOneDayOneHour | next-app/src/Presentation/components/Calculator.tsx:17-18 | 90000 prints "1 jour 1 h" |
| Calculator.ExampleTwoDays | next-app/src/Presentation/components/Calculator.tsx:17 | 172800 prints "2 jours" |
| Calculator.TimeInSeconds | next-app/src/Presentation/components/Calculator.tsx:42-52 | never negative; 0 when the form is invalid; when valid, time·speed = volume·1000·perTime |
| Calculator.TimeInSecondsMonotone | next-app/src/Presentation/components/Calculator.tsx:50-52 | a larger volume or a longer interval never shortens the estimate, and a faster flow never lengthens it |
| Calculator.InvalidEstimateText | next-app/src/Presentation/components/Calculator.tsx:163 | an invalid form shows "0 sec" as its estimate |
| Calculator.EndDate | next-app/src/Presentation/components/Calculator.tsx:61-63 | an end date exists iff the form is valid, the volume is positive and the clock has been read; it lies after now |
| Calculator.StartClick | next-app/src/Presentation/components/Calculator.tsx:178-183 | the handler passes something iff the form is valid; then it passes the volume, a positive ml/s rate with rate·perTime = speed, and volume·1000/rate equals the estimate |
| Calculator.EnabledStartStartsSomething | next-app/src/Presentation/components/Calculator.tsx:178-184 | an enabled button starts an experiment with a positive volume, and the form shows an end date whatever the clock reads |
| ExperimentPage.NewExperiment | next-app/src/Presentation/components/ExperimentPage.tsx:77-90 | the new record is running from now with its whole volume left, and the volume that flows from now to `endsAt` at its rate is exactly that volume; it is well-formed for a non-negative volume and positive rate |
| ExperimentPage.Tracker.AddExperiment | next-app/src/Presentation/components/ExperimentPage.tsx:77-92 | the list becomes the new record followed by the old list, and the invariant is kept |
| ExperimentPage.Reconcile | next-app/src/Presentation/components/ExperimentPage.tsx:63-71 | id, volume and rate are kept; a record that is not running or has no (truthy) end time is returned unchanged; a record still running keeps its timestamps |
| ExperimentPage.ReconcileAll | next-app/src/Presentation/components/ExperimentPage.tsx:63-71 | the tick keeps the list's length and order and reconciles each record in place |
| ExperimentPage.ReconcileAnchored | next-app/src/Presentation/components/ExperimentPage.tsx:65-70 | before its end time a running record holds the (positive) volume that flows until then; at or after it, the record is stopped, empty and without timestamps |
| ExperimentPage.ReconcileLater | next-app/src/Presentation/components/ExperimentPage.tsx:63-71 | a tick at t2 after a tick at t1 ≤ t2 gives what the tick at t2 gives alone, so missed ticks change nothing |
| ExperimentPage.ReconcileIdempotent | next-app/src/Presentation/components/ExperimentPage.tsx:63-71 | two ticks at the same time equal one |
| ExperimentPage.ReconcileAllLater | next-app/src/Presentation/components/ExperimentPage.tsx:61-72 | the same for the whole list |
| ExperimentPage.ReconcileWellFormed | next-app/src/Presentation/components/ExperimentPage.tsx:63-71 | the tick keeps "running iff both timestamps are set" and a non-negative volume |
| ExperimentPage.NewExperimentReconciled | next-app/src/Presentation/components/ExperimentPage.tsx:63-71 | a record just added (positive volume) is unchanged by a tick at the time it was added |
| ExperimentPage.NormalizeRecord | next-app/src/Presentation/components/ExperimentPage.tsx:24-40 | the load-time callback, with its reassigned locals, gives exactly the tick's result for the record |
| ExperimentPage.Normalize | next-app/src/Presentation/components/ExperimentPage.tsx:24-41 | normalising the decoded list equals ticking it |
| ExperimentPage.Tracker.constructor | next-app/src/Presentation/components/ExperimentPage.tsx:10 | the page starts with an empty list, which meets the invariant |
| ExperimentPage.Tracker.Load | next-app/src/Presentation/components/ExperimentPage.tsx:17-46 | with nothing to load the list is unchanged and keeps the invariant; otherwise it becomes the ticked decoded list, which meets the invariant whenever the decoded records do, whatever the list held before |
| ExperimentPage.Pause | next-app/src/Presentation/components/ExperimentPage.tsx:99-103 | a paused record is not running and has no timestamps; id, volume and rate are kept |
| ExperimentPage.PauseAtZeroRate | next-app/src/Presentation/components/ExperimentPage.tsx:101-102 | a zero-rate record with an end time pauses to an empty volume: the end-time branch multiplies by the rate and never divides by it |
| ExperimentPage.Resume | next-app/src/Presentation/components/ExperimentPage.tsx:104-110 | a resumed record runs from now with the same volume left, and that volume flows exactly between now and its new end time |
| ExperimentPage.ToggleAll | next-app/src/Presentation/components/ExperimentPage.tsx:94-113 | length and ids are kept; records with another id are unchanged; each record with this id flips between running and paused |
| ExperimentPage.PauseWithoutEndKeepsVolume | next-app/src/Presentation/components/ExperimentPage.tsx:101-102 | pausing a record without an end time keeps its stored volume |
| ExperimentPage.PauseFreezesReconciled | next-app/src/Presentation/components/ExperimentPage.tsx:101-102 | pausing freezes the same volume a tick at that time would show |
| ExperimentPage.ResumeThenPause | next-app/src/Presentation/components/ExperimentPage.tsx:99-110 | resuming a paused record and pausing it at the same time gives the paused record back |
| ExperimentPage.PauseThenResume | next-app/src/Presentation/components/ExperimentPage.tsx:99-110 | pausing and resuming at the same time keeps a pending end time |
| ExperimentPage.ToggleAllWellFormed | next-app/src/Presentation/components/ExperimentPage.tsx:94-113 | togglePause keeps the record invariant |
| ExperimentPage.Tracker.TogglePause | next-app/src/Presentation/components/ExperimentPage.tsx:94-113 | the list is replaced by its toggled version, and the invariant is kept |
| ExperimentPage.ResetAll | next-app/src/Presentation/components/ExperimentPage.tsx:115-129 | every other record is unchanged; each record with this id is stopped, without timestamps, and back to its starting volume |
| ExperimentPage.ResetAllIdempotent | next-app/src/Presentation/components/ExperimentPage.tsx:115-129 | resetting twice equals resetting once |
| ExperimentPage.ResetAllWellFormed | next-app/src/Presentation/components/ExperimentPage.tsx:115-129 | reset keeps the record invariant |
| ExperimentPage.Tracker.ResetExperiment | next-app/src/Presentation/components/ExperimentPage.tsx:115-129 | the list is replaced by its reset version, and the invariant is kept |
| ExperimentPage.Without | next-app/src/Presentation/components/ExperimentPage.tsx:131-133 | a record remains iff it was there and has another id; nothing changes when the id is absent |
| ExperimentPage.WithoutAppend | next-app/src/Presentation/components/ExperimentPage.tsx:132 | removal works piece by piece over a concatenation, so the remaining records keep their order |
| ExperimentPage.WithoutIdempotent | next-app/src/Presentation/components/ExperimentPage.tsx:132 | removing twice equals removing once |
| ExperimentPage.Tracker.RemoveExperiment | next-app/src/Presentation/components/ExperimentPage.tsx:131-133 | the list is replaced by the list without that id, and the invariant is kept |
| ExperimentPage.Tracker.Tick | next-app/src/Presentation/components/ExperimentPage.tsx:61-72 | the list is replaced by its ticked version, and the invariant is kept |
| ExperimentPage.StartMatchesEstimate | next-app/src/Presentation/components/Calculator.tsx:178-183 | an experiment started from the calculator ends at click time + estimate·1000; the end date the form shows (lines 55-62) is counted from the clock reading taken once on mount, so the experiment ends later than that date by exactly the time between mount and click |
| ExperimentPage.MlInMsFor | next-app/src/Presentation/components/ExperimentPage.tsx:102-106 | converting a volume to milliseconds at a rate and back gives the volume |
| ExperimentList.RemainingTime | next-app/src/Presentation/components/ExperimentList.tsx:88 | the time left is finite iff the rate is non-zero, and then time·rate = millilitres left |
| ExperimentList.RemainingLiters | next-app/src/Presentation/components/ExperimentList.tsx:55 | litres·1000 = millilitres left |
| ExperimentList.EmptyShowsZero | next-app/src/Presentation/components/ExperimentList.tsx:88 | an emptied record, or one with a zero rate, shows "0 sec" |
| ExperimentList.FinishedShowsZero | next-app/src/Presentation/components/ExperimentList.tsx:55-88 | a record the tick has just finished shows "0 sec" and 0 litres |
| ExperimentList.RunningShowsTimeToEnd | next-app/src/Presentation/components/ExperimentList.tsx:88 | a running record shows exactly the seconds until its end time |
| ExperimentList.NewRowShowsEstimate | next-app/src/Presentation/components/ExperimentList.tsx:88 | an experiment started from the calculator first shows the calculator's own estimate text |
| ExperimentList.ResetShowsStart | next-app/src/Presentation/components/ExperimentList.tsx:55 | after a reset, the row shows its starting volume in litres |
| ExperimentList.RemainingTimeNeverRises | next-app/src/Presentation/components/ExperimentList.tsx:88 | as time goes on, the time a well-formed row shows never goes up |

## Left out

- JSX markup, styling and React hooks (`useState`, `useEffect`, `useRef`, the `experimentsRef` mirror, `setInterval`) have no logic of their own beyond presentation and scheduling. Each handler is one method of `Tracker`, and the interval callback is `Tracker.Tick(now)`.
- `localStorage` and JSON are input and output. `Tracker.Load` takes the already-decoded list, or `None` when the key is missing or cannot be parsed. Saving the list is not modelled.
- `Date.now()` and `Math.random()` are nondeterministic, so the time and the new id are parameters. The id format `${Date.now()}-${random}` is not modelled.
- `toFixed(2)` and `toLocaleString` are display rounding and formatting. `RemainingLiters` is the value before rounding, and `EndDate` is the timestamp before formatting.
- `parseFloat` and floating-point arithmetic are outside the model. This includes `toString` switching to exponent form from 10^21 on, so the model prints a day count of that size in plain digits. Quantities are exact `real`s, and a form field is either a finite number or not, as `Number.isFinite` tests. Rounding error is not modelled.
- Infinity and NaN exist only at the one place where the model can produce them (`Numbers.Divide`), so a zero rate is not followed further.
- ExperimentPage.Pause, ExperimentPage.Resume, ExperimentPage.Toggle and ExperimentPage.ToggleAll require a non-zero rate exactly where the source divides by it: pausing a record without a (truthy) end time, and resuming. A zero rate there makes the source compute Infinity or NaN, which a `real` cannot hold. Pausing from an end time needs no such condition (`PauseAtZeroRate`). The page only ever builds records from the calculator, whose rate is positive.
- ExperimentPage.NewExperiment and ExperimentPage.Tracker.AddExperiment require a non-zero rate for the same reason. The calculator passes a positive one.
- ExperimentPage.Tracker: the invariant `Valid` (positive rate, non-negative volumes, running iff both timestamps are set) is preserved, not enforced. It is not guaranteed for records read from storage that break it.
- The `Experiment` type declared in ExperimentList.tsx (lines 26-34, with `elapsedMs` and `lastTick`) does not match the records ExperimentPage.tsx builds. The model uses the fields the page builds (`startedAt` and `endsAt`).
- next-app/src/app/page.tsx, next-app/eslint.config.mjs and next-app/src/env/server.ts contain no logic and are not part of this model.
