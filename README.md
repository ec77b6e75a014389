# Power cycle guardian: the cycle engine and the setup anchor, in Dafny

The application tracks a fixed two-phase power cycle. Power is ON for 48 hours
and then OFF for 24 hours, repeating every 72 hours from a start date, the
anchor, at which an ON period began. This project models two pieces of it:

- the cycle engine of `src/utils/powerCycleUtils.ts` (module `PowerCycle`):
  - the position in the cycle, the current status and the next event;
  - the next three events;
  - the time left until an event;
- `handleSubmit` of the setup wizard in `src/components/SetupWizard.tsx`
  (module `Setup`). It turns the user's answers into an anchor at noon:
  - the status now (on or off);
  - when the status last changed (today, yesterday or a chosen date);
  - the chosen date, if any.

Module `Time` holds the date arithmetic these rely on:

- Instants are whole milliseconds on a local clock.
- date-fns `differenceInHours` and `differenceInMinutes` truncate toward zero.
- JavaScript's `%` is a truncated remainder whose sign follows the dividend
  (`TruncRem`); Dafny's own `%` is Euclidean.
- `addDays`, `subDays` and `addHours` move by fixed 24-hour days and 60-minute
  hours.
- Setting the time to 12:00:00.000 keeps the calendar day, which is the instant
  divided by the length of a day, rounded down.

Every source function reads the clock with `new Date()`. Here the reading is a
parameter `now`, and a source function that calls others uses one reading for
all of them.

How the model follows the code where the code is loose:

- **Future anchors.** `getPositionInCycle` uses a truncated difference and a
  truncated `%`. An anchor in the future therefore gives a position that is zero
  or negative: minus the whole hours until the anchor, modulo 72. The status
  then reads ON. The model does the same. A floored modulo would wrap the
  position into [0, 72) instead. The [0, 72) bound and periodicity are proved
  only for an anchor that is not in the future.
- **Next event before a future anchor.** The next event is still strictly after
  `now`, 48 to 119 hours ahead, and it always announces OFF. It need not match
  the clock. With the anchor at 0 and `now` 10.5 hours before it, the event is
  at 47.5 hours; the clock still reads ON there, and the switch to OFF comes at
  48 hours. With `now` 100 hours before the anchor, the announced OFF event is
  24 hours before the anchor, and the clock does not switch there at all
  (`FutureAnchorNextEvent`).
- **Custom option without a date.** The wizard disables its submit button then.
  If `handleSubmit` ran anyway, both branches would fall through and keep
  today at noon. `Anchor` and `HandleSubmit` return exactly that, with no error
  result.
- **Three events, not N.** `getNextThreeEvents` builds exactly three events.
  `Forecast` is a reference definition of n events, each following the one
  before. The method is proved equal to `Forecast` with n = 3, and the laws about
  gaps, order and period are proved for every n.
- **Next event not aligned.** `getNextEventDate` returns `now` plus whole hours.
  It is not the instant at which the status flips. For an anchor not in the
  future, `NextEventLagsFlip` proves that the reported date trails the real flip
  by less than an hour. `StatusSteadyUntilFlip` proves that the status holds
  until that real flip.

## Model

| member | source | states |
|---|---|---|
| `Time.TruncRem` | src/utils/powerCycleUtils.ts:24 | the `%` of the source: dividend = truncated quotient × divisor + remainder, and the remainder lies in [0, divisor) for a non-negative dividend and in (−divisor, 0] for a negative one |
| `Time.DiffHours` | src/utils/powerCycleUtils.ts:21 | date-fns `differenceInHours`: the whole hours between two instants, truncated toward zero; for a later first instant h whole hours fit in the gap and h + 1 do not, and for an earlier one the same holds mirrored |
| `Time.DiffMinutes` | src/utils/powerCycleUtils.ts:48 | date-fns `differenceInMinutes`: the whole minutes between two instants, truncated toward zero in the same way |
| `Time.AddHours` | src/utils/powerCycleUtils.ts:37 | date-fns `addHours`: the result lies a whole number of hours after the instant, and `differenceInHours` counts exactly the given number of hours; together these fix the result at that many hours later |
| `Time.AddDays` | src/utils/powerCycleUtils.ts:80-92 | date-fns `addDays` on fixed 24-hour days: the same time of day, the given number of calendar days later |
| `Time.SubDays` | src/components/SetupWizard.tsx:31-54 | date-fns `subDays` on fixed 24-hour days: the same time of day, the given number of calendar days earlier |
| `Time.SetNoon` | src/components/SetupWizard.tsx:21 | date-fns `set` to 12:00:00.000: the same calendar day, with time of day noon |
| `Time.HoursFromMinutes` | src/utils/powerCycleUtils.ts:47-48 | the whole hours until an instant equal the whole minutes until it divided by 60, both rounded toward zero |
| `PowerCycle.PositionInCycle` | src/utils/powerCycleUtils.ts:19-25 | the position lies in (−72, 72); it lies in [0, 72) when the start date is not after the current date; when the start date is in the future it is minus the whole hours until the start date, modulo 72 |
| `PowerCycle.PositionIsFlooredModulo` | src/utils/powerCycleUtils.ts:19-25 | for a start date not in the future, the position is the floored number of whole hours elapsed, reduced modulo 72 |
| `PowerCycle.PositionAfterHours` | src/utils/powerCycleUtils.ts:19-25 | from a start date not in the future, moving h whole hours later adds h to the elapsed hours and moves the position h steps around the cycle |
| `PowerCycle.PositionPeriodic` | src/utils/powerCycleUtils.ts:19-25 | for a start date not in the future, k whole 72-hour cycles later the position and the status are unchanged |
| `PowerCycle.CurrentStatus` | src/utils/powerCycleUtils.ts:9-17 | the status is ON exactly when the position is below 48, so position 48 is OFF; with a start date in the future it is ON |
| `PowerCycle.StatusByElapsedTime` | src/utils/powerCycleUtils.ts:4-17 | for a start date not in the future, the status is ON exactly when the elapsed milliseconds modulo 72 hours are below 48 hours |
| `PowerCycle.StatusInCycle` | src/utils/powerCycleUtils.ts:4-17 | within the k-th cycle after the start date, the status is ON exactly when the offset into that cycle is below 48 hours |
| `PowerCycle.BoundaryInstants` | src/utils/powerCycleUtils.ts:13-16 | in every cycle, the status is ON at the cycle's start and 1 ms before hour 48; it is OFF exactly at hour 48 and 1 ms before hour 72 |
| `PowerCycle.NextEventDate` | src/utils/powerCycleUtils.ts:27-38 | the next event date is strictly after `now` by a whole number of hours for every start date; that is at most 48 hours while ON from a start date not in the future, at most 24 hours while OFF, and 48 to 119 hours with a start date in the future |
| `PowerCycle.NextEventType` | src/utils/powerCycleUtils.ts:40-43 | the next event type is always the opposite of the current status for the same `now` |
| `PowerCycle.NextEvent` | src/utils/powerCycleUtils.ts:71-77 | the first event is after `now` and announces the status other than the current one |
| `PowerCycle.FutureAnchorNextEvent` | src/utils/powerCycleUtils.ts:19-38 | with the start date at 0: read 10.5 hours before it, the next event is OFF at 47.5 hours, where the clock still reads ON, and the clock reads OFF only at 48 hours; read 100 hours before it, the next event is OFF at 24 hours before the start date, where the clock reads ON |
| `PowerCycle.PositionAtNextEvent` | src/utils/powerCycleUtils.ts:27-43 | for a start date not in the future, at the reported next event date the position is 0 (for an ON event) or 48 (for an OFF event), so the status there equals the announced type |
| `PowerCycle.NextEventLagsFlip` | src/utils/powerCycleUtils.ts:27-38 | for a start date not in the future, the status really flips at a whole hour after the start date, after `now`; that flip is at most the reported next event date and less than one hour before it, and the flip already shows the announced type |
| `PowerCycle.StatusSteadyUntilFlip` | src/utils/powerCycleUtils.ts:9-38 | from `now` up to (not including) the actual flip, the status stays the current one |
| `PowerCycle.TimeUntilNextEvent` | src/utils/powerCycleUtils.ts:45-54 | hours × 60 + minutes equals the whole minutes remaining; for an event not before `now`, hours ≥ 0, minutes lie in [0, 60), and the remaining time minus hours and minutes is less than one minute; for a past event, hours ≤ 0 and minutes lie in (−60, 0] |
| `PowerCycle.TimeUntilNextEventIsWholeHours` | src/utils/powerCycleUtils.ts:27-54 | with the same `now`, the time until the next event is a whole number of hours and 0 minutes; it is between 1 and 119 hours, and at most 48 for a start date not in the future |
| `PowerCycle.TimeUntilNextEventLaterReading` | src/components/PowerStatus.tsx:22-24 | when the next event date is read at `now` and the time left at a later reading within a minute, the display shows one hour fewer than the whole hours to the event, and 59 minutes |
| `PowerCycle.FollowingMatchesClock` | src/utils/powerCycleUtils.ts:79-92 | an event at the start of its phase on the clock is followed, one phase length later, by an event at the start of the next phase |
| `PowerCycle.Forecast` | src/utils/powerCycleUtils.ts:68-100 | a forecast of n events has length n and starts with the given first event |
| `PowerCycle.NextThreeEvents` | src/utils/powerCycleUtils.ts:68-100 | the three events pushed are exactly the forecast of three events that starts at the next event date with the next event type |
| `PowerCycle.ForecastStep` | src/utils/powerCycleUtils.ts:79-92 | each event switches the other way from the one before; it comes 24 hours after an OFF event and 48 hours after an ON event |
| `PowerCycle.ForecastIncreasing` | src/utils/powerCycleUtils.ts:79-97 | the event dates strictly increase |
| `PowerCycle.ForecastPeriod` | src/utils/powerCycleUtils.ts:89-97 | two events apart, a forecast repeats the event type exactly 72 hours later; for three events, the third has the first one's type and comes 72 hours after it |
| `PowerCycle.ForecastMatchesClock` | src/utils/powerCycleUtils.ts:68-100 | for a start date not in the future, every forecast event lies after the start date; the position there is 0 or 48, and the current status there is the type the event announces |
| `Setup.Anchor` | src/components/SetupWizard.tsx:17-59 | the anchor is always at 12:00:00.000. Its day by case: on+today is today; on+yesterday is today − 1; off+today is today − 2; off+yesterday is today. Custom with a date is the chosen day, minus 2 when off. Custom without a date is today at noon. For today and yesterday, the anchor lies between 2 days before today at noon and today at noon |
| `Setup.HandleSubmit` | src/components/SetupWizard.tsx:17-59 | the start date reached by the branch-by-branch reassignments is the anchor of the case split |
| `Setup.AnchorInputsUsed` | src/components/SetupWizard.tsx:24-55 | the chosen date plays no part for the today and yesterday answers; today's date plays no part for a custom answer with a date |
| `Setup.LastChange` | src/components/SetupWizard.tsx:100-117 | the answer names a last change; it is absent only for the custom option without a date, and when present it is at noon |
| `Setup.IntendedAnchor` | src/components/SetupWizard.tsx:36-55 | the corrected anchor exists exactly when the answer names a last change |
| `Setup.IntendedAnchorMatchesReport` | src/components/SetupWizard.tsx:36-55 | whenever the user's report holds (the phase entered at the named change is still running), the clock anchored at the corrected anchor reads the reported status |
| `Setup.AnchorVersusIntended` | src/components/SetupWizard.tsx:24-55 | the source's anchor equals the corrected one in every case except off+yesterday, where it is exactly one 72-hour cycle later |
| `Setup.AnchorMatchesReport` | src/components/SetupWizard.tsx:24-55 | except for off+yesterday, whenever the user's report holds, the clock anchored at the source's anchor reads the reported status |
| `Setup.OffYesterdayReadsOn` | src/components/SetupWizard.tsx:40-44 | set up before today noon after "off since yesterday": the report holds, the anchor lies in the future, and the clock reads ON |
| `Setup.OffYesterdayNeverRight` | src/components/SetupWizard.tsx:40-44 | at every instant at which "off since yesterday noon" holds, the source's anchor makes the clock read ON |
| `Setup.OffYesterdayExample` | src/components/SetupWizard.tsx:40-44 | set up at 09:00 on day 1 after power went off at noon on day 0: the source anchors at day 1 noon and reads ON; the corrected anchor is noon two days before day 0, and it reads OFF |
| `Setup.OffYesterdayAgreesLater` | src/components/SetupWizard.tsx:40-44 | once the source's off+yesterday anchor has been reached, it reads the same status as the corrected anchor |

## Findings

| source | as written | input that shows it | evidently intended | confidence | as-written member | corrected member |
|---|---|---|---|---|---|---|
| src/components/SetupWizard.tsx:40-44 | with the power off and the last change yesterday, the start date stays today at noon | setup at 09:00 the day after the power went off at noon: the start date is 3 hours in the future, so `calculateCurrentStatus` reads "on" while the power is off until noon | today at noon minus 3 days: the ON start 48 hours before yesterday's switch-off, as the custom-date rule gives for yesterday's date | medium, not executed (the comment at lines 41-42 shows the authors assumed the new cycle had already begun) | `Setup.OffYesterdayNeverRight` | `Setup.IntendedAnchorMatchesReport` |

`HandleSubmit` and `Anchor` keep the code as written. `IntendedAnchor` is the
corrected derivation. Nothing else in the model consumes an anchor from
setup: the cycle engine takes any start date as a parameter.

## Left out

- `formatDateTime`, `formatTime` and `formatTimeRemaining` (src/utils/powerCycleUtils.ts:56-66): locale formatting and string interpolation, which are presentation only.
- `NextThreeEvents`: the unused `currentStatus` local of src/utils/powerCycleUtils.ts:70 is not modelled, because nothing reads it.
- Clock readings between calls: the source reads `new Date()` separately inside `calculateCurrentStatus`, `getNextEventDate` and `getNextEventType`. The model uses one `now` for all of them, so it does not model the clock moving on between those calls. With one `now`, the minutes part of the time left is always 0 (`TimeUntilNextEventIsWholeHours`).
- `TimeUntilNextEvent` takes the clock reading as a parameter. Its only caller, src/components/PowerStatus.tsx:22-24, reads the clock once in `getNextEventDate` and again in `getTimeUntilNextEvent`. When the clock has moved on between the two reads, the panel shows one hour fewer and 59 minutes, not whole hours and 0 minutes (`TimeUntilNextEventLaterReading`). The rest of that component is rendering and is not part of this model.
- Calendar details: daylight-saving shifts in `addDays`/`subDays`/`set`, time zones, and the UTC-midnight parsing of the date input (src/components/SetupWizard.tsx:128). Days are fixed 24-hour days, and a chosen date is any instant on that day.
- JavaScript number details: the model uses unbounded integers. Dates stay within the exact integer range of doubles. The negative zero that `Math.trunc` can give compares like 0.
- Wizard step navigation, `useState` setters and the disabled submit button (src/components/SetupWizard.tsx:12-15, 61-156): UI flow. The wizard's state becomes the parameters of `HandleSubmit`, and `onComplete` receives its result.
- src/pages/Index.tsx (storage, notification timers and lead time, toasts, reset confirmation), src/components/Settings.tsx, src/components/PowerStatus.tsx (apart from its three calls at lines 22-24) and src/components/PowerTimeline.tsx: I/O, timers and rendering, outside this model. Only the `"on" | "off"` type of src/types/power.ts is used, as `Status`.
