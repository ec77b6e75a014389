/** The cycle engine of src/utils/powerCycleUtils.ts.

    Power is ON for 48 hours and then OFF for 24 hours, repeating every 72 hours
    from an anchor instant (the start date) at which an ON period began. Every
    operation of the source reads the wall clock itself; here the clock reading
    `now` is a parameter, and one source call that reads the clock several times
    is modelled with a single reading. */
module PowerCycle {
  import opened Time

  /** The `"on" | "off"` status of src/types/power.ts. */
  datatype Status = On | Off

  function Opposite(s: Status): (r: Status)
    ensures r != s
  {
    if s == On then Off else On
  }

  const ON_HOURS: int := 48
  const OFF_HOURS: int := 24
  /** ON_HOURS + OFF_HOURS, written out so that the solver sees a literal. */
  const CYCLE_HOURS: int := 72

  /** getPositionInCycle: whole hours since the anchor (truncated toward zero)
      reduced by JavaScript's `%`, so an anchor in the future gives a position
      that is zero or negative. */
  function PositionInCycle(startDate: Instant, currentDate: Instant): (p: int)
    ensures -CYCLE_HOURS < p < CYCLE_HOURS
    ensures startDate <= currentDate ==> 0 <= p < CYCLE_HOURS
    ensures currentDate < startDate ==> p <= 0
    ensures currentDate < startDate ==> p == -(((startDate - currentDate) / MS_PER_HOUR) % CYCLE_HOURS)
  {
    TruncRem(DiffHours(currentDate, startDate), CYCLE_HOURS)
  }

  /** calculateCurrentStatus: ON during the first 48 hours of the cycle. */
  function CurrentStatus(startDate: Instant, now: Instant): (s: Status)
    ensures s == On <==> PositionInCycle(startDate, now) < ON_HOURS
    ensures now < startDate ==> s == On
  {
    if PositionInCycle(startDate, now) < ON_HOURS then On else Off
  }

  /** getNextEventDate: `now` plus the whole hours left until position 48
      (while ON) or until position 72 (while OFF). */
  function NextEventDate(startDate: Instant, now: Instant): (t: Instant)
    ensures now < t
    ensures (t - now) % MS_PER_HOUR == 0
    ensures startDate <= now && CurrentStatus(startDate, now) == On ==> t - now <= ON_HOURS * MS_PER_HOUR
    ensures CurrentStatus(startDate, now) == Off ==> t - now <= OFF_HOURS * MS_PER_HOUR
    ensures now < startDate ==> ON_HOURS * MS_PER_HOUR <= t - now < (ON_HOURS + CYCLE_HOURS) * MS_PER_HOUR
  {
    var p := PositionInCycle(startDate, now);
    var hoursUntilNextEvent := if p < ON_HOURS then ON_HOURS - p else CYCLE_HOURS - p;
    AddHours(now, hoursUntilNextEvent)
  }

  /** getNextEventType: the status the next event switches to. */
  function NextEventType(startDate: Instant, now: Instant): (k: Status)
    ensures k != CurrentStatus(startDate, now)
  {
    Opposite(CurrentStatus(startDate, now))
  }

  /** One entry of the array getNextThreeEvents returns. */
  datatype Event = Event(date: Instant, kind: Status)

  /** The next event, from one reading of the clock. */
  function NextEvent(startDate: Instant, now: Instant): (e: Event)
    ensures now < e.date && e.kind != CurrentStatus(startDate, now)
  {
    Event(NextEventDate(startDate, now), NextEventType(startDate, now))
  }

  /** Position in the cycle at which a phase of the given status begins. */
  function PhaseStart(kind: Status): int
  {
    if kind == On then 0 else ON_HOURS
  }

  /** Length in hours of the phase an event of the given kind begins. */
  function PhaseHours(kind: Status): int
  {
    if kind == On then ON_HOURS else OFF_HOURS
  }

  /** The event after `e`: once the phase `e` begins has run its length,
      the power switches the other way. */
  function Following(e: Event): Event
  {
    Event(e.date + PhaseHours(e.kind) * MS_PER_HOUR, Opposite(e.kind))
  }

  /** Reference definition of a forecast: `n` events starting at `first`,
      each following the one before. */
  function Forecast(first: Event, n: nat): (events: seq<Event>)
    ensures |events| == n
    ensures n > 0 ==> events[0] == first
    decreases n
  {
    if n == 0 then [] else [first] + Forecast(Following(first), n - 1)
  }

  /** getNextThreeEvents: the next event, then two more stepped forward by
      whole days (1 day after an OFF event, 2 days after an ON event). */
  method NextThreeEvents(startDate: Instant, now: Instant) returns (events: seq<Event>)
    ensures events == Forecast(NextEvent(startDate, now), 3)
  {
    events := [];
    var nextEventDate := NextEventDate(startDate, now);
    var nextEventType := NextEventType(startDate, now);
    events := events + [Event(nextEventDate, nextEventType)];

    var secondEventDate := if nextEventType == Off then AddDays(nextEventDate, 1) else AddDays(nextEventDate, 2);
    events := events + [Event(secondEventDate, if nextEventType == Off then On else Off)];

    var thirdEventDate := if nextEventType == Off then AddDays(secondEventDate, 2) else AddDays(secondEventDate, 1);
    events := events + [Event(thirdEventDate, if nextEventType == Off then Off else On)];

    ghost var first := NextEvent(startDate, now);
    assert Forecast(first, 3) == [first] + Forecast(Following(first), 2);
    assert Forecast(Following(first), 2) == [Following(first)] + Forecast(Following(Following(first)), 1);
  }

  /** The result of getTimeUntilNextEvent. */
  datatype TimeRemaining = TimeRemaining(hours: int, minutes: int)

  /** getTimeUntilNextEvent: whole hours, and whole minutes reduced by `% 60`. */
  function TimeUntilNextEvent(nextEventDate: Instant, now: Instant): (r: TimeRemaining)
    ensures r.hours * 60 + r.minutes == DiffMinutes(nextEventDate, now)
    ensures now <= nextEventDate ==> 0 <= r.hours && 0 <= r.minutes < 60
    ensures now <= nextEventDate ==>
      0 <= nextEventDate - (now + r.hours * MS_PER_HOUR + r.minutes * MS_PER_MINUTE) < MS_PER_MINUTE
    ensures nextEventDate < now ==> r.hours <= 0 && -60 < r.minutes <= 0
  {
    HoursFromMinutes(nextEventDate, now);
    TimeRemaining(DiffHours(nextEventDate, now), TruncRem(DiffMinutes(nextEventDate, now), 60))
  }

  // ---------------------------------------------------------------------------
  // Position arithmetic

  /** Moving forward by whole hours from an instant at or after the anchor moves
      the position forward by the same number of hours, around the cycle. */
  lemma PositionAfterHours(startDate: Instant, t: Instant, h: nat)
    requires startDate <= t
    ensures DiffHours(t + h * MS_PER_HOUR, startDate) == DiffHours(t, startDate) + h
    ensures PositionInCycle(startDate, t + h * MS_PER_HOUR) == (PositionInCycle(startDate, t) + h) % CYCLE_HOURS
  {
    var x := t - startDate;
    var d := DiffHours(t, startDate);
    DivUnique(x + h * MS_PER_HOUR, MS_PER_HOUR, d + h, x - d * MS_PER_HOUR);
  }

  /** When the anchor is not in the future, the position is the floored number
      of whole hours since the anchor, reduced modulo the cycle. */
  lemma PositionIsFlooredModulo(startDate: Instant, now: Instant)
    requires startDate <= now
    ensures PositionInCycle(startDate, now) == ((now - startDate) / MS_PER_HOUR) % CYCLE_HOURS
  {
  }

  /** Periodicity: from an anchor not in the future, k whole cycles later the
      position, and so the status, are the same. */
  lemma {:induction false} PositionPeriodic(startDate: Instant, now: Instant, k: nat)
    requires startDate <= now
    ensures PositionInCycle(startDate, now + k * CYCLE_HOURS * MS_PER_HOUR) == PositionInCycle(startDate, now)
    ensures CurrentStatus(startDate, now + k * CYCLE_HOURS * MS_PER_HOUR) == CurrentStatus(startDate, now)
  {
    if k > 0 {
      PositionPeriodic(startDate, now, k - 1);
      var t := now + (k - 1) * CYCLE_HOURS * MS_PER_HOUR;
      PositionAfterHours(startDate, t, CYCLE_HOURS);
      assert t + CYCLE_HOURS * MS_PER_HOUR == now + k * CYCLE_HOURS * MS_PER_HOUR;
    }
  }

  /** Independent description of the status: counting from an anchor not in
      the future, power is ON exactly during the first 48 hours of every
      72-hour window. */
  lemma StatusByElapsedTime(startDate: Instant, now: Instant)
    requires startDate <= now
    ensures CurrentStatus(startDate, now) == On <==>
      (now - startDate) % (CYCLE_HOURS * MS_PER_HOUR) < ON_HOURS * MS_PER_HOUR
  {
    var x := now - startDate;
    var m := x / (CYCLE_HOURS * MS_PER_HOUR);
    var y := x % (CYCLE_HOURS * MS_PER_HOUR);
    DivUnique(x, MS_PER_HOUR, m * CYCLE_HOURS + y / MS_PER_HOUR, y % MS_PER_HOUR);
    assert DiffHours(now, startDate) == m * CYCLE_HOURS + y / MS_PER_HOUR;
    DivUnique(m * CYCLE_HOURS + y / MS_PER_HOUR, CYCLE_HOURS, m, y / MS_PER_HOUR);
  }

  /** The boundaries are half-open: in every cycle the instant 48 hours after
      its start is already OFF, and the instant 72 hours after is ON again. */
  lemma BoundaryInstants(startDate: Instant, k: nat)
    ensures CurrentStatus(startDate, startDate + k * CYCLE_HOURS * MS_PER_HOUR) == On
    ensures CurrentStatus(startDate, startDate + k * CYCLE_HOURS * MS_PER_HOUR + ON_HOURS * MS_PER_HOUR - 1) == On
    ensures CurrentStatus(startDate, startDate + k * CYCLE_HOURS * MS_PER_HOUR + ON_HOURS * MS_PER_HOUR) == Off
    ensures CurrentStatus(startDate, startDate + (k + 1) * CYCLE_HOURS * MS_PER_HOUR - 1) == Off
  {
    var m := CYCLE_HOURS * MS_PER_HOUR;
    var c := k * m;
    StatusInCycle(startDate, k, 0);
    StatusInCycle(startDate, k, ON_HOURS * MS_PER_HOUR - 1);
    StatusInCycle(startDate, k, ON_HOURS * MS_PER_HOUR);
    StatusInCycle(startDate, k, m - 1);
    assert startDate + c + m - 1 == startDate + (k + 1) * CYCLE_HOURS * MS_PER_HOUR - 1;
  }

  /** Within the k-th cycle after the anchor, the status depends only on the
      offset into that cycle. */
  lemma StatusInCycle(startDate: Instant, k: nat, y: int)
    requires 0 <= y < CYCLE_HOURS * MS_PER_HOUR
    ensures CurrentStatus(startDate, startDate + k * CYCLE_HOURS * MS_PER_HOUR + y) == On <==> y < ON_HOURS * MS_PER_HOUR
  {
    var m := CYCLE_HOURS * MS_PER_HOUR;
    MulNonNegative(k, m);
    DivUnique(k * m + y, m, k, y);
    StatusByElapsedTime(startDate, startDate + k * m + y);
  }

  // ---------------------------------------------------------------------------
  // The next event against the clock

  /** From an anchor not in the future, the position read at the reported next
      event is the start of the phase that event announces. */
  lemma PositionAtNextEvent(startDate: Instant, now: Instant)
    requires startDate <= now
    ensures PositionInCycle(startDate, NextEventDate(startDate, now)) == PhaseStart(NextEventType(startDate, now))
    ensures CurrentStatus(startDate, NextEventDate(startDate, now)) == NextEventType(startDate, now)
  {
    var p := PositionInCycle(startDate, now);
    var h := if p < ON_HOURS then ON_HOURS - p else CYCLE_HOURS - p;
    PositionAfterHours(startDate, now, h);
  }

  /** The instant, after `now`, at which the clock actually reads the next
      status: a whole number of hours after the anchor. */
  function ActualFlip(startDate: Instant, now: Instant): Instant
    requires startDate <= now
  {
    NextEventDate(startDate, now) - (now - startDate) % MS_PER_HOUR
  }

  /** The reported next event is `now` plus whole hours, so it trails the
      instant the status actually flips by the part of an hour that `now` lies
      past a whole hour since the anchor. */
  lemma NextEventLagsFlip(startDate: Instant, now: Instant)
    requires startDate <= now
    ensures now < ActualFlip(startDate, now) <= NextEventDate(startDate, now)
    ensures NextEventDate(startDate, now) - ActualFlip(startDate, now) < MS_PER_HOUR
    ensures (ActualFlip(startDate, now) - startDate) % MS_PER_HOUR == 0
    ensures CurrentStatus(startDate, ActualFlip(startDate, now)) == NextEventType(startDate, now)
  {
    var x := now - startDate;
    var d := x / MS_PER_HOUR;
    assert x == d * MS_PER_HOUR + x % MS_PER_HOUR;
    var p := PositionInCycle(startDate, now);
    assert p == d % CYCLE_HOURS;
    var h := if p < ON_HOURS then ON_HOURS - p else CYCLE_HOURS - p;
    assert NextEventDate(startDate, now) == now + h * MS_PER_HOUR;
    assert ActualFlip(startDate, now) == startDate + (d + h) * MS_PER_HOUR;
    PositionAfterHours(startDate, startDate, d + h);
    assert PositionInCycle(startDate, ActualFlip(startDate, now)) == (d + h) % CYCLE_HOURS;
    DivUnique(d + h, CYCLE_HOURS, d / CYCLE_HOURS + (p + h) / CYCLE_HOURS, (p + h) % CYCLE_HOURS);
  }

  /** From `now` up to the actual flip, the clock keeps reading the current
      status. */
  lemma StatusSteadyUntilFlip(startDate: Instant, now: Instant, t: Instant)
    requires startDate <= now <= t < ActualFlip(startDate, now)
    ensures CurrentStatus(startDate, t) == CurrentStatus(startDate, now)
  {
    var d := DiffHours(now, startDate);
    var p := PositionInCycle(startDate, now);
    var h := if p < ON_HOURS then ON_HOURS - p else CYCLE_HOURS - p;
    NextEventLagsFlip(startDate, now);
    assert ActualFlip(startDate, now) == startDate + (d + h) * MS_PER_HOUR;
    var e := DiffHours(t, startDate);
    assert d <= e < d + h;
    DivUnique(d, CYCLE_HOURS, d / CYCLE_HOURS, p);
    DivUnique(e, CYCLE_HOURS, d / CYCLE_HOURS, p + (e - d));
  }

  /** Before a future anchor the next event always announces OFF but need not
      match the clock: with the anchor at 0, read 10.5 hours before it, the
      event comes at 47.5 hours, while the clock switches to OFF only at 48;
      read 100 hours before it, the event comes 24 hours before the anchor,
      where the clock reads ON. */
  lemma FutureAnchorNextEvent()
    ensures NextEvent(0, -21 * MS_PER_HOUR / 2) == Event(95 * MS_PER_HOUR / 2, Off)
    ensures CurrentStatus(0, 95 * MS_PER_HOUR / 2) == On
    ensures CurrentStatus(0, 48 * MS_PER_HOUR) == Off
    ensures NextEvent(0, -100 * MS_PER_HOUR) == Event(-24 * MS_PER_HOUR, Off)
    ensures CurrentStatus(0, -24 * MS_PER_HOUR) == On
  {
    assert DiffHours(-21 * MS_PER_HOUR / 2, 0) == -10;
    assert DiffHours(95 * MS_PER_HOUR / 2, 0) == 47;
    assert DiffHours(-100 * MS_PER_HOUR, 0) == -100;
  }

  /** With the same clock reading, the time until the next event is a whole
      number of hours, 1 to 48 from an anchor not in the future and at most
      119 otherwise. */
  lemma TimeUntilNextEventIsWholeHours(startDate: Instant, now: Instant)
    ensures var r := TimeUntilNextEvent(NextEventDate(startDate, now), now);
      && r.minutes == 0
      && now + r.hours * MS_PER_HOUR == NextEventDate(startDate, now)
      && 1 <= r.hours < ON_HOURS + CYCLE_HOURS
      && (startDate <= now ==> r.hours <= ON_HOURS)
  {
    var next := NextEventDate(startDate, now);
    var k := (next - now) / MS_PER_HOUR;
    DivUnique(next - now, MS_PER_HOUR, k, 0);
    DivUnique(next - now, MS_PER_MINUTE, k * 60, 0);
  }

  /** When the next event date is read at `now` and the time left at a
      later reading, less than a minute later (as the status panel does, one
      clock reading per call), the display shows one whole hour fewer and 59
      minutes rather than whole hours and 0 minutes. */
  lemma TimeUntilNextEventLaterReading(startDate: Instant, now: Instant, later: Instant)
    requires now < later <= now + MS_PER_MINUTE
    ensures var k := (NextEventDate(startDate, now) - now) / MS_PER_HOUR;
      TimeUntilNextEvent(NextEventDate(startDate, now), later) == TimeRemaining(k - 1, 59)
  {
    var next := NextEventDate(startDate, now);
    var k := (next - now) / MS_PER_HOUR;
    DivUnique(next - now, MS_PER_HOUR, k, 0);
    var e := later - now;
    DivUnique(next - later, MS_PER_MINUTE, k * 60 - 1, MS_PER_MINUTE - e);
    DivUnique(next - later, MS_PER_HOUR, k - 1, MS_PER_HOUR - e);
  }

  // ---------------------------------------------------------------------------
  // Forecasts

  /** Gap law: each event of a forecast follows the one before it, switching
      the other way 24 hours after an OFF event and 48 hours after an ON event. */
  lemma {:induction false} ForecastStep(first: Event, n: nat, i: nat)
    requires i + 1 < n
    ensures Forecast(first, n)[i + 1].kind == Opposite(Forecast(first, n)[i].kind)
    ensures Forecast(first, n)[i + 1].date == Forecast(first, n)[i].date + PhaseHours(Forecast(first, n)[i].kind) * MS_PER_HOUR
    decreases i
  {
    if i > 0 {
      ForecastStep(Following(first), n - 1, i - 1);
    }
  }

  /** The dates of a forecast strictly increase. */
  lemma {:induction false} ForecastIncreasing(first: Event, n: nat, i: nat, j: nat)
    requires i < j < n
    ensures Forecast(first, n)[i].date < Forecast(first, n)[j].date
  {
    ForecastStep(first, n, j - 1);
    if i < j - 1 {
      ForecastIncreasing(first, n, i, j - 1);
    }
  }

  /** Two events apart a forecast repeats: same kind, exactly one cycle later. */
  lemma ForecastPeriod(first: Event, n: nat, i: nat)
    requires i + 2 < n
    ensures Forecast(first, n)[i + 2].kind == Forecast(first, n)[i].kind
    ensures Forecast(first, n)[i + 2].date == Forecast(first, n)[i].date + CYCLE_HOURS * MS_PER_HOUR
  {
    ForecastStep(first, n, i);
    ForecastStep(first, n, i + 1);
  }

  /** From an anchor not in the future, the status the clock reads at each
      forecast event is the status that event announces. */
  lemma {:induction false} ForecastMatchesClock(startDate: Instant, now: Instant, n: nat, i: nat)
    requires startDate <= now && i < n
    ensures var e := Forecast(NextEvent(startDate, now), n)[i];
      startDate < e.date && PositionInCycle(startDate, e.date) == PhaseStart(e.kind)
    ensures CurrentStatus(startDate, Forecast(NextEvent(startDate, now), n)[i].date) == Forecast(NextEvent(startDate, now), n)[i].kind
  {
    var events := Forecast(NextEvent(startDate, now), n);
    if i == 0 {
      PositionAtNextEvent(startDate, now);
    } else {
      ForecastMatchesClock(startDate, now, n, i - 1);
      ForecastStep(NextEvent(startDate, now), n, i - 1);
      assert events[i] == Following(events[i - 1]);
      FollowingMatchesClock(startDate, events[i - 1]);
    }
  }

  /** An event that sits at the start of its phase on the clock is followed by
      one that sits at the start of the next phase. */
  lemma FollowingMatchesClock(startDate: Instant, e: Event)
    requires startDate < e.date && PositionInCycle(startDate, e.date) == PhaseStart(e.kind)
    ensures startDate < Following(e).date
    ensures PositionInCycle(startDate, Following(e).date) == PhaseStart(Following(e).kind)
  {
    PositionAfterHours(startDate, e.date, PhaseHours(e.kind));
  }
}
