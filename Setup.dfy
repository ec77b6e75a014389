/** The anchor derivation of the setup wizard: `handleSubmit` in
    src/components/SetupWizard.tsx turns the user's answers into the start date
    of an ON period, at noon. The wizard's state (`powerStatus`, `recentEvent`,
    `customDate`) and the clock reading are parameters; the start date handed to
    `onComplete` is the result. */
module Setup {
  import opened Time
  import opened PowerCycle

  /** When the user says the power last changed: "Today at 12:00 PM",
      "Yesterday at 12:00 PM" or a chosen date. */
  datatype Recency = Today | Yesterday | Custom

  /** A chosen date, or none (the date input is empty). */
  datatype Option<T> = None | Some(value: T)

  /** The anchor `handleSubmit` derives, as one case split over the answers.
      Its day is counted back from today (or from the chosen date), and its
      time of day is always noon. */
  function Anchor(status: Status, recent: Recency, customDate: Option<Instant>, now: Instant): (a: Instant)
    ensures a % MS_PER_DAY == NOON
    ensures recent == Today ==> DayOf(a) == DayOf(now) - (if status == On then 0 else 2)
    ensures recent == Yesterday ==> DayOf(a) == DayOf(now) - (if status == On then 1 else 0)
    ensures recent == Custom && customDate.Some? ==>
      DayOf(a) == DayOf(customDate.value) - (if status == On then 0 else 2)
    ensures recent == Custom && customDate.None? ==> a == SetNoon(now)
    ensures recent != Custom ==> SetNoon(now) - 2 * MS_PER_DAY <= a <= SetNoon(now)
  {
    var today := SetNoon(now);
    match recent
    case Today => if status == On then today else SubDays(today, 2)
    case Yesterday => if status == On then SubDays(today, 1) else today
    case Custom =>
      match customDate
      case Some(d) => if status == On then SetNoon(d) else SubDays(SetNoon(d), 2)
      case None => today
  }

  /** handleSubmit, branch by branch on a local start date. With the custom
      option and no date chosen (the submit button is disabled then) it keeps
      today at noon. */
  method HandleSubmit(powerStatus: Status, recentEvent: Recency, customDate: Option<Instant>, now: Instant)
    returns (startDate: Instant)
    ensures startDate == Anchor(powerStatus, recentEvent, customDate, now)
  {
    startDate := now;
    startDate := SetNoon(startDate);

    if powerStatus == On {
      if recentEvent == Today {
        // already today at noon
      } else if recentEvent == Yesterday {
        startDate := SubDays(startDate, 1);
      }
    } else {
      if recentEvent == Today {
        startDate := SubDays(startDate, 2);
      } else if recentEvent == Yesterday {
        // already today at noon
      }
    }

    if recentEvent == Custom && customDate.Some? {
      startDate := SetNoon(customDate.value);
      if powerStatus == Off {
        startDate := SubDays(startDate, 2);
      }
    }
  }

  /** The chosen date plays no part in the today and yesterday answers, and
      today's date plays none in the custom answer. */
  lemma AnchorInputsUsed(status: Status, recent: Recency, c1: Option<Instant>, c2: Option<Instant>, now1: Instant, now2: Instant)
    ensures recent != Custom ==> Anchor(status, recent, c1, now1) == Anchor(status, recent, c2, now1)
    ensures recent == Custom && c1.Some? ==> Anchor(status, recent, c1, now1) == Anchor(status, recent, c1, now2)
  {
  }

  // ---------------------------------------------------------------------------
  // What the answers mean

  /** The instant the answer names as the last change of status: noon today,
      noon yesterday, or noon of the chosen date; none when no date was chosen. */
  function LastChange(recent: Recency, customDate: Option<Instant>, now: Instant): (c: Option<Instant>)
    ensures c.Some? <==> recent != Custom || customDate.Some?
    ensures c.Some? ==> c.value % MS_PER_DAY == NOON
  {
    match recent
    case Today => Some(SetNoon(now))
    case Yesterday => Some(SubDays(SetNoon(now), 1))
    case Custom => if customDate.Some? then Some(SetNoon(customDate.value)) else None
  }

  /** The report "the power is `status` now, and it last changed at the
      instant `c`" is true at instant `t` when the phase entered at `c` is
      still running at `t`. */
  predicate ReportHolds(status: Status, c: Instant, t: Instant)
  {
    c <= t < c + PhaseHours(status) * MS_PER_HOUR
  }

  /** The anchor the answers call for: the last change itself when the power
      is on, and the ON start 48 hours before it when the power is off. */
  function IntendedAnchor(status: Status, recent: Recency, customDate: Option<Instant>, now: Instant): (a: Option<Instant>)
    ensures a.Some? <==> LastChange(recent, customDate, now).Some?
  {
    match LastChange(recent, customDate, now)
    case Some(c) => Some(if status == On then c else c - ON_HOURS * MS_PER_HOUR)
    case None => None
  }

  /** Corrected derivation: whenever the user's report holds, the clock
      anchored at the intended anchor reads the reported status. */
  lemma IntendedAnchorMatchesReport(status: Status, recent: Recency, customDate: Option<Instant>, now: Instant, t: Instant)
    requires LastChange(recent, customDate, now).Some?
    requires ReportHolds(status, LastChange(recent, customDate, now).value, t)
    ensures IntendedAnchor(status, recent, customDate, now).Some?
    ensures CurrentStatus(IntendedAnchor(status, recent, customDate, now).value, t) == status
  {
    var a := IntendedAnchor(status, recent, customDate, now).value;
    assert 0 <= t - a < CYCLE_HOURS * MS_PER_HOUR;
    StatusByElapsedTime(a, t);
  }

  /** The source's anchor is the intended one in every case but one: with the
      power off since yesterday it is one whole cycle later. */
  lemma AnchorVersusIntended(status: Status, recent: Recency, customDate: Option<Instant>, now: Instant)
    requires LastChange(recent, customDate, now).Some?
    ensures Anchor(status, recent, customDate, now) ==
      IntendedAnchor(status, recent, customDate, now).value
      + (if status == Off && recent == Yesterday then CYCLE_HOURS * MS_PER_HOUR else 0)
  {
  }

  /** Outside the off-since-yesterday case, the source's anchor makes the clock
      read the reported status whenever the report holds. */
  lemma AnchorMatchesReport(status: Status, recent: Recency, customDate: Option<Instant>, now: Instant, t: Instant)
    requires !(status == Off && recent == Yesterday)
    requires LastChange(recent, customDate, now).Some?
    requires ReportHolds(status, LastChange(recent, customDate, now).value, t)
    ensures CurrentStatus(Anchor(status, recent, customDate, now), t) == status
  {
    AnchorVersusIntended(status, recent, customDate, now);
    IntendedAnchorMatchesReport(status, recent, customDate, now, t);
  }

  /** As written, "off, since yesterday" anchors at today noon. The report can
      only hold before today noon, and then that anchor lies in the future, so
      the clock reads ON while the power is off. */
  lemma OffYesterdayReadsOn(customDate: Option<Instant>, now: Instant)
    requires now < SetNoon(now)
    ensures ReportHolds(Off, LastChange(Yesterday, customDate, now).value, now)
    ensures now < Anchor(Off, Yesterday, customDate, now)
    ensures CurrentStatus(Anchor(Off, Yesterday, customDate, now), now) == On
  {
  }

  /** The report "off since yesterday noon" never holds from today noon on, so
      there is no instant at which the source's anchor reads it correctly. */
  lemma OffYesterdayNeverRight(customDate: Option<Instant>, now: Instant, t: Instant)
    requires ReportHolds(Off, LastChange(Yesterday, customDate, now).value, t)
    ensures CurrentStatus(Anchor(Off, Yesterday, customDate, now), t) == On
  {
    assert t < Anchor(Off, Yesterday, customDate, now);
  }

  /** One input that shows it: set up at 09:00 on day 1, after the power went
      off at noon on day 0. */
  lemma OffYesterdayExample()
    ensures Anchor(Off, Yesterday, None, MS_PER_DAY + 9 * MS_PER_HOUR) == MS_PER_DAY + NOON
    ensures CurrentStatus(MS_PER_DAY + NOON, MS_PER_DAY + 9 * MS_PER_HOUR) == On
    ensures IntendedAnchor(Off, Yesterday, None, MS_PER_DAY + 9 * MS_PER_HOUR) == Some(NOON - 2 * MS_PER_DAY)
    ensures CurrentStatus(NOON - 2 * MS_PER_DAY, MS_PER_DAY + 9 * MS_PER_HOUR) == Off
  {
    IntendedAnchorMatchesReport(Off, Yesterday, None, MS_PER_DAY + 9 * MS_PER_HOUR, MS_PER_DAY + 9 * MS_PER_HOUR);
  }

  /** Once the source's off-since-yesterday anchor is reached, it reads the
      same status as the intended one, one cycle earlier. */
  lemma OffYesterdayAgreesLater(customDate: Option<Instant>, now: Instant, t: Instant)
    requires Anchor(Off, Yesterday, customDate, now) <= t
    ensures CurrentStatus(Anchor(Off, Yesterday, customDate, now), t) ==
      CurrentStatus(IntendedAnchor(Off, Yesterday, customDate, now).value, t)
  {
    var i := IntendedAnchor(Off, Yesterday, customDate, now).value;
    var x := t - Anchor(Off, Yesterday, customDate, now);
    PositionPeriodic(i, i + x, 1);
    assert i + x + 1 * CYCLE_HOURS * MS_PER_HOUR == t;
  }
}
