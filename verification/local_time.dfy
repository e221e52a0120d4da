/**
 * The components' date code with the browser's time zone put back in.
 * `new Date('YYYY-MM-DD')` is midnight UTC of that day, while
 * `new Date(y, m, d)`, `setHours(0, 0, 0, 0)` and `setFullYear` work on the
 * local clock. The rest of the model compares and shifts calendar days
 * directly, which is what the comparisons are meant to do; this module states
 * what they compute instead under a fixed UTC offset.
 */
module LocalTime {
  import opened Calendar

  /** A moment: a UTC calendar day and the minute within it. */
  datatype Instant = Instant(day: Date, minute: int)

  /** `a` comes strictly before `b` on the time line. */
  predicate Earlier(a: Instant, b: Instant) {
    Before(a.day, b.day) || (a.day == b.day && a.minute < b.minute)
  }

  /** A UTC offset in minutes (local time minus UTC) of less than a day either way. */
  predicate Offset(o: int) {
    -1440 < o < 1440
  }

  /** UTC−05:00, the offset of mainland Ecuador, Colombia and Peru. */
  const UtcMinusFive: int := -300

  /** The day before `d`. */
  function PrevDay(d: Date): (r: Date)
    requires Valid(d)
    ensures Valid(r) && Before(r, d)
  {
    if d.day > 1 then Date(d.year, d.month, d.day - 1)
    else if d.month > 1 then Date(d.year, d.month - 1, DaysInMonth(d.year, d.month - 1))
    else Date(d.year - 1, 12, 31)
  }

  /** The day after `d`. */
  function NextDay(d: Date): (r: Date)
    requires Valid(d)
    ensures Valid(r) && Before(d, r)
  {
    if d.day < DaysInMonth(d.year, d.month) then Date(d.year, d.month, d.day + 1)
    else if d.month < 12 then Date(d.year, d.month + 1, 1)
    else Date(d.year + 1, 1, 1)
  }

  /** Stepping back a day and forward again, or forward and back, returns to the start. */
  lemma DayStepsInverse(d: Date)
    requires Valid(d)
    ensures NextDay(PrevDay(d)) == d
    ensures PrevDay(NextDay(d)) == d
  {
  }

  /** No valid day lies strictly between a day and the day before it. */
  lemma PrevDayAdjacent(a: Date, d: Date)
    requires Valid(a) && Valid(d)
    ensures Before(a, d) <==> a == PrevDay(d) || Before(a, PrevDay(d))
  {
  }

  /** The start of local day `today`, as a UTC instant. */
  function LocalMidnight(today: Date, o: int): (r: Instant)
    requires Valid(today) && Offset(o)
    ensures Valid(r.day) && 0 <= r.minute < 1440
    ensures o <= 0 ==> r.day == today
    ensures o > 0 ==> NextDay(r.day) == today
  {
    DayStepsInverse(today);
    if o <= 0 then Instant(today, -o) else Instant(PrevDay(today), 1440 - o)
  }

  /** `new Date(release) < today's local midnight`: the release test as the components write it. */
  predicate ReleaseRejectedAsWritten(release: Date, today: Date, o: int)
    requires Valid(today) && Offset(o)
  {
    Earlier(Instant(release, 0), LocalMidnight(today, o))
  }

  /**
   * East of UTC (or at it) the test rejects exactly the days before today;
   * west of UTC it rejects today as well.
   */
  lemma RejectionAsWritten(release: Date, today: Date, o: int)
    requires Valid(release) && Valid(today) && Offset(o)
    ensures o >= 0 ==> (ReleaseRejectedAsWritten(release, today, o) <==> Before(release, today))
    ensures o < 0 ==> (ReleaseRejectedAsWritten(release, today, o) <==> !Before(today, release))
  {
    if o > 0 {
      PrevDayAdjacent(release, today);
    }
  }

  /** In UTC−05:00 a release dated today is refused although it is not in the past. */
  lemma TodayRejectedWestOfUtc(today: Date)
    requires Valid(today)
    ensures ReleaseRejectedAsWritten(today, today, UtcMinusFive)
    ensures !Before(today, today)
  {
    RejectionAsWritten(today, today, UtcMinusFive);
  }

  /**
   * `new Date(release)`, then `setFullYear(getFullYear() + 1)` on the local
   * clock, read back in UTC. West of UTC, midnight UTC is the evening of the
   * previous local day, so the year is added to that day.
   */
  function RevisionAsWritten(release: Date, o: int): (r: Date)
    requires Valid(release) && Offset(o)
    ensures Valid(r)
  {
    if o < 0 then NextDay(AddOneYear(PrevDay(release))) else AddOneYear(release)
  }

  /**
   * The revision as written is the release plus one year everywhere except,
   * west of UTC, for a release on the 1st of March next to a 29th of February.
   */
  lemma RevisionAsWrittenAgrees(release: Date, o: int)
    requires Valid(release) && Offset(o)
    ensures o >= 0 ==> RevisionAsWritten(release, o) == AddOneYear(release)
    ensures o < 0 ==>
              (RevisionAsWritten(release, o) == AddOneYear(release) <==>
               !(release.month == 3 && release.day == 1 && (IsLeapYear(release.year) || IsLeapYear(release.year + 1))))
  {
  }

  /** Two releases whose revision, in UTC−05:00, is not one year later. */
  lemma LeapDayShiftsRevision()
    ensures RevisionAsWritten(Date(2024, 3, 1), UtcMinusFive) == Date(2025, 3, 2)
    ensures AddOneYear(Date(2024, 3, 1)) == Date(2025, 3, 1)
    ensures RevisionAsWritten(Date(2023, 3, 1), UtcMinusFive) == Date(2024, 2, 29)
    ensures AddOneYear(Date(2023, 3, 1)) == Date(2024, 3, 1)
  {
  }
}
