/**
 * lib/time.ts: the "New!" badge rule and the relative time label used by
 * the manga cards. Both take `elapsed`, the milliseconds from the publish
 * time to now; `None` is a missing or empty date string.
 */
module Time {
  import opened Wrappers
  import opened Strings

  const SecondMs: int := 1000
  const MinuteMs: int := 60 * SecondMs
  const HourMs: int := 60 * MinuteMs
  const DayMs: int := 24 * HourMs

  /** `isNewWithin24h(iso)`: strictly less than a day ago. */
  predicate IsNewWithin24h(elapsed: Option<int>) {
    elapsed.Some? && elapsed.value < DayMs
  }

  /** A relative time: the unit and its count. */
  datatype Ago = Dash | Secs(n: int) | Mins(n: int) | Hours(n: int) | Days(n: int)
               | Weeks(n: int) | Months(n: int) | Years(n: int)

  /**
   * `timeAgo(iso)`: each unit is the floor of the previous one divided down,
   * and the first that is small enough is used. Months and years are counted
   * from days, not from weeks.
   */
  function TimeAgo(elapsed: Option<int>): Ago {
    if elapsed.None? then Dash
    else
      var secs := elapsed.value / 1000;    // Math.floor: Dafny's division rounds down for a positive divisor
      if secs < 60 then Secs(secs)
      else
        var mins := secs / 60;
        if mins < 60 then Mins(mins)
        else
          var hours := mins / 60;
          if hours < 24 then Hours(hours)
          else
            var days := hours / 24;
            if days < 7 then Days(days)
            else
              var weeks := days / 7;
              if weeks < 5 then Weeks(weeks)
              else
                var months := days / 30;
                if months < 12 then Months(months)
                else Years(days / 365)
  }

  /**
   * The buckets in terms of the elapsed time itself: each unit covers a
   * half-open range of milliseconds and its count is the elapsed time
   * divided by the unit, rounded down.
   */
  lemma TimeAgoBuckets(e: int)
    ensures e < MinuteMs ==> TimeAgo(Some(e)) == Secs(e / SecondMs)
    ensures MinuteMs <= e < HourMs ==> TimeAgo(Some(e)) == Mins(e / MinuteMs)
    ensures HourMs <= e < DayMs ==> TimeAgo(Some(e)) == Hours(e / HourMs)
    ensures DayMs <= e < 7 * DayMs ==> TimeAgo(Some(e)) == Days(e / DayMs)
    ensures 7 * DayMs <= e < 35 * DayMs ==> TimeAgo(Some(e)) == Weeks(e / (7 * DayMs))
    ensures 35 * DayMs <= e < 360 * DayMs ==> TimeAgo(Some(e)) == Months(e / (30 * DayMs))
    ensures 360 * DayMs <= e ==> TimeAgo(Some(e)) == Years(e / (365 * DayMs))
  {
    var secs := e / 1000;
    var mins := secs / 60;
    var hours := mins / 60;
    var days := hours / 24;
    assert mins == e / MinuteMs;
    assert hours == e / HourMs;
    assert days == e / DayMs;
    assert days / 7 == e / (7 * DayMs);
    assert days / 30 == e / (30 * DayMs);
    assert days / 365 == e / (365 * DayMs);
  }

  /**
   * Months are days/30 and years days/365, so from 360 to 364 days the label
   * is "0y ago".
   */
  lemma ZeroYears(e: int)
    requires 360 * DayMs <= e < 365 * DayMs
    ensures TimeAgo(Some(e)) == Years(0)
  {
    TimeAgoBuckets(e);
  }

  /** The badge and the label agree: "New!" exactly for the seconds, minutes and hours buckets. */
  lemma NewMatchesBuckets(elapsed: Option<int>)
    ensures IsNewWithin24h(elapsed) <==> TimeAgo(elapsed).Secs? || TimeAgo(elapsed).Mins? || TimeAgo(elapsed).Hours?
  {
    if elapsed.Some? {
      TimeAgoBuckets(elapsed.value);
    }
  }

  /** The text of a label, as the template literals print it. */
  function AgoText(a: Ago): string {
    match a
    case Dash => "-"
    case Secs(n) => IntToString(n) + "s ago"
    case Mins(n) => IntToString(n) + "m ago"
    case Hours(n) => IntToString(n) + "h ago"
    case Days(n) => IntToString(n) + "d ago"
    case Weeks(n) => IntToString(n) + "w ago"
    case Months(n) => IntToString(n) + "mo ago"
    case Years(n) => IntToString(n) + "y ago"
  }
}
