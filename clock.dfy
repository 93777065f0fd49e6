/**
 * The date gate and the countdown of main.js. Times are milliseconds since
 * the Unix epoch, as `Date.now()` gives them.
 */
module Clock {

  /** main.js `isAfterRestrictionDate()`: the campaign is open from `restrictionDate` on. */
  predicate IsAfterRestrictionDate(now: int, restrictionDate: int) {
    now >= restrictionDate
  }

  /** `targetDate`: 2024-12-07T00:00:00Z. */
  const TargetDate: int := 1733529600000

  const MsPerSecond: int := 1000
  const MsPerMinute: int := 60 * MsPerSecond
  const MsPerHour: int := 60 * MsPerMinute
  const MsPerDay: int := 24 * MsPerHour

  /** The countdown message: already passed, or whole days, hours, minutes and seconds left. */
  datatype Countdown = AlreadyPassed | Left(days: int, hours: int, minutes: int, seconds: int)

  /** The `Math.floor` divisions of `getTimeLeftToTarget` on a difference of `diff` milliseconds. */
  function CountdownOf(diff: int): (c: Countdown)
    ensures c.AlreadyPassed? <==> diff <= 0
    ensures c.Left? ==> 0 <= c.days && 0 <= c.hours < 24 && 0 <= c.minutes < 60 && 0 <= c.seconds < 60
    ensures c.Left? ==> ((c.days * 24 + c.hours) * 60 + c.minutes) * 60 + c.seconds == diff / MsPerSecond
  {
    if diff <= 0 then AlreadyPassed
    else
      var days := diff / MsPerDay;
      var hours := (diff % MsPerDay) / MsPerHour;
      var minutes := (diff % MsPerHour) / MsPerMinute;
      var seconds := (diff % MsPerMinute) / MsPerSecond;
      CountdownRecomposes(diff);
      Left(days, hours, minutes, seconds)
  }

  lemma CountdownRecomposes(diff: int)
    requires diff > 0
    ensures 0 <= (diff % MsPerDay) / MsPerHour < 24
    ensures 0 <= (diff % MsPerHour) / MsPerMinute < 60
    ensures 0 <= (diff % MsPerMinute) / MsPerSecond < 60
    ensures (((diff / MsPerDay) * 24 + (diff % MsPerDay) / MsPerHour) * 60
              + (diff % MsPerHour) / MsPerMinute) * 60
              + (diff % MsPerMinute) / MsPerSecond == diff / MsPerSecond
  {
    var s := diff / 1000;
    var m := s / 60;
    var h := m / 60;
    var d := h / 24;
    // each coarser unit is the quotient of the next finer one
    assert diff / 60000 == m;
    assert diff / 3600000 == h;
    assert diff / 86400000 == d;
    assert (diff % 60000) / 1000 == s % 60;
    assert (diff % 3600000) / 60000 == m % 60;
    assert (diff % 86400000) / 3600000 == h % 24;
  }

  /** `getTimeLeftToTarget()` at time `now`. */
  function GetTimeLeftToTarget(now: int): Countdown {
    CountdownOf(TargetDate - now)
  }
}
