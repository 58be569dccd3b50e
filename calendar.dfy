/** Civil dates and instants on one timeline of whole minutes.

    A civil date is its day number, counted from 1970-01-01 (a Thursday). An
    instant is a count of minutes since 1970-01-01T00:00Z. The server's local
    zone is one fixed `offset`: local wall time is UTC plus `offset` minutes. */
module Calendar {

  const MINUTES_PER_DAY := 1440

  /** A TIME column: minutes since local midnight, up to 24:00. */
  type TimeOfDay = t: int | 0 <= t <= MINUTES_PER_DAY

  /** `getUTCDay` of the date at noon UTC: 0 is Sunday, 6 is Saturday. */
  function Weekday(day: int): (w: int)
    ensures 0 <= w < 7
    ensures (day + 4 - w) % 7 == 0
  {
    (day + 4) % 7
  }

  lemma WeekdayOfEpoch()
    ensures Weekday(0) == 4
  {
  }

  /** Consecutive dates walk through the week in order, Saturday wrapping to Sunday. */
  lemma {:induction false} WeekdayNext(day: int)
    ensures Weekday(day + 1) == if Weekday(day) == 6 then 0 else Weekday(day) + 1
  {
    var q := (day + 4) / 7;
    assert day + 4 == 7 * q + Weekday(day);
    if Weekday(day) == 6 {
      assert day + 5 == 7 * (q + 1) + 0;
    } else {
      assert day + 5 == 7 * q + (Weekday(day) + 1);
    }
  }

  /** The instant at which local wall time `t` of date `day` occurs. */
  function LocalInstant(day: int, t: TimeOfDay, offset: int): int
  {
    day * MINUTES_PER_DAY + t - offset
  }

  /** The date of an instant on the UTC calendar. */
  function UtcDate(instant: int): int
  {
    instant / MINUTES_PER_DAY
  }

  /** The date of an instant on the local calendar. */
  function LocalDate(instant: int, offset: int): int
  {
    (instant + offset) / MINUTES_PER_DAY
  }

  /** Every wall time before midnight falls on its own local date. */
  lemma {:induction false} LocalDateOfLocalInstant(day: int, t: TimeOfDay, offset: int, x: int)
    requires LocalInstant(day, t, offset) <= x < LocalInstant(day, MINUTES_PER_DAY, offset)
    ensures LocalDate(x, offset) == day
  {
    var r := x + offset - day * MINUTES_PER_DAY;
    assert 0 <= r < MINUTES_PER_DAY;
    assert x + offset == MINUTES_PER_DAY * day + r;
  }
}
