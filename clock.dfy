/** Time of day counted in seconds since midnight, as both scripts compute it. */
module Clock {

  const SECONDS_PER_DAY := 86400

  /** A time of day on a 24-hour clock. */
  predicate ValidTime(hour: int, minute: int, second: int)
  {
    0 <= hour <= 23 && 0 <= minute <= 59 && 0 <= second <= 59
  }

  /** `hour * 3600 + minute * 60 + second`: for a valid time, a second of the day. */
  function DaySeconds(hour: nat, minute: nat, second: nat): (t: nat)
    ensures ValidTime(hour, minute, second) ==> t < SECONDS_PER_DAY
  {
    hour * 3600 + minute * 60 + second
  }

  /** Hour, minute and second of a valid time can be read back from its second of the day. */
  lemma DaySecondsInverse(hour: nat, minute: nat, second: nat)
    requires ValidTime(hour, minute, second)
    ensures var t := DaySeconds(hour, minute, second);
      t / 3600 == hour && t % 3600 / 60 == minute && t % 60 == second
  {
    var t := DaySeconds(hour, minute, second);
    var r := minute * 60 + second;
    assert 0 <= r < 3600 && t == hour * 3600 + r;
    assert t / 3600 == hour && t % 3600 == r;
    assert r / 60 == minute && r % 60 == second;
  }

  /** Every second of the day is reached by exactly one valid time. */
  lemma DaySecondsOnto(t: int)
    requires 0 <= t < SECONDS_PER_DAY
    ensures ValidTime(t / 3600, t % 3600 / 60, t % 60)
    ensures DaySeconds(t / 3600, t % 3600 / 60, t % 60) == t
  {
  }

  lemma MidnightIsZero()
    ensures DaySeconds(0, 0, 0) == 0
  {
  }

  lemma LastSecondOfDay()
    ensures DaySeconds(23, 59, 59) == SECONDS_PER_DAY - 1
  {
  }
}
