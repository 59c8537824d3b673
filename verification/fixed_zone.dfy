/**
 * The fixed zone "GMT-7" that both timestamp hooks name explicitly: local
 * wall-clock time is UTC minus seven hours, all year round, whatever the
 * runtime's default zone is. Instants are milliseconds since 1970-01-01T00:00Z.
 */
module FixedZone {

  import opened Calendar

  const MillisPerDay: int := 86_400_000

  /** The offset of GMT-7 from UTC. */
  const OffsetMillis: int := -25_200_000

  /** Wall-clock milliseconds at GMT-7 (counted from the local epoch midnight). */
  function LocalMillis(instant: int): int {
    instant + OffsetMillis
  }

  /** The instant at which GMT-7 wall clocks show `localMillis`. */
  function InstantOfLocal(localMillis: int): (instant: int)
    ensures LocalMillis(instant) == localMillis
    ensures instant == localMillis + 7 * 3_600_000
  {
    localMillis - OffsetMillis
  }

  /** The GMT-7 epoch day of an instant (floor division: divisor is positive). */
  function LocalDay(instant: int): int {
    LocalMillis(instant) / MillisPerDay
  }

  /** Milliseconds since GMT-7 midnight. */
  function MillisOfDay(instant: int): (ms: int)
    ensures 0 <= ms < MillisPerDay
    ensures LocalDay(instant) * MillisPerDay + ms == LocalMillis(instant)
  {
    LocalMillis(instant) % MillisPerDay
  }

  /** The calendar date a GMT-7 wall calendar shows at `instant`. */
  function LocalDate(instant: int): (d: Date)
    ensures IsValid(d)
    ensures InstantOfLocal(DaysFromCivil(d) * MillisPerDay) <= instant
    ensures instant < InstantOfLocal((DaysFromCivil(d) + 1) * MillisPerDay)
  {
    CivilFromDays(LocalDay(instant))
  }

  /** An instant and its local wall-clock reading determine each other. */
  lemma LocalReading(instant: int, d: Date, ms: int)
    requires 1 <= d.month <= 12
    requires 0 <= ms < MillisPerDay
    requires LocalMillis(instant) == DaysFromCivil(d) * MillisPerDay + ms
    ensures LocalDay(instant) == DaysFromCivil(d)
    ensures MillisOfDay(instant) == ms
  {
  }

  /** A valid date is what the wall calendar shows throughout its GMT-7 day. */
  lemma LocalDateWithinDay(instant: int, d: Date)
    requires IsValid(d)
    requires InstantOfLocal(DaysFromCivil(d) * MillisPerDay) <= instant
    requires instant < InstantOfLocal((DaysFromCivil(d) + 1) * MillisPerDay)
    ensures LocalDate(instant) == d
  {
    LocalReading(instant, d, LocalMillis(instant) - DaysFromCivil(d) * MillisPerDay);
    CivilRoundTrip(d);
  }

  /** Later instants never show an earlier GMT-7 date. */
  lemma LocalDateMonotone(a: int, b: int)
    requires a <= b
    ensures AtOrBefore(LocalDate(a), LocalDate(b))
  {
    assert LocalDay(a) <= LocalDay(b);
    CivilFromDaysMonotone(LocalDay(a), LocalDay(b));
  }

  /** Exactly one day later on the clock is the next calendar date. */
  lemma LocalDateNextDay(instant: int)
    ensures LocalDate(instant + MillisPerDay) == NextDate(LocalDate(instant))
  {
    assert LocalDay(instant + MillisPerDay) == LocalDay(instant) + 1;
    CivilFromDaysSucc(LocalDay(instant));
  }
}
