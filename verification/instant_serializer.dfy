/**
 * The Jackson serializer for instants: the instant is shifted to GMT-7 and its
 * calendar date printed with the java.time pattern `dd-MMM-yy` in Locale.US.
 * The time of day is not printed. The runtime's default zone plays no part.
 *
 * The unit test of this hook compares the output against the pattern
 * `dd-MMM-yyyy` (four-digit year); the hook itself prints a two-digit year,
 * and this model follows the hook.
 */
module InstantSerializer {

  import opened Optional
  import opened Calendar
  import opened FixedZone
  import opened DateText

  /**
   * java.time's pattern letter `y` is the year of era: proleptic year 0 is
   * year 1 BCE, -1 is 2 BCE, and so on; from year 1 on it is the year itself.
   */
  function YearOfEra(year: int): (yoe: int)
    ensures yoe >= 1
    ensures year >= 1 ==> yoe == year
    ensures year <= 0 ==> yoe + year == 1
  {
    if year >= 1 then year else 1 - year
  }

  /** The shape of every `dd-MMM-yy` string the serializer writes. */
  predicate IsDateText(s: string) {
    && |s| == 9
    && AllDigits(s[0..2]) && 1 <= DecimalValue(s[0..2]) <= 31
    && s[2] == '-'
    && s[3..6] in MonthAbbreviations
    && s[6] == '-'
    && AllDigits(s[7..9])
  }

  /**
   * A date printed as `dd-MMM-yy`. The two-digit year is the year of era
   * reduced modulo 100 (java.time's reduced printer with width 2).
   */
  function FormatDate(d: Date): (s: string)
    requires IsValid(d)
    ensures IsDateText(s)
    ensures DecimalValue(s[0..2]) == d.day
    ensures ParseMonth(s[3..6]) == Some(d.month)
    ensures DecimalValue(s[7..9]) == YearOfEra(d.year) % 100
  {
    var dd, mmm, yy := TwoDigits(d.day), MonthToken(d.month), TwoDigits(YearOfEra(d.year) % 100);
    var s := dd + ['-'] + mmm + ['-'] + yy;
    assert s[0..2] == dd;
    assert s[3..6] == mmm;
    assert s[7..9] == yy;
    MonthTokenRoundTrip(d.month);
    s
  }

  /**
   * FormatDate is determined by what its fields read back as: any text whose
   * first nine characters have the `dd-MMM-yy` shape and name d is d's print.
   */
  lemma FormatDateReads(s: string, d: Date)
    requires IsValid(d) && |s| >= 9
    requires AllDigits(s[0..2]) && DecimalValue(s[0..2]) == d.day && s[2] == '-'
    requires s[3..6] == MonthToken(d.month) && s[6] == '-'
    requires AllDigits(s[7..9]) && DecimalValue(s[7..9]) == YearOfEra(d.year) % 100
    ensures FormatDate(d) == s[..9]
  {
    TwoDigitsRoundTrip(s[0..2]);
    TwoDigitsRoundTrip(s[7..9]);
    assert s[..9] == s[0..2] + [s[2]] + s[3..6] + [s[6]] + s[7..9];
  }

  /** `InstantSerializer.serialize`: the GMT-7 calendar date of the instant as `dd-MMM-yy`. */
  function Serialize(instant: int): (out: string)
    ensures IsDateText(out)
  {
    FormatDate(LocalDate(instant))
  }

  /**
   * For every valid date d and every instant inside d's GMT-7 day, the three
   * printed fields read back as d's day, d's month and d's two-digit year.
   */
  lemma SerializePrintsLocalDate(instant: int, d: Date)
    requires IsValid(d)
    requires InstantOfLocal(DaysFromCivil(d) * MillisPerDay) <= instant
    requires instant < InstantOfLocal((DaysFromCivil(d) + 1) * MillisPerDay)
    ensures DecimalValue(Serialize(instant)[0..2]) == d.day
    ensures ParseMonth(Serialize(instant)[3..6]) == Some(d.month)
    ensures DecimalValue(Serialize(instant)[7..9]) == YearOfEra(d.year) % 100
  {
    LocalDateWithinDay(instant, d);
  }

  /** Every instant of one GMT-7 day serializes to the same string. */
  lemma SerializeIgnoresTimeOfDay(a: int, b: int, day: int)
    requires InstantOfLocal(day * MillisPerDay) <= a < InstantOfLocal((day + 1) * MillisPerDay)
    requires InstantOfLocal(day * MillisPerDay) <= b < InstantOfLocal((day + 1) * MillisPerDay)
    ensures Serialize(a) == Serialize(b)
  {
    assert LocalDay(a) == day == LocalDay(b);
  }

  /**
   * One millisecond later the output changes exactly when that millisecond
   * is GMT-7 midnight; so the serializer is not injective.
   */
  lemma SerializeChangesOnlyAtMidnight(instant: int)
    ensures Serialize(instant + 1) != Serialize(instant) <==> MillisOfDay(instant + 1) == 0
  {
    if MillisOfDay(instant + 1) == 0 {
      assert LocalDay(instant + 1) == LocalDay(instant) + 1;
      CivilFromDaysSucc(LocalDay(instant));
      var d := LocalDate(instant);
      assert LocalDate(instant + 1) == NextDate(d);
      assert NextDate(d).day != d.day;
      assert Serialize(instant + 1)[0..2] != Serialize(instant)[0..2];
    } else {
      assert LocalDay(instant + 1) == LocalDay(instant);
    }
  }

  /** Adding one day of milliseconds prints the next calendar date. */
  lemma SerializeNextDay(instant: int)
    ensures Serialize(instant + MillisPerDay) == FormatDate(NextDate(LocalDate(instant)))
  {
    LocalDateNextDay(instant);
  }
}
