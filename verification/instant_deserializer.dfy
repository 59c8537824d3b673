/**
 * The Jackson deserializer for instants: the text is parsed with the
 * SimpleDateFormat pattern `dd-MMM-yy hh.mm.ss.SSSSSS a` in Locale.US at the
 * fixed zone GMT-7; a parse failure is logged and yields no instant.
 *
 * The model reads the fixed-width form of that pattern: two-digit day, a
 * US month abbreviation, two-digit year, two-digit 12-hour clock hour,
 * minute and second, six fraction digits and `AM`/`PM`. The fields are then
 * combined the way a lenient Gregorian calendar combines them: a day, hour,
 * minute or second past its usual range counts on into the next unit.
 */
module InstantDeserializer {

  import opened Optional
  import opened Calendar
  import opened FixedZone
  import opened DateText

  /** Length of a `dd-MMM-yy hh.mm.ss.SSSSSS a` timestamp. */
  const TimestampLength: int := 28

  /** The first year read entirely on the Gregorian calendar by java.util.GregorianCalendar. */
  const FirstGregorianYear: int := 1583

  /** The fields of a timestamp as read, before any calendar arithmetic. */
  datatype Fields = Fields(
    day: int, month: int, yy: int,
    hour: int, minute: int, second: int, fraction: int,
    pm: bool)

  /** The shape of `dd-MMM-yy hh.mm.ss.SSSSSS a`, position by position. */
  predicate IsTimestampText(s: string) {
    && |s| == TimestampLength
    && AllDigits(s[0..2]) && s[2] == '-'
    && s[3..6] in MonthAbbreviations && s[6] == '-'
    && AllDigits(s[7..9]) && s[9] == ' '
    && AllDigits(s[10..12]) && s[12] == '.'
    && AllDigits(s[13..15]) && s[15] == '.'
    && AllDigits(s[16..18]) && s[18] == '.'
    && AllDigits(s[19..25]) && s[25] == ' '
    && (s[26..] == "AM" || s[26..] == "PM")
  }

  /** Reads a field of exactly `width` decimal digits starting at `at`. */
  function Number(s: string, at: nat, width: nat): (r: Option<int>)
    ensures r.Some? <==> at + width <= |s| && AllDigits(s[at..at + width])
    ensures r.Some? ==> 0 <= r.value < Pow10(width)
  {
    if at + width <= |s| && AllDigits(s[at..at + width]) then Some(DecimalValue(s[at..at + width]))
    else None
  }

  /** Reads the Locale.US AM/PM marker; true for PM. */
  function Marker(t: string): (r: Option<bool>)
    ensures r.Some? <==> t == "AM" || t == "PM"
    ensures r.Some? ==> (r.value <==> t == "PM")
  {
    if t == "AM" then Some(false) else if t == "PM" then Some(true) else None
  }

  /** Splits a timestamp into its fields; None when the text does not have the pattern's shape. */
  function ParseFields(s: string): (r: Option<Fields>)
    ensures r.Some? <==> IsTimestampText(s)
    ensures r.Some? ==>
      && 0 <= r.value.day < 100 && 0 <= r.value.yy < 100
      && 1 <= r.value.month <= 12 && MonthToken(r.value.month) == s[3..6]
      && 0 <= r.value.hour < 100 && 0 <= r.value.minute < 100 && 0 <= r.value.second < 100
      && 0 <= r.value.fraction < 1_000_000
      && r.value.day == DecimalValue(s[0..2]) && r.value.yy == DecimalValue(s[7..9])
      && r.value.hour == DecimalValue(s[10..12]) && r.value.minute == DecimalValue(s[13..15])
      && r.value.second == DecimalValue(s[16..18]) && r.value.fraction == DecimalValue(s[19..25])
      && (r.value.pm <==> s[26..] == "PM")
  {
    if |s| != TimestampLength then None
    else
      match (Number(s, 0, 2), ParseMonth(s[3..6]), Number(s, 7, 2), Number(s, 10, 2),
             Number(s, 13, 2), Number(s, 16, 2), Number(s, 19, 6), Marker(s[26..]))
      case (Some(day), Some(month), Some(yy), Some(hour), Some(minute), Some(second), Some(fraction), Some(pm)) =>
        if s[2] == '-' && s[6] == '-' && s[9] == ' ' && s[12] == '.' && s[15] == '.' && s[18] == '.' && s[25] == ' '
        then Some(Fields(day, month, yy, hour, minute, second, fraction, pm))
        else None
      case _ => None
  }

  /**
   * SimpleDateFormat's two-digit-year rule: the year is the one in the
   * hundred-year window starting at `pivot` whose last two digits are yy.
   */
  function ResolveYear(yy: int, pivot: int): (year: int)
    requires 0 <= yy < 100
    requires pivot >= FirstGregorianYear
    ensures pivot <= year < pivot + 100
    ensures year % 100 == yy
  {
    var century := pivot / 100 * 100;
    if yy < pivot % 100 then century + 100 + yy else century + yy
  }

  /**
   * The 24-hour clock hour of a 12-hour clock reading: hour 12 counts as 0,
   * and PM adds 12.
   */
  function HourOfDay(hour: int, pm: bool): (h: int)
    ensures 1 <= hour <= 12 ==> h == hour % 12 + (if pm then 12 else 0)
    ensures 1 <= hour <= 12 ==> 0 <= h < 24
    ensures hour == 12 ==> h == (if pm then 12 else 0)
  {
    (if hour == 12 then 0 else hour) + (if pm then 12 else 0)
  }

  /** Milliseconds past local midnight; the fraction field counts milliseconds. */
  function TimeOfDayMillis(f: Fields): (ms: int)
    ensures ms - f.fraction == HourOfDay(f.hour, f.pm) * 3_600_000 + f.minute * 60_000 + f.second * 1000
    ensures 1 <= f.hour <= 12 && 0 <= f.minute < 60 && 0 <= f.second < 60 && 0 <= f.fraction < 1000
            ==> 0 <= ms < MillisPerDay
  {
    ((HourOfDay(f.hour, f.pm) * 60 + f.minute) * 60 + f.second) * 1000 + f.fraction
  }

  /** The date the fields name, read leniently: the day field counts on from the first of the month. */
  function FieldsDate(f: Fields, pivot: int): Date
    requires 0 <= f.yy < 100 && pivot >= FirstGregorianYear
  {
    Date(ResolveYear(f.yy, pivot), f.month, f.day)
  }

  /**
   * `InstantDeserializer.deserialize`: the instant at which GMT-7 wall clocks
   * show the timestamp, or None (the logged failure) when the text does not
   * have the pattern's shape. `pivot` is the first year of the two-digit-year
   * window.
   */
  function Deserialize(text: string, pivot: int): (r: Option<int>)
    requires pivot >= FirstGregorianYear
    ensures r.Some? <==> IsTimestampText(text)
  {
    match ParseFields(text)
    case None => None
    case Some(f) =>
      Some(InstantOfLocal(DaysFromCivil(FieldsDate(f, pivot)) * MillisPerDay + TimeOfDayMillis(f)))
  }

  /** Every field within its clock or calendar range, and the fraction below one second. */
  predicate InRange(f: Fields, pivot: int)
    requires 0 <= f.yy < 100 && pivot >= FirstGregorianYear
  {
    && IsValid(FieldsDate(f, pivot))
    && 1 <= f.hour <= 12 && 0 <= f.minute < 60 && 0 <= f.second < 60
    && 0 <= f.fraction < 1000
  }

  /**
   * A timestamp whose fields are in range decodes to the instant whose GMT-7
   * wall calendar and clock show exactly those fields.
   */
  lemma DeserializeReadsWallClock(text: string, pivot: int)
    requires pivot >= FirstGregorianYear
    requires IsTimestampText(text)
    requires InRange(ParseFields(text).value, pivot)
    ensures LocalDate(Deserialize(text, pivot).value) == FieldsDate(ParseFields(text).value, pivot)
    ensures MillisOfDay(Deserialize(text, pivot).value) == TimeOfDayMillis(ParseFields(text).value)
  {
    var f := ParseFields(text).value;
    var d := FieldsDate(f, pivot);
    var r := Deserialize(text, pivot).value;
    LocalReading(r, d, TimeOfDayMillis(f));
    CivilRoundTrip(d);
  }

  /**
   * The six-digit fraction is added as a count of milliseconds: two
   * timestamps that differ only in their fraction decode that many
   * milliseconds apart (so an all-zero fraction adds nothing).
   */
  lemma DeserializeFractionIsMillis(s: string, t: string, pivot: int)
    requires pivot >= FirstGregorianYear
    requires IsTimestampText(s) && IsTimestampText(t)
    requires s[..19] == t[..19] && s[25..] == t[25..]
    ensures Deserialize(s, pivot).value - Deserialize(t, pivot).value
         == DecimalValue(s[19..25]) - DecimalValue(t[19..25])
  {
    assert s[0..2] == s[..19][0..2] == t[0..2];
    assert s[3..6] == s[..19][3..6] == t[3..6];
    assert s[7..9] == s[..19][7..9] == t[7..9];
    assert s[10..12] == s[..19][10..12] == t[10..12];
    assert s[13..15] == s[..19][13..15] == t[13..15];
    assert s[16..18] == s[..19][16..18] == t[16..18];
    assert s[26..] == s[25..][1..] == t[26..];
    var fs, ft := ParseFields(s).value, ParseFields(t).value;
    MonthTokenRoundTrip(fs.month);
    MonthTokenRoundTrip(ft.month);
    assert fs.(fraction := ft.fraction) == ft;
  }
}
