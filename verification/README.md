# Timestamp codec of the SCSS court-service adapter

The adapter translates court-service operations into calls on a backend REST
API. Instants in the backend's JSON are written and read by a pair of Jackson
hooks with a fixed, non-ISO wire format:

- **InstantSerializer** writes an instant as its calendar date at the fixed
  zone GMT-7 (UTC minus seven hours), with the pattern `dd-MMM-yy` and US
  English month abbreviations (`07-Mar-24`). The time of day is dropped.
- **InstantDeserializer** reads `dd-MMM-yy hh.mm.ss.SSSSSS a`
  (`01-Jan-24 01.02.03.000000 PM`) in Locale.US at GMT-7 and returns the
  instant. On a parse failure it logs the text and returns `null`; it does
  not throw.

The two directions are deliberately asymmetric: what the serializer writes,
the deserializer refuses.

The model is pure functions, as the hooks are:

| file | module | contents |
|---|---|---|
| `optional.dfy` | `Optional` | `Option`, which stands for Java's `null` result |
| `calendar.dfy` | `Calendar` | proleptic Gregorian dates ↔ epoch days, next date, order |
| `fixed_zone.dfy` | `FixedZone` | GMT-7 wall clock: local day, time of day, local date of an instant |
| `date_text.dfy` | `DateText` | US month abbreviations, fixed-width decimal fields |
| `instant_serializer.dfy` | `InstantSerializer` | `Serialize` and its properties |
| `instant_deserializer.dfy` | `InstantDeserializer` | `Deserialize` and its properties |
| `codec_properties.dfy` | `CodecProperties` | how the two hooks relate |

An instant is an `int` of milliseconds since 1970-01-01T00:00Z. The
deserializer's century window depends on the wall clock when the formatter
is created (it starts 80 years before "now"). The model takes it as a
parameter `pivot`, the first year of the window.

The unit test at `src/test/java/ca/bc/gov/open/Scss/CourtControllerTests.java:130-137`
compares the serializer's output against the four-digit-year pattern
`dd-MMM-yyyy`. The code at
`InstantSerializer.java:17` prints `dd-MMM-yy`, a two-digit year, and the
model follows the code.

## Model

| member | source | states |
|---|---|---|
| `Calendar.CivilFromDays` | src/main/java/ca/bc/gov/open/Scss/Models/Serializers/InstantSerializer.java:18-20 | the date of an epoch day is a valid calendar date whose epoch day is that day |
| `Calendar.CivilRoundTrip` | src/main/java/ca/bc/gov/open/Scss/Models/Serializers/InstantSerializer.java:18-20 | every valid date is the date of its own epoch day, so dates and epoch days correspond one to one |
| `Calendar.DaysFromCivilInjective` | src/main/java/ca/bc/gov/open/Scss/Models/Serializers/InstantSerializer.java:18-20 | distinct valid dates fall on distinct days |
| `Calendar.BeforeMeansEarlierDay` | src/main/java/ca/bc/gov/open/Scss/Models/Serializers/InstantSerializer.java:18-20 | on valid dates, one date is before another in (year, month, day) order exactly when its epoch day is smaller |
| `Calendar.EpochDay` | src/main/java/ca/bc/gov/open/Scss/Models/Serializers/InstantDeserializer.java:23-24 | epoch day 0 is 1970-01-01, in both directions of the date/day conversion |
| `Calendar.DaysFromCivilDayStep` | src/main/java/ca/bc/gov/open/Scss/Models/Serializers/InstantDeserializer.java:22-23 | the lenient day field: one more day field is one more epoch day, in range or not; day 0 is the previous month's last day (31 December of the previous year in January), and the day after a month's last is the next month's first (1 January of the next year after 31 December) |
| `Calendar.CivilFromDaysMonotone` | src/main/java/ca/bc/gov/open/Scss/Models/Serializers/InstantSerializer.java:18-20 | a later day never has an earlier date |
| `Calendar.NextDate` | src/main/java/ca/bc/gov/open/Scss/Models/Serializers/InstantSerializer.java:17-20 | the next date, rolling over month and year ends, is valid, later, and exactly one day on |
| `Calendar.CivilFromDaysSucc` | src/main/java/ca/bc/gov/open/Scss/Models/Serializers/InstantSerializer.java:17-20 | the date of day n+1 is the next date after the date of day n |
| `Calendar.YearStep` | src/main/java/ca/bc/gov/open/Scss/Models/Serializers/InstantSerializer.java:18-20 | consecutive years start 365 or 366 days apart, by the Gregorian leap rule |
| `Calendar.YearCycles` | src/main/java/ca/bc/gov/open/Scss/Models/Serializers/InstantSerializer.java:18-20 | every 400 years hold exactly 146097 days |
| `FixedZone.InstantOfLocal` | src/main/java/ca/bc/gov/open/Scss/Models/Serializers/InstantDeserializer.java:22-24 | the UTC instant of a GMT-7 wall-clock reading is that reading plus seven hours, and shows that reading |
| `FixedZone.MillisOfDay` | src/main/java/ca/bc/gov/open/Scss/Models/Serializers/InstantSerializer.java:18 | local time of day lies in one day, and local day plus time of day is the GMT-7 wall clock |
| `FixedZone.LocalDate` | src/main/java/ca/bc/gov/open/Scss/Models/Serializers/InstantSerializer.java:18 | the GMT-7 date of an instant is valid, and the instant lies between that date's local midnight and the next |
| `FixedZone.LocalReading` | src/main/java/ca/bc/gov/open/Scss/Models/Serializers/InstantDeserializer.java:22-24 | a wall-clock reading of a day and a time of day below one day fixes the instant's local day and time of day |
| `FixedZone.LocalDateWithinDay` | src/main/java/ca/bc/gov/open/Scss/Models/Serializers/InstantSerializer.java:18 | every instant within a date's GMT-7 day shows that date |
| `FixedZone.LocalDateMonotone` | src/main/java/ca/bc/gov/open/Scss/Models/Serializers/InstantSerializer.java:18-20 | if a ≤ b then the GMT-7 date of a is at or before that of b |
| `FixedZone.LocalDateNextDay` | src/main/java/ca/bc/gov/open/Scss/Models/Serializers/InstantSerializer.java:17-20 | 86 400 000 ms later the GMT-7 date is the next date |
| `DateText.MonthToken` | src/main/java/ca/bc/gov/open/Scss/Models/Serializers/InstantSerializer.java:19 | a month's token is a three-letter entry of the US table |
| `DateText.ParseMonth` | src/main/java/ca/bc/gov/open/Scss/Models/Serializers/InstantDeserializer.java:21 | a token is accepted exactly when it is one of `Jan`…`Dec`, and then names the month whose token it is |
| `DateText.MonthTokenRoundTrip` | src/main/java/ca/bc/gov/open/Scss/Models/Serializers/InstantSerializer.java:19 | every month's token reads back as that month |
| `DateText.DecimalValue` | src/main/java/ca/bc/gov/open/Scss/Models/Serializers/InstantDeserializer.java:21 | a field of n digits spells a number below 10^n |
| `DateText.TwoDigits` | src/main/java/ca/bc/gov/open/Scss/Models/Serializers/InstantSerializer.java:17 | a number below 100 prints as two digits that read back as the number |
| `DateText.TwoDigitsRoundTrip` | src/main/java/ca/bc/gov/open/Scss/Models/Serializers/InstantSerializer.java:17 | every two-digit field is the zero-padded print of its value |
| `InstantSerializer.YearOfEra` | src/main/java/ca/bc/gov/open/Scss/Models/Serializers/InstantSerializer.java:17 | pattern letter `y` counts years of era: positive, the year itself from year 1 on, 1 − year before |
| `InstantSerializer.FormatDate` | src/main/java/ca/bc/gov/open/Scss/Models/Serializers/InstantSerializer.java:17-19 | `dd-MMM-yy` shape; the day field reads back as the day, the token as the month, the year field as year of era mod 100 |
| `InstantSerializer.FormatDateReads` | src/main/java/ca/bc/gov/open/Scss/Models/Serializers/InstantSerializer.java:17-19 | any `dd-MMM-yy` text whose fields name a date is that date's print |
| `InstantSerializer.Serialize` | src/main/java/ca/bc/gov/open/Scss/Models/Serializers/InstantSerializer.java:14-22 | the output has the `dd-MMM-yy` shape: length 9, day 01–31, `-`, a US month token, `-`, two digits |
| `InstantSerializer.SerializePrintsLocalDate` | src/main/java/ca/bc/gov/open/Scss/Models/Serializers/InstantSerializer.java:16-20 | for any instant inside a date's GMT-7 day, the printed fields are that date's day, month and two-digit year |
| `InstantSerializer.SerializeIgnoresTimeOfDay` | src/main/java/ca/bc/gov/open/Scss/Models/Serializers/InstantSerializer.java:17 | all instants of one GMT-7 day give the same string |
| `InstantSerializer.SerializeChangesOnlyAtMidnight` | src/main/java/ca/bc/gov/open/Scss/Models/Serializers/InstantSerializer.java:17-20 | the output changes from one millisecond to the next exactly at GMT-7 midnight, so encoding is not injective |
| `InstantSerializer.SerializeNextDay` | src/main/java/ca/bc/gov/open/Scss/Models/Serializers/InstantSerializer.java:17-20 | adding 86 400 000 ms prints the next date, with month and year rollover |
| `InstantDeserializer.Marker` | src/main/java/ca/bc/gov/open/Scss/Models/Serializers/InstantDeserializer.java:21 | only `AM` and `PM` are accepted, `PM` meaning afternoon |
| `InstantDeserializer.ParseFields` | src/main/java/ca/bc/gov/open/Scss/Models/Serializers/InstantDeserializer.java:21-23 | fields are read exactly when the text has the pattern's shape, each field being the value of its own columns |
| `InstantDeserializer.ResolveYear` | src/main/java/ca/bc/gov/open/Scss/Models/Serializers/InstantDeserializer.java:21 | the year is congruent to `yy` mod 100 and lies in the hundred-year window starting at the pivot |
| `InstantDeserializer.HourOfDay` | src/main/java/ca/bc/gov/open/Scss/Models/Serializers/InstantDeserializer.java:21 | for hours 1–12 the hour of day is hour mod 12, plus 12 for PM; `12 AM` is 0 and `12 PM` is 12 |
| `InstantDeserializer.TimeOfDayMillis` | src/main/java/ca/bc/gov/open/Scss/Models/Serializers/InstantDeserializer.java:21-23 | local time of day is hour of day × 3 600 000 + minutes × 60 000 + seconds × 1000 + the fraction as milliseconds, and lies within one day when the clock fields are in range |
| `InstantDeserializer.Deserialize` | src/main/java/ca/bc/gov/open/Scss/Models/Serializers/InstantDeserializer.java:18-29 | a result exactly when the text has the pattern's shape; otherwise None, the logged failure, never an error |
| `InstantDeserializer.DeserializeReadsWallClock` | src/main/java/ca/bc/gov/open/Scss/Models/Serializers/InstantDeserializer.java:21-24 | with fields in range, the GMT-7 date of the result is the text's date (year from the window) and its local time of day is the text's clock reading |
| `InstantDeserializer.DeserializeFractionIsMillis` | src/main/java/ca/bc/gov/open/Scss/Models/Serializers/InstantDeserializer.java:21-24 | texts differing only in the fraction decode as many milliseconds apart as their fractions differ; an all-zero fraction adds nothing |
| `CodecProperties.DeserializeRejectsSerialized` | src/main/java/ca/bc/gov/open/Scss/Models/Serializers/InstantDeserializer.java:21-28 | decoding the serializer's output always gives None |
| `CodecProperties.SerializeRecoversDatePrefix` | src/main/java/ca/bc/gov/open/Scss/Models/Serializers/InstantDeserializer.java:21-24 | serializing a decoded in-range timestamp gives back its first nine characters `dd-MMM-yy` |

## Left out

- The court operation adapter (`CourtController`), the outbound REST client and their handling of missing appearance dates: `CourtController` is not part of this model; its source is not in the repository. Its tests check that mocked responses are passed through, and at `src/test/java/ca/bc/gov/open/Scss/CourtControllerTests.java:339-395` they expect `BadDateException` for a null appearance date, a rule of the controller that cannot be checked against any code.
- `TestController` and `HttpTraceConfiguration`: web endpoints that delegate to unseen services, and bean wiring.
- Jackson parser and generator plumbing and the `log.error` call: input and output are plain strings, and the logged failure is `None`.
- InstantDeserializer.Deserialize: returns None for texts outside the fixed-width 28-character shape, some of which SimpleDateFormat's lenient parser still turns into an instant. Examples: spaces or tabs before any field (a leading space, two spaces before the hour, `01- Jan-24 …`), numbers of other widths, signed numbers or non-ASCII digits, full month names, month names or `AM`/`PM` in another letter case, and trailing text after the marker. Within the fixed-width shape, out-of-range fields roll over as the lenient calendar rolls them.
- InstantDeserializer.HourOfDay: an hour field of `00` or `13`–`99` is kept as read (only `12` becomes 0). This is the lenient parser's behaviour; the "hour mod 12" reading holds for 1–12 only.
- InstantDeserializer.ResolveYear: the window is given by its first year. The library's window starts at an instant 80 years before the formatter was created. A `yy` equal to that year's last two digits is moved a century later when the parsed time falls before that instant; this is not modelled.
- InstantDeserializer.Deserialize: requires a pivot of 1583 or later. Before the 1582 Gregorian cutover, java.util.GregorianCalendar switches to the Julian calendar, which is not modelled.
- Instant range and precision: instants are unbounded integers of milliseconds. The bounds of `java.time.Instant` and `java.util.Date` and the sub-millisecond part of an `Instant` are not modelled. The serializer prints only the date, so sub-millisecond parts cannot change its output.
