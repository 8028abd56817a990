# PersianDate in Dafny

A model of `PersianDate`. It is an immutable Persian (Solar Hijri) date value: a year, a month and a day, plus the Gregorian date they convert to, cached once at construction. The model covers these parts of the class:

- the `Month` enum: its numbers, its day counts and the `Month.of` lookup;
- the static leap-year rule `((25 * year) + 11) % 33 < 8`, evaluated in Java `int` arithmetic;
- the validation in the private constructor, and the two `of` factories;
- `compareTo`, `isEqual`, `isBefore`, `isAfter` and `equals`, all of which compare the cached Gregorian dates;
- `hashCode` and `toString`, which work on the Persian triple.

Files:

- `java_int.dfy` (`JavaInt`): the Java `int` range, two's-complement wrap-around and the truncating `%` operator.
- `wrappers.dfy` (`Wrappers`): `Option`, and `Result`, whose `Failure` stands for a thrown exception.
- `local_dates.dfy` (`LocalDates`): the cached `LocalDate`, kept as an opaque (year, month, day) triple that `compareTo` orders lexicographically.
- `formatting.dfy` (`Formatting`): `String.format`'s `%0<width>d`, and the decimal reading that inverts it.
- `persian_date.dfy` (`PersianDates`): the class itself. `PersianDate` is a datatype, because no field changes after construction. The private helper `isBetween` is the predicate `IsBetween`, which `OfMonth` uses for each range check exactly where the constructor does.

The foreign calendar conversion is modelled as a parameter. The factories take a `Converter`, a function from (year, month number, day) to `LocalDate` that stands for the library's conversion, and store its result. The properties of ordering and equality over the cached dates therefore hold for any conversion. Three lemmas relate the order to the Persian triple, and each states what it needs of the conversion as a `requires`. `EqualsMatchesHash` needs it to be one-to-one (`InjectiveOnDates`). `ComparisonsFollowPersianOrder` and `ComparisonExample` need it to keep the calendar's order (`MonotoneOnDates`). Both assumptions cover only calendar dates (`CalendarDate`): triples that validation accepts, with a positive day and a year up to 85,899,345. A lenient conversion cannot meet them on every accepted triple. It maps day 0 of a month to the last day of the month before. Above 85,899,345 validation accepts day 30 of Esfand in years that the 33-year calendar does not count as leap, and such a conversion maps that day to 1 Farvardin of the next year.

The model follows the code where it departs from the class's documentation comments, or behaves in ways worth naming:

- **Days at or below 29 are not checked.** The comments describe the day as running "from 1 to 31", but the code checks it only when it is above 29. Day 0 and negative days therefore pass validation (`DaysUpTo29Pass`).
- **Year 0 is accepted.** The comments give the year as "from 1 to MAX_YEAR", but the code accepts year 0.
- **`equals` uses the Gregorian dates, `hashCode` the Persian fields.** `equals` tests `compareTo(other) == 0`, i.e. equality of the cached Gregorian dates. `hashCode` and `toString` use the Persian fields.
- **The numeric factory checks the month first.** It resolves the month number with `Month.of` before the constructor runs. A bad month number therefore throws `IllegalArgumentException` before the year is looked at (`Of`). Inside the constructor the year is checked first (`YearCheckedFirst`).
- **The leap test overflows above 85,899,345.** `25 * year` overflows an `int` there, although the constructor accepts years up to 999,999,999. `LeapRuleOverflows` shows a year past that bound that Java reports as leap while the 33-year rule does not.
- **`toString` is not always ten characters.** The comments describe the string as ten characters `XXXX-YY-ZZ`, but the constructor accepts years up to 999,999,999. `%04d` then writes every digit, so year 10,000 gives an 11-character string (`ToStringFiveDigitYear`).
- **A null month throws `NullPointerException`, and the month-range check is dead.** The null check comes from `Objects.requireNonNull`. The check that the month number is in 1..12 can never fail for an enum constant; `OfMonth` proves that its error never arises.

## Model

| member | source | states |
|---|---|---|
| `PersianDates.Month.Number` | src/main/java/com/mahmoud/PersianDate.java:94-99 | A month's number lies in 1..12. |
| `PersianDates.Month.Days` | src/main/java/com/mahmoud/PersianDate.java:101-106 | A month's non-leap length lies in 29..31. |
| `PersianDates.Month.Values` | src/main/java/com/mahmoud/PersianDate.java:71-82 | `values()` lists 12 constants, and the i-th of them (from 0) has number i + 1. |
| `PersianDates.Month.Lookup` | src/main/java/com/mahmoud/PersianDate.java:122-129 | `Month.of(n)` yields a month exactly when 1 <= n <= 12, and that month's number is n. Otherwise it throws `IllegalArgumentException` carrying n. |
| `PersianDates.Month.Of` | src/main/java/com/mahmoud/PersianDate.java:122-129 | The linear search over `values()` returns exactly what `Lookup` specifies: the month numbered n, or the exception. |
| `PersianDates.MonthTable` | src/main/java/com/mahmoud/PersianDate.java:71-82 | `values()` has 12 entries, numbered 1..12 in order, and every month is among them. Months 1-6 have 31 days, months 7-11 have 30, and month 12 has 29. |
| `PersianDates.MonthNumbersUnique` | src/main/java/com/mahmoud/PersianDate.java:71-82 | Two months have the same number exactly when they are the same month. |
| `PersianDates.LeapRule` | src/main/java/com/mahmoud/PersianDate.java:282 | Java's `int` expression `((25*y) + 11) % 33 < 8`, with wrap-around and truncating `%`. For 0 <= y <= 85,899,345 it equals `(25*y + 11) mod 33 < 8` computed on unbounded integers. |
| `PersianDates.IsLeapYear` | src/main/java/com/mahmoud/PersianDate.java:278-283 | The static leap test throws (negative-year error) exactly when the year is negative. Otherwise it returns `LeapRule` of the year, and for years up to 85,899,345 that is the 33-year rule on unbounded integers. |
| `PersianDates.LeapRuleOverflows` | src/main/java/com/mahmoud/PersianDate.java:282 | For year 85,899,346 the Java result is "leap", while the 33-year rule says it is not. |
| `PersianDates.CycleLeapPeriodic` | src/main/java/com/mahmoud/PersianDate.java:282 | The 33-year rule has period 33. |
| `PersianDates.LeapYearPeriodic` | src/main/java/com/mahmoud/PersianDate.java:278-283 | `isLeapYear(y + 33) == isLeapYear(y)` while no overflow occurs. |
| `PersianDates.LeapYearSamples` | src/main/java/com/mahmoud/PersianDate.java:278-283 | 1395, 1399 and 1403 are leap years; 1396 and 1400 are not; -1 throws. |
| `PersianDates.LeapCountStep` | src/main/java/com/mahmoud/PersianDate.java:282 | Year m is leap exactly when `(8n + 21) / 33` increases from n = m to n = m + 1. |
| `PersianDates.LeapYearsBelow` | src/main/java/com/mahmoud/PersianDate.java:282 | Years 0..n-1 contain `(8n + 21) / 33` leap years (for n <= 85,899,346). |
| `PersianDates.EightLeapYearsPer33` | src/main/java/com/mahmoud/PersianDate.java:282 | Any 33 consecutive non-negative years up to 85,899,345 contain exactly 8 leap years. |
| `PersianDates.IsBetween` | src/main/java/com/mahmoud/PersianDate.java:226-228 | True exactly when the value lies in the closed interval [lowerLimit, upperLimit]. |
| `PersianDates.OfMonth` | src/main/java/com/mahmoud/PersianDate.java:179-199 | Construction succeeds exactly when the year is in [0, 999,999,999], the month is given, and the day is accepted. Each failure names its cause: year out of range (exactly when the year is outside the interval), null month, `ESFAND 30` in a non-leap year, and an invalid date otherwise. The month-range error never occurs. A date that is built stores the triple and its conversion, and satisfies `Valid`. |
| `PersianDates.Of` | src/main/java/com/mahmoud/PersianDate.java:153-155 | A month number outside 1..12 throws the `Month.of` exception, whatever the year and day. Otherwise the result is `OfMonth` with the month of that number. |
| `PersianDates.YearCheckedFirst` | src/main/java/com/mahmoud/PersianDate.java:181-183 | A year outside [0, 999,999,999] gives the year error, even when the month is null or the day is bad. |
| `PersianDates.DaysUpTo29Pass` | src/main/java/com/mahmoud/PersianDate.java:190 | With a valid year and a month, every day <= 29 is accepted, including 0 and negative days. |
| `PersianDates.DayThirty` | src/main/java/com/mahmoud/PersianDate.java:190-197 | Day 30 is accepted in months 1-11. In Esfand it is accepted exactly in leap years; in any other year it raises the `NotLeapYear` error. |
| `PersianDates.DayThirtyOne` | src/main/java/com/mahmoud/PersianDate.java:190-197 | Day 31 is accepted exactly in months 1-6. In the other months it raises the generic invalid-date error. |
| `PersianDates.DaysAbove31Rejected` | src/main/java/com/mahmoud/PersianDate.java:190-197 | Any day >= 32 raises the generic invalid-date error, with the month and day, in every month. |
| `PersianDates.AcceptedDaysFollowMonthLength` | src/main/java/com/mahmoud/PersianDate.java:190-192 | Above 29, a day is accepted exactly when it is at most the month's length. The length is the table's count, or 30 for Esfand in a leap year. |
| `PersianDates.PersianDate.IsLeap` | src/main/java/com/mahmoud/PersianDate.java:268-270 | The instance `isLeapYear()` never throws for a non-negative year, and returns the leap test of the year. |
| `PersianDates.PersianDate.CompareTo` | src/main/java/com/mahmoud/PersianDate.java:295-298 | A null argument throws. Otherwise the result is negative, zero or positive exactly when this date's Gregorian date is earlier than, the same as, or later than the other's. |
| `PersianDates.PersianDate.IsEqual` | src/main/java/com/mahmoud/PersianDate.java:306-308 | A null argument throws. Otherwise the result is true exactly when the two Gregorian dates are the same. |
| `PersianDates.PersianDate.IsBefore` | src/main/java/com/mahmoud/PersianDate.java:323-325 | A null argument throws. Otherwise the result is true exactly when this Gregorian date is the earlier one. |
| `PersianDates.PersianDate.IsAfter` | src/main/java/com/mahmoud/PersianDate.java:340-342 | A null argument throws. Otherwise the result is true exactly when this Gregorian date is the later one. |
| `PersianDates.PersianDate.Equals` | src/main/java/com/mahmoud/PersianDate.java:354-362 | The result is false for null and for other classes. For a Persian date it is true exactly when the Gregorian dates are the same. |
| `PersianDates.PersianDate.HashCode` | src/main/java/com/mahmoud/PersianDate.java:370-376 | The step-by-step `int` accumulation gives `31*(31*(31*17 + year) + month) + day` wrapped once to 32 bits. |
| `PersianDates.OrderTrichotomy` | src/main/java/com/mahmoud/PersianDate.java:306-342 | For any two dates, exactly one of `isBefore`, `isEqual` and `isAfter` is true. |
| `PersianDates.OrderIrreflexive` | src/main/java/com/mahmoud/PersianDate.java:323-342 | `a.isBefore(a)` and `a.isAfter(a)` are false, and `a.isEqual(a)` is true. |
| `PersianDates.BeforeIffAfter` | src/main/java/com/mahmoud/PersianDate.java:323-342 | `a.isBefore(b) == b.isAfter(a)`. |
| `PersianDates.ComparisonsFollowPersianOrder` | src/main/java/com/mahmoud/PersianDate.java:286-342 | "Newer persian date is considered greater": for two calendar dates and a conversion that keeps the calendar's order, `isBefore`, `isAfter` and `isEqual` give the lexicographic order and the equality of the Persian triples. |
| `PersianDates.ComparisonExample` | src/main/java/com/mahmoud/PersianDate.java:311-342 | The documentation's example under such a conversion: `of(1396, 3, 15)` and `of(1396, 6, 10)` are built. `a.isBefore(b)` and `b.isAfter(a)` are true. `a.isBefore(a)`, `b.isBefore(a)`, `a.isAfter(b)` and `a.isAfter(a)` are false. |
| `PersianDates.BeforeTransitive` | src/main/java/com/mahmoud/PersianDate.java:323-325 | `isBefore` is transitive. |
| `PersianDates.NullComparisonsThrow` | src/main/java/com/mahmoud/PersianDate.java:295-298 | `compareTo`, `isEqual`, `isBefore` and `isAfter` all throw on null. |
| `PersianDates.EqualsIsEquivalence` | src/main/java/com/mahmoud/PersianDate.java:354-362 | `equals` is reflexive, symmetric and transitive, and false for null and for other classes. It agrees with `compareTo == 0` and with `isEqual`. |
| `PersianDates.EqualsMatchesHash` | src/main/java/com/mahmoud/PersianDate.java:354-376 | For two valid dates with positive days and years up to 85,899,345, and a conversion that is one-to-one on such dates: `equals` holds exactly when the Persian triples match, and equal dates have equal hashes. |
| `PersianDates.HashIgnoresGregorian` | src/main/java/com/mahmoud/PersianDate.java:370-376 | The hash depends only on the Persian triple. |
| `PersianDates.HashWithoutOverflow` | src/main/java/com/mahmoud/PersianDate.java:370-376 | For years up to 2,000,000 and days 0..31, the hash is exactly `506447 + 961*year + 31*month + day`. |
| `PersianDates.PersianDate.ToString` | src/main/java/com/mahmoud/PersianDate.java:390-392 | `toString` is at least 10 characters long, since each field is padded to its width. It starts with a minus sign exactly when the year is negative. |
| `PersianDates.ToStringLayout` | src/main/java/com/mahmoud/PersianDate.java:390-392 | For years 0..9999 and days 0..99, `toString` is 10 characters `YYYY-MM-DD`, and its numerals read back as the year, the month number and the day. |
| `PersianDates.ToStringDeterminesTriple` | src/main/java/com/mahmoud/PersianDate.java:390-392 | In that range, equal strings mean equal Persian triples. |
| `PersianDates.ToStringFiveDigitYear` | src/main/java/com/mahmoud/PersianDate.java:380-392 | (10000, FARVARDIN, 1) is accepted, and its string is 11 characters long, not the ten the comment promises. |
| `PersianDates.ToStringPadsWithZeros` | src/main/java/com/mahmoud/PersianDate.java:390-392 | (5, FARVARDIN, 1) is written `"0005-01-01"`. |
| `PersianDates.ToStringNegativeDay` | src/main/java/com/mahmoud/PersianDate.java:390-392 | In the model, which does not normalise, a negative day that validation lets through keeps its sign: day -5 is written `-5`. |
| `LocalDates.Compare` | src/main/java/com/mahmoud/PersianDate.java:297 | The cached dates' `compareTo` is negative, zero or positive exactly for an earlier, the same or a later triple in lexicographic order. |
| `LocalDates.BeforeIsStrictTotalOrder` | src/main/java/com/mahmoud/PersianDate.java:297 | The lexicographic order on Gregorian triples is irreflexive, asymmetric, transitive and total. |
| `LocalDates.CompareAntisymmetric` | src/main/java/com/mahmoud/PersianDate.java:297 | Swapping the arguments of `compareTo` flips the sign of the result. |
| `Formatting.DigitsRoundTrip` | src/main/java/com/mahmoud/PersianDate.java:391 | A decimal numeral is all digits, reads back as its value, and has no leading zero unless it is "0". |
| `Formatting.DigitsLength` | src/main/java/com/mahmoud/PersianDate.java:391 | A numeral has at most k digits exactly when the value is below 10^k. |
| `Formatting.PaddedRoundTrip` | src/main/java/com/mahmoud/PersianDate.java:391 | A numeral padded with leading zeros is all digits, is as long as the larger of the width and the numeral, and reads back as the value. |
| `Formatting.ZeroPadded` | src/main/java/com/mahmoud/PersianDate.java:391 | `%0wd` gives at least w characters, and at least one. The first is a minus sign exactly when the value is negative, and every later character is a digit. |
| `Formatting.ZeroPaddedNonNegative` | src/main/java/com/mahmoud/PersianDate.java:391 | `%0wd` of a value n >= 0 is all digits, has length max(w, numeral length), and reads back as n. |
| `Formatting.ZeroPaddedNegative` | src/main/java/com/mahmoud/PersianDate.java:391 | `%0wd` of a negative value starts with `-`, and the zeros come after the sign. The digits read back as the magnitude. |
| `Formatting.ZeroPaddedExactWidth` | src/main/java/com/mahmoud/PersianDate.java:391 | A value below 10^w fills exactly w characters. |
| `JavaInt.WrapMulAdd` | src/main/java/com/mahmoud/PersianDate.java:372-374 | Wrapping the accumulator at every step of `factor * acc + c` gives the same `int` as wrapping once at the end. |

## Left out

- The library conversion between the two calendars (PersianDate.java:202-213) is not modelled. The factories take it as a `Converter` argument and store its result. Nothing is claimed about fixed dates or round trips.
- The conversion is assumed to be total. Any exception the calendar library or `LocalDate.of` might throw, e.g. for Gregorian years past `LocalDate`'s range, is not modelled.
- `gregorianToPersian` (PersianDate.java:247-261) is left out, because it is the same calendar library run in the other direction. `toGregorian()` is the `gregDate` field.
- `now()` (PersianDate.java:137-139) is left out, because it reads the system clock.
- The calendar library's lenient normalisation of out-of-range fields is not modelled. In the model, the accessors `getYear`, `getMonth`, `getMonthValue` and `getDayOfMonth` (PersianDate.java:40-65) are the stored fields. A day 0 or a negative day that passes validation is therefore kept as given, including in `hashCode` and `toString`, where the library would roll it into the previous month.
- `Month.getPersianName` and the Persian month names are left out, because they are display text only. So are `@Immutable` and the remarks on thread safety, which are about concurrency.
- The text of exception messages is left out. Each exception is modelled by its kind and the values the message mentions.
- `toString` is modelled with ASCII digits. `String.format` uses the default locale, and some locales use other digit characters.
- The `this == obj` shortcut in `equals` is modelled as structural equality with the receiver, because values have no reference identity. `EqualsIsEquivalence` shows that the shortcut agrees with the `compareTo` branch.
- `LocalDates.Compare`: only the sign of the JDK's `LocalDate.compareTo` is specified. The result is modelled as the first non-zero field difference.
- EqualsMatchesHash: stated only for valid dates with a positive day. For day 0 or a negative day, the model's `equals` and `hashCode` can disagree where Java's agree. For example, (y, ABAN, 0) and (y, MEHR, 30) convert to the same Gregorian date, so they are equal, but the model hashes the stored days; Java's `hashCode` reads the normalised accessors. It is also stated only for years up to 85,899,345. Above that, validation accepts (85899346, ESFAND, 30), because Java's overflowing test calls the year leap, and also (85899347, FARVARDIN, 1). A conversion that follows the 33-year calendar maps both to one day, so the model's `equals` holds while its hashes differ.
- ComparisonsFollowPersianOrder: stated only for calendar dates, for the same two reasons. Day 0 of a month and the last day of the month before compare equal although their triples differ.
- `EightLeapYearsPer33`, `LeapYearsBelow` and `LeapYearPeriodic` are stated only for years up to 85,899,345, because Java's `int` overflows above that (see `LeapRuleOverflows`).
