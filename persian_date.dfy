/**
 * An immutable Persian (Solar Hijri) date: the month table, the 33-year
 * arithmetic leap rule, the validation the constructor performs, the two
 * factories, and ordering, equality, hashing and the string form.
 *
 * The Gregorian equivalent that every date caches is computed by a calendar
 * library that is not part of this model; it enters as a `Converter`
 * argument of the factories and is then stored as an opaque `LocalDate`.
 */
module PersianDates {
  import opened JavaInt
  import opened Wrappers
  import opened LocalDates
  import opened Formatting

  /** `java.time.Year.MAX_VALUE`, the largest year the constructor accepts. */
  const MAX_YEAR: int := 999_999_999

  /** The largest year for which `25 * year + 11` does not overflow an `int`. */
  const LAST_EXACT_LEAP_YEAR: int := 85_899_345

  // ---------------------------------------------------------------------
  // Months

  /** The twelve Persian months, in calendar order. */
  datatype Month =
    | Farvardin | Ordibehesht | Khordad | Tir | Mordad | Shahrivar
    | Mehr | Aban | Azar | Dey | Bahman | Esfand
  {
    /** The month's number, from 1 to 12. */
    function Number(): (n: int)
      ensures 1 <= n <= 12
    {
      match this
      case Farvardin => 1
      case Ordibehesht => 2
      case Khordad => 3
      case Tir => 4
      case Mordad => 5
      case Shahrivar => 6
      case Mehr => 7
      case Aban => 8
      case Azar => 9
      case Dey => 10
      case Bahman => 11
      case Esfand => 12
    }

    /** The number of days of the month in a non-leap year. */
    function Days(): (d: int)
      ensures 29 <= d <= 31
    {
      match this
      case Farvardin => 31
      case Ordibehesht => 31
      case Khordad => 31
      case Tir => 31
      case Mordad => 31
      case Shahrivar => 31
      case Mehr => 30
      case Aban => 30
      case Azar => 30
      case Dey => 30
      case Bahman => 30
      case Esfand => 29
    }

    /** `Month.values()`: the constants in declaration order. */
    static function Values(): (ms: seq<Month>)
      ensures |ms| == 12
      ensures forall i :: 0 <= i < |ms| ==> ms[i].Number() == i + 1
    {
      [Farvardin, Ordibehesht, Khordad, Tir, Mordad, Shahrivar,
       Mehr, Aban, Azar, Dey, Bahman, Esfand]
    }

    /** What `Month.of(number)` returns, or the exception it throws. */
    static function Lookup(number: int): (r: Result<Month, Error>)
      ensures r.Success? <==> 1 <= number <= 12
      ensures r.Success? ==> r.value.Number() == number
      ensures r.Failure? ==> r.error == InvalidMonthNumber(number)
    {
      MonthTable();
      if 1 <= number <= 12 then Success(Values()[number - 1])
      else Failure(InvalidMonthNumber(number))
    }

    /**
     * `Month.of`: a linear search through `values()` for the constant with
     * the given number, throwing when none has it.
     */
    static method Of(number: Int32) returns (r: Result<Month, Error>)
      ensures r == Lookup(number)
    {
      var values := Values();
      MonthTable();
      for i := 0 to |values|
        invariant forall j :: 0 <= j < i ==> values[j].Number() != number
      {
        if values[i].Number() == number {
          return Success(values[i]);
        }
      }
      return Failure(InvalidMonthNumber(number));
    }
  }

  /**
   * The month table: `values()` lists every month once, numbered 1 to 12 in
   * order; the first six months have 31 days, the next five 30, Esfand 29.
   */
  lemma MonthTable()
    ensures |Month.Values()| == 12
    ensures forall i :: 0 <= i < 12 ==> Month.Values()[i].Number() == i + 1
    ensures forall m: Month :: m in Month.Values()
    ensures forall m: Month :: 1 <= m.Number() <= 12
    ensures forall m: Month ::
      m.Days() == if m.Number() <= 6 then 31 else if m.Number() <= 11 then 30 else 29
  {
    forall m: Month ensures m in Month.Values() {
      match m
      case Farvardin => assert m == Month.Values()[0];
      case Ordibehesht => assert m == Month.Values()[1];
      case Khordad => assert m == Month.Values()[2];
      case Tir => assert m == Month.Values()[3];
      case Mordad => assert m == Month.Values()[4];
      case Shahrivar => assert m == Month.Values()[5];
      case Mehr => assert m == Month.Values()[6];
      case Aban => assert m == Month.Values()[7];
      case Azar => assert m == Month.Values()[8];
      case Dey => assert m == Month.Values()[9];
      case Bahman => assert m == Month.Values()[10];
      case Esfand => assert m == Month.Values()[11];
    }
  }

  /** No two months share a number, so a number names at most one month. */
  lemma MonthNumbersUnique(m1: Month, m2: Month)
    ensures m1.Number() == m2.Number() <==> m1 == m2
  {
  }

  // ---------------------------------------------------------------------
  // Exceptions

  /** The exceptions the operations of a Persian date can throw. */
  datatype Error =
      /** `DateTimeException`: the year is outside [0, MAX_YEAR]. */
    | YearOutOfRange(year: int)
      /** `NullPointerException`: no month was given. */
    | MonthIsNull
      /** `DateTimeException`: the month's number is outside [1, 12]. */
    | MonthOutOfRange(month: Month)
      /** `DateTimeException`: day 30 of Esfand in a year that is not leap. */
    | NotLeapYear(year: int)
      /** `DateTimeException`: any other day the month does not have. */
    | InvalidDate(month: Month, day: int)
      /** `IllegalArgumentException` from `Month.of`. */
    | InvalidMonthNumber(number: int)
      /** `IllegalArgumentException` from `isLeapYear`: the year is negative. */
    | NegativeYear(year: int)
      /** `NullPointerException` from `compareTo`: there is no date to compare to. */
    | NullArgument

  // ---------------------------------------------------------------------
  // The leap rule

  /** The 33-year arithmetic rule on unbounded integers. */
  predicate CycleLeap(year: int)
  {
    (25 * year + 11) % 33 < 8
  }

  /**
   * The leap test as Java evaluates it: `int` products and sums wrap, `%`
   * truncates. Up to the overflow bound nothing wraps, and the test is exactly
   * the 33-year rule.
   */
  predicate LeapRule(year: Int32): (leap: bool)
    requires year >= 0
    ensures year <= LAST_EXACT_LEAP_YEAR ==> (leap <==> CycleLeap(year))
  {
    WrapInRange(25 * year);
    WrapInRange(25 * year + 11);
    RemNonNegative(25 * year + 11, 33);
    Rem(Wrap(Wrap(25 * year) + 11), 33) < 8
  }

  /**
   * `PersianDate.isLeapYear(int)`: a negative year is refused; any other year
   * gets Java's test, which up to the overflow bound is the 33-year rule.
   */
  function IsLeapYear(year: Int32): (r: Result<bool, Error>)
    ensures r.Failure? <==> year < 0
    ensures r.Failure? ==> r.error == NegativeYear(year)
    ensures r.Success? ==> r.value == LeapRule(year)
    ensures 0 <= year <= LAST_EXACT_LEAP_YEAR ==> r == Success(CycleLeap(year))
  {
    if year < 0 then Failure(NegativeYear(year)) else Success(LeapRule(year))
  }

  /**
   * One year past the bound, `25 * year` wraps to a negative `int`, Java's
   * `%` yields a negative remainder, and the year is reported leap although
   * the 33-year rule says it is not.
   */
  lemma LeapRuleOverflows()
    ensures IsLeapYear(LAST_EXACT_LEAP_YEAR + 1) == Success(true)
    ensures !CycleLeap(LAST_EXACT_LEAP_YEAR + 1)
  {
    assert Wrap(25 * (LAST_EXACT_LEAP_YEAR + 1)) == -2_147_483_646;
  }

  /** The 33-year rule repeats every 33 years. */
  lemma CycleLeapPeriodic(year: int)
    ensures CycleLeap(year + 33) == CycleLeap(year)
  {
    var a := 25 * year + 11;
    var q, r := a / 33, a % 33;
    assert 25 * (year + 33) + 11 == 33 * (q + 25) + r;
  }

  /** So does Java's test, as long as it does not overflow. */
  lemma LeapYearPeriodic(year: Int32)
    requires 0 <= year && year + 33 <= LAST_EXACT_LEAP_YEAR
    ensures IsLeapYear(year + 33) == IsLeapYear(year)
  {
    CycleLeapPeriodic(year);
  }

  /** Some years the rule makes leap, and some it does not. */
  lemma LeapYearSamples()
    ensures IsLeapYear(1395) == Success(true)
    ensures IsLeapYear(1396) == Success(false)
    ensures IsLeapYear(1399) == Success(true)
    ensures IsLeapYear(1400) == Success(false)
    ensures IsLeapYear(1403) == Success(true)
    ensures IsLeapYear(-1) == Failure(NegativeYear(-1))
  {
    assert Wrap(25 * 1395) == 25 * 1395 && Wrap(25 * 1395 + 11) == 25 * 1395 + 11;
    assert Wrap(25 * 1396) == 25 * 1396 && Wrap(25 * 1396 + 11) == 25 * 1396 + 11;
    assert Wrap(25 * 1399) == 25 * 1399 && Wrap(25 * 1399 + 11) == 25 * 1399 + 11;
    assert Wrap(25 * 1400) == 25 * 1400 && Wrap(25 * 1400 + 11) == 25 * 1400 + 11;
    assert Wrap(25 * 1403) == 25 * 1403 && Wrap(25 * 1403 + 11) == 25 * 1403 + 11;
  }

  /** How many of the years in [lo, hi) `isLeapYear` reports as leap. */
  function LeapYearsIn(lo: nat, hi: nat): nat
    requires lo <= hi <= INT_MAX + 1
    decreases hi - lo
  {
    if lo == hi then 0
    else LeapYearsIn(lo, hi - 1) + (if LeapRule(hi - 1) then 1 else 0)
  }

  /** Year `m` is leap exactly when the count `(8 * n + 21) / 33` steps up from `n = m` to `n = m + 1`. */
  lemma LeapCountStep(m: nat)
    ensures (8 * (m + 1) + 21) / 33 == (8 * m + 21) / 33 + (if CycleLeap(m) then 1 else 0)
  {
    var a := 8 * m + 21;
    var q, r := a / 33, a % 33;
    DivModUnique(25 * m + 11, m - q, 32 - r);
    if r >= 25 {
      DivModUnique(a + 8, q + 1, r - 25);
    } else {
      DivModUnique(a + 8, q, r + 8);
    }
  }

  lemma DivModUnique(a: int, q: int, r: int)
    requires a == 33 * q + r && 0 <= r < 33
    ensures a / 33 == q && a % 33 == r
  {
  }

  /** The years 0 .. n-1 hold `(8 * n + 21) / 33` leap years. */
  lemma {:induction false} LeapYearsBelow(n: nat)
    requires n <= LAST_EXACT_LEAP_YEAR + 1
    ensures LeapYearsIn(0, n) == (8 * n + 21) / 33
  {
    if n > 0 {
      LeapYearsBelow(n - 1);
      LeapCountStep(n - 1);
    }
  }

  /** A count over [lo, hi) is the count below `hi` less the count below `lo`. */
  lemma {:induction false} LeapYearsSplit(lo: nat, hi: nat)
    requires lo <= hi <= INT_MAX + 1
    ensures LeapYearsIn(0, hi) == LeapYearsIn(0, lo) + LeapYearsIn(lo, hi)
    decreases hi - lo
  {
    if lo < hi {
      LeapYearsSplit(lo, hi - 1);
    }
  }

  /** Any 33 consecutive years below the overflow bound contain exactly 8 leap years. */
  lemma EightLeapYearsPer33(lo: nat)
    requires lo + 33 <= LAST_EXACT_LEAP_YEAR + 1
    ensures LeapYearsIn(lo, lo + 33) == 8
  {
    LeapYearsSplit(lo, lo + 33);
    LeapYearsBelow(lo);
    LeapYearsBelow(lo + 33);
    assert 8 * (lo + 33) + 21 == (8 * lo + 21) + 33 * 8;
  }

  // ---------------------------------------------------------------------
  // Construction

  /** The library conversion from a Persian (year, month number, day) to a Gregorian date. */
  type Converter = (int, int, int) -> LocalDate

  /** `isBetween`: `val` lies in the closed interval [lowerLimit, upperLimit]. */
  predicate IsBetween(val: int, lowerLimit: int, upperLimit: int): (r: bool)
    ensures r <==> lowerLimit <= val <= upperLimit
  {
    val >= lowerLimit && val <= upperLimit
  }

  /**
   * The days the constructor lets through in a month: every day up to 29
   * (zero and negative days included), day 30 except in Esfand of a year
   * that is not leap, and day 31 in the first six months.
   */
  predicate DayAccepted(year: Int32, month: Month, day: int)
    requires year >= 0
  {
    day <= 29
    || (day == 30 && (month != Esfand || LeapRule(year)))
    || (day == 31 && month.Number() <= 6)
  }

  /** A reference to an object, as `equals(Object)` receives it. */
  datatype Object = NullRef | Date(date: PersianDate) | OtherObject

  /**
   * A Persian date: the (year, month, day) it was created from and the
   * Gregorian date it was converted to. Accessors return the stored fields.
   */
  datatype PersianDate = PersianDate(year: Int32, month: Month, day: Int32, gregDate: LocalDate)
  {
    /** What every date the constructor creates satisfies. */
    ghost predicate Valid()
    {
      0 <= year <= MAX_YEAR && DayAccepted(year, month, day)
    }

    /** The cached Gregorian date is the conversion of the stored triple. */
    ghost predicate ConvertedBy(toGregorian: Converter)
    {
      gregDate == toGregorian(year, month.Number(), day)
    }

    /** The instance `isLeapYear()`; it cannot throw, as the year is never negative. */
    function IsLeap(): (r: Result<bool, Error>)
      ensures year >= 0 ==> r == Success(LeapRule(year))
    {
      IsLeapYear(year)
    }

    // -------------------------------------------------------------------
    // Ordering, on the cached Gregorian dates

    /** `compareTo`: the comparison of the two cached Gregorian dates. */
    function CompareTo(other: Option<PersianDate>): (r: Result<int, Error>)
      ensures other.None? ==> r == Failure(NullArgument)
      ensures other.Some? ==> r.Success?
      ensures other.Some? ==> (r.value < 0 <==> Before(gregDate, other.value.gregDate))
      ensures other.Some? ==> (r.value == 0 <==> gregDate == other.value.gregDate)
      ensures other.Some? ==> (r.value > 0 <==> Before(other.value.gregDate, gregDate))
    {
      match other
      case None => Failure(NullArgument)
      case Some(o) => Success(Compare(gregDate, o.gregDate))
    }

    /** `isEqual`: both dates convert to the same Gregorian date. */
    function IsEqual(other: Option<PersianDate>): (r: Result<bool, Error>)
      ensures other.None? ==> r == Failure(NullArgument)
      ensures other.Some? ==> r == Success(gregDate == other.value.gregDate)
    {
      match CompareTo(other)
      case Failure(e) => Failure(e)
      case Success(c) => Success(c == 0)
    }

    /** `isBefore`: this date's Gregorian date is the earlier one. */
    function IsBefore(other: Option<PersianDate>): (r: Result<bool, Error>)
      ensures other.None? ==> r == Failure(NullArgument)
      ensures other.Some? ==> r == Success(Before(gregDate, other.value.gregDate))
    {
      match CompareTo(other)
      case Failure(e) => Failure(e)
      case Success(c) => Success(c < 0)
    }

    /** `isAfter`: this date's Gregorian date is the later one. */
    function IsAfter(other: Option<PersianDate>): (r: Result<bool, Error>)
      ensures other.None? ==> r == Failure(NullArgument)
      ensures other.Some? ==> r == Success(Before(other.value.gregDate, gregDate))
    {
      match CompareTo(other)
      case Failure(e) => Failure(e)
      case Success(c) => Success(c > 0)
    }

    /**
     * `equals(Object)`: true for this very date, false for null and for
     * objects of other classes, and otherwise `compareTo(other) == 0`.
     */
    function Equals(obj: Object): (r: bool)
      ensures obj.Date? ==> (r <==> gregDate == obj.date.gregDate)
      ensures !obj.Date? ==> !r
    {
      if obj == Date(this) then true
      else if obj.Date? then CompareTo(Some(obj.date)) == Success(0)
      else false
    }

    // -------------------------------------------------------------------
    // Hashing and the string form, on the Persian triple

    /** The value `hashCode()` returns: `31 * (31 * (31 * 17 + year) + month) + day` in `int` arithmetic. */
    function Hash(): Int32
    {
      Wrap(31 * (31 * (31 * 17 + year) + month.Number()) + day)
    }

    /** `hashCode()`: the accumulator starts at 17 and takes year, month and day in turn. */
    method HashCode() returns (h: Int32)
      ensures h == Hash()
    {
      var result: Int32 := 17;
      result := Wrap(31 * result + year);
      result := Wrap(31 * result + month.Number());
      WrapMulAdd(31 * 17 + year, 31, month.Number());
      result := Wrap(31 * result + day);
      WrapMulAdd(31 * (31 * 17 + year) + month.Number(), 31, day);
      h := result;
    }

    /** `toString()`: `String.format("%04d-%02d-%02d", year, month, day)`. */
    function ToString(): (r: string)
      ensures |r| >= 10
      ensures r[0] == '-' <==> year < 0
    {
      ZeroPadded(year, 4) + "-" + ZeroPadded(month.Number(), 2) + "-" + ZeroPadded(day, 2)
    }
  }

  /**
   * The private constructor, and the factory `of(int, Month, int)` that only
   * calls it. Checks run in this order: the year, the month reference, the
   * month number, and only for a day above 29 the day against the month's
   * length (30 for Esfand in a leap year).
   */
  function OfMonth(year: Int32, month: Option<Month>, dayOfMonth: Int32, toGregorian: Converter)
    : (r: Result<PersianDate, Error>)
    ensures r == Failure(YearOutOfRange(year)) <==> !(0 <= year <= MAX_YEAR)
    ensures r == Failure(MonthIsNull) <==> 0 <= year <= MAX_YEAR && month.None?
    ensures r.Success? <==>
      0 <= year <= MAX_YEAR && month.Some? && DayAccepted(year, month.value, dayOfMonth)
    ensures r == Failure(NotLeapYear(year)) <==>
      0 <= year <= MAX_YEAR && month == Some(Esfand) && dayOfMonth == 30 && !LeapRule(year)
    ensures (r.Failure? && r.error.InvalidDate?) <==>
      0 <= year <= MAX_YEAR && month.Some? && !DayAccepted(year, month.value, dayOfMonth)
      && !(month.value == Esfand && dayOfMonth == 30)
    ensures r.Failure? && r.error.InvalidDate? ==> r.error == InvalidDate(month.value, dayOfMonth)
    ensures r.Failure? ==> !r.error.MonthOutOfRange?
    ensures r.Success? ==>
      && r.value.Valid()
      && r.value.year == year && r.value.month == month.value && r.value.day == dayOfMonth
      && r.value.ConvertedBy(toGregorian)
  {
    MonthTable();
    if !IsBetween(year, 0, MAX_YEAR) then Failure(YearOutOfRange(year))
    else if month.None? then Failure(MonthIsNull)
    else
      var m := month.value;
      if !IsBetween(m.Number(), 1, 12) then Failure(MonthOutOfRange(m))
      else if dayOfMonth > 29 && !IsBetween(dayOfMonth, 1, if LeapRule(year) && m == Esfand then 30 else m.Days()) then
        if !LeapRule(year) && m == Esfand && dayOfMonth == 30 then Failure(NotLeapYear(year))
        else Failure(InvalidDate(m, dayOfMonth))
      else
        Success(PersianDate(year, m, dayOfMonth, toGregorian(year, m.Number(), dayOfMonth)))
  }

  /**
   * The factory `of(int, int, int)`: `Month.of` resolves the number first, so
   * a bad month number is reported before any check of the year or the day.
   */
  method Of(year: Int32, month: Int32, dayOfMonth: Int32, toGregorian: Converter)
    returns (r: Result<PersianDate, Error>)
    ensures !(1 <= month <= 12) ==> r == Failure(InvalidMonthNumber(month))
    ensures 1 <= month <= 12 ==>
      r == OfMonth(year, Some(Month.Lookup(month).value), dayOfMonth, toGregorian)
    ensures r.Success? ==> r.value.month.Number() == month
  {
    var m := Month.Of(month);
    match m
    case Failure(e) =>
      r := Failure(e);
    case Success(pm) =>
      r := OfMonth(year, Some(pm), dayOfMonth, toGregorian);
  }

  // ---------------------------------------------------------------------
  // Properties of construction

  /** The year is checked before anything else: a bad year wins over a null month or any day. */
  lemma YearCheckedFirst(year: Int32, month: Option<Month>, dayOfMonth: Int32, toGregorian: Converter)
    requires year < 0 || year > MAX_YEAR
    ensures OfMonth(year, month, dayOfMonth, toGregorian) == Failure(YearOutOfRange(year))
  {
  }

  /** Every day up to 29 passes, zero and negative days included. */
  lemma DaysUpTo29Pass(year: Int32, month: Month, dayOfMonth: Int32, toGregorian: Converter)
    requires 0 <= year <= MAX_YEAR && dayOfMonth <= 29
    ensures OfMonth(year, Some(month), dayOfMonth, toGregorian).Success?
  {
  }

  /**
   * Day 30 exists in the first eleven months, and in Esfand exactly in leap
   * years; day 30 of Esfand in another year raises the specific error.
   */
  lemma DayThirty(year: Int32, month: Month, toGregorian: Converter)
    requires 0 <= year <= MAX_YEAR
    ensures month != Esfand ==> OfMonth(year, Some(month), 30, toGregorian).Success?
    ensures OfMonth(year, Some(Esfand), 30, toGregorian).Success? <==> IsLeapYear(year) == Success(true)
    ensures IsLeapYear(year) == Success(false) ==>
      OfMonth(year, Some(Esfand), 30, toGregorian) == Failure(NotLeapYear(year))
  {
  }

  /** Day 31 exists only in the first six months; elsewhere it is a generic invalid date. */
  lemma DayThirtyOne(year: Int32, month: Month, toGregorian: Converter)
    requires 0 <= year <= MAX_YEAR
    ensures OfMonth(year, Some(month), 31, toGregorian).Success? <==> month.Number() <= 6
    ensures month.Number() > 6 ==>
      OfMonth(year, Some(month), 31, toGregorian) == Failure(InvalidDate(month, 31))
  {
  }

  /** No month has a day above 31. */
  lemma DaysAbove31Rejected(year: Int32, month: Month, dayOfMonth: Int32, toGregorian: Converter)
    requires 0 <= year <= MAX_YEAR && dayOfMonth >= 32
    ensures OfMonth(year, Some(month), dayOfMonth, toGregorian) == Failure(InvalidDate(month, dayOfMonth))
  {
  }

  /**
   * The days accepted above 29 are those up to the month's length, which is
   * the table's day count except 30 for Esfand in a leap year.
   */
  lemma AcceptedDaysFollowMonthLength(year: Int32, month: Month, dayOfMonth: Int32)
    requires 0 <= year <= MAX_YEAR && dayOfMonth > 29
    ensures DayAccepted(year, month, dayOfMonth) <==>
      dayOfMonth <= (if month == Esfand && LeapRule(year) then 30 else month.Days())
  {
    MonthTable();
  }

  // ---------------------------------------------------------------------
  // Ordering and equality

  /** Exactly one of `isBefore`, `isEqual` and `isAfter` holds between two dates. */
  lemma OrderTrichotomy(a: PersianDate, b: PersianDate)
    ensures a.IsBefore(Some(b)).Success? && a.IsEqual(Some(b)).Success? && a.IsAfter(Some(b)).Success?
    ensures (if a.IsBefore(Some(b)).value then 1 else 0)
          + (if a.IsEqual(Some(b)).value then 1 else 0)
          + (if a.IsAfter(Some(b)).value then 1 else 0) == 1
  {
    BeforeIsStrictTotalOrder(a.gregDate, b.gregDate, b.gregDate);
  }

  /** No date is before or after itself, and every date is equal to itself. */
  lemma OrderIrreflexive(a: PersianDate)
    ensures a.IsBefore(Some(a)) == Success(false)
    ensures a.IsAfter(Some(a)) == Success(false)
    ensures a.IsEqual(Some(a)) == Success(true)
  {
  }

  /** `a.isBefore(b)` exactly when `b.isAfter(a)`. */
  lemma BeforeIffAfter(a: PersianDate, b: PersianDate)
    ensures a.IsBefore(Some(b)) == b.IsAfter(Some(a))
  {
  }

  /** `isBefore` is transitive. */
  lemma BeforeTransitive(a: PersianDate, b: PersianDate, c: PersianDate)
    requires a.IsBefore(Some(b)) == Success(true) && b.IsBefore(Some(c)) == Success(true)
    ensures a.IsBefore(Some(c)) == Success(true)
  {
    BeforeIsStrictTotalOrder(a.gregDate, b.gregDate, c.gregDate);
  }

  /** Comparing with null throws, whichever comparison is asked. */
  lemma NullComparisonsThrow(a: PersianDate)
    ensures a.CompareTo(None) == Failure(NullArgument)
    ensures a.IsEqual(None) == Failure(NullArgument)
    ensures a.IsBefore(None) == Failure(NullArgument)
    ensures a.IsAfter(None) == Failure(NullArgument)
  {
  }

  /**
   * `equals` is reflexive, symmetric and transitive, is false for null and
   * for other classes, and agrees with `compareTo(other) == 0`, shortcut for
   * identical dates included.
   */
  lemma EqualsIsEquivalence(a: PersianDate, b: PersianDate, c: PersianDate)
    ensures a.Equals(Date(a))
    ensures a.Equals(Date(b)) == b.Equals(Date(a))
    ensures a.Equals(Date(b)) && b.Equals(Date(c)) ==> a.Equals(Date(c))
    ensures !a.Equals(NullRef) && !a.Equals(OtherObject)
    ensures a.Equals(Date(b)) <==> a.CompareTo(Some(b)) == Success(0)
    ensures a.Equals(Date(b)) <==> a.IsEqual(Some(b)) == Success(true)
  {
  }

  /**
   * A triple the constructor accepts, with a positive day and a year up to the
   * overflow bound: on these a lenient conversion that follows the 33-year
   * calendar meets no day it has to roll over into the next month. (Day 0 is
   * rolled into the month before, and above the bound Java calls some years
   * leap that the calendar does not.)
   */
  predicate CalendarDate(year: Int32, month: Month, day: int)
  {
    0 <= year <= LAST_EXACT_LEAP_YEAR && 1 <= day && DayAccepted(year, month, day)
  }

  /** Lexicographic order on (year, month number, day) triples. */
  predicate TripleBefore(y1: int, m1: int, d1: int, y2: int, m2: int, d2: int)
  {
    y1 < y2 || (y1 == y2 && (m1 < m2 || (m1 == m2 && d1 < d2)))
  }

  /** The conversion is one-to-one on calendar dates. */
  ghost predicate InjectiveOnDates(toGregorian: Converter)
  {
    forall y1: Int32, m1: Month, d1: int, y2: Int32, m2: Month, d2: int ::
      CalendarDate(y1, m1, d1) && CalendarDate(y2, m2, d2) &&
      toGregorian(y1, m1.Number(), d1) == toGregorian(y2, m2.Number(), d2)
      ==> y1 == y2 && m1 == m2 && d1 == d2
  }

  /** The conversion sends an earlier calendar date to an earlier Gregorian date. */
  ghost predicate MonotoneOnDates(toGregorian: Converter)
  {
    forall y1: Int32, m1: Month, d1: int, y2: Int32, m2: Month, d2: int ::
      CalendarDate(y1, m1, d1) && CalendarDate(y2, m2, d2) &&
      TripleBefore(y1, m1.Number(), d1, y2, m2.Number(), d2)
      ==> Before(toGregorian(y1, m1.Number(), d1), toGregorian(y2, m2.Number(), d2))
  }

  /**
   * For two dates on the calendar, produced by a conversion that is one-to-one
   * on such dates, `equals` holds exactly when the Persian triples are the
   * same, and equal dates hash alike.
   */
  lemma EqualsMatchesHash(a: PersianDate, b: PersianDate, toGregorian: Converter)
    requires a.Valid() && b.Valid() && a.day >= 1 && b.day >= 1
    requires a.year <= LAST_EXACT_LEAP_YEAR && b.year <= LAST_EXACT_LEAP_YEAR
    requires InjectiveOnDates(toGregorian) && a.ConvertedBy(toGregorian) && b.ConvertedBy(toGregorian)
    ensures a.Equals(Date(b)) <==> (a.year, a.month, a.day) == (b.year, b.month, b.day)
    ensures a.Equals(Date(b)) ==> a.Hash() == b.Hash()
  {
    if a.Equals(Date(b)) {
      assert CalendarDate(a.year, a.month, a.day) && CalendarDate(b.year, b.month, b.day);
      assert toGregorian(a.year, a.month.Number(), a.day) == toGregorian(b.year, b.month.Number(), b.day);
    }
  }

  /**
   * "Newer persian date is considered greater": for two calendar dates and a
   * conversion that keeps the calendar's order, `compareTo` and the three
   * comparisons follow the Persian triples in lexicographic order.
   */
  lemma ComparisonsFollowPersianOrder(a: PersianDate, b: PersianDate, toGregorian: Converter)
    requires a.Valid() && b.Valid() && a.day >= 1 && b.day >= 1
    requires a.year <= LAST_EXACT_LEAP_YEAR && b.year <= LAST_EXACT_LEAP_YEAR
    requires MonotoneOnDates(toGregorian) && a.ConvertedBy(toGregorian) && b.ConvertedBy(toGregorian)
    ensures a.IsBefore(Some(b)) == Success(TripleBefore(a.year, a.month.Number(), a.day, b.year, b.month.Number(), b.day))
    ensures a.IsAfter(Some(b)) == Success(TripleBefore(b.year, b.month.Number(), b.day, a.year, a.month.Number(), a.day))
    ensures a.IsEqual(Some(b)) == Success((a.year, a.month, a.day) == (b.year, b.month, b.day))
  {
    var ga, gb := a.gregDate, b.gregDate;
    assert CalendarDate(a.year, a.month, a.day) && CalendarDate(b.year, b.month, b.day);
    BeforeIsStrictTotalOrder(ga, gb, ga);
    if TripleBefore(a.year, a.month.Number(), a.day, b.year, b.month.Number(), b.day) {
      assert Before(ga, gb);
    } else if TripleBefore(b.year, b.month.Number(), b.day, a.year, a.month.Number(), a.day) {
      assert Before(gb, ga);
    } else {
      MonthNumbersUnique(a.month, b.month);
      assert ga == gb;
    }
  }

  /**
   * The example of the `isBefore` and `isAfter` documentation: 15 Khordad 1396
   * is before 10 Shahrivar 1396, and not the other way round.
   */
  lemma ComparisonExample(toGregorian: Converter)
    requires MonotoneOnDates(toGregorian)
    ensures Month.Lookup(3) == Success(Khordad) && Month.Lookup(6) == Success(Shahrivar)
    ensures OfMonth(1396, Some(Khordad), 15, toGregorian).Success?
    ensures OfMonth(1396, Some(Shahrivar), 10, toGregorian).Success?
    ensures
      var a := OfMonth(1396, Some(Khordad), 15, toGregorian).value;
      var b := OfMonth(1396, Some(Shahrivar), 10, toGregorian).value;
      a.IsBefore(Some(b)) == Success(true) && a.IsBefore(Some(a)) == Success(false)
      && b.IsBefore(Some(a)) == Success(false)
      && a.IsAfter(Some(b)) == Success(false) && a.IsAfter(Some(a)) == Success(false)
      && b.IsAfter(Some(a)) == Success(true)
  {
    var a := OfMonth(1396, Some(Khordad), 15, toGregorian).value;
    var b := OfMonth(1396, Some(Shahrivar), 10, toGregorian).value;
    ComparisonsFollowPersianOrder(a, b, toGregorian);
    ComparisonsFollowPersianOrder(a, a, toGregorian);
    ComparisonsFollowPersianOrder(b, a, toGregorian);
  }

  // ---------------------------------------------------------------------
  // Hashing and the string form

  /** The hash depends on the Persian triple only, not on the cached Gregorian date. */
  lemma HashIgnoresGregorian(a: PersianDate, g: LocalDate)
    ensures a.Hash() == a.(gregDate := g).Hash()
  {
  }

  /**
   * For years up to 2,000,000 and days 0 to 31 nothing overflows, and the hash
   * is exactly `506447 + 961 * year + 31 * month + day`.
   */
  lemma HashWithoutOverflow(a: PersianDate)
    requires 0 <= a.year <= 2_000_000 && 0 <= a.day <= 31
    ensures a.Hash() == 506_447 + 961 * a.year + 31 * a.month.Number() + a.day
  {
    MonthTable();
    WrapInRange(31 * (31 * (31 * 17 + a.year) + a.month.Number()) + a.day);
  }

  /**
   * With a year of at most four digits and a day of at most two, the string
   * is ten characters `YYYY-MM-DD` whose three numerals read back as year,
   * month number and day.
   */
  lemma ToStringLayout(a: PersianDate)
    requires 0 <= a.year <= 9999 && 0 <= a.day <= 99
    ensures |a.ToString()| == 10
    ensures a.ToString()[4] == '-' && a.ToString()[7] == '-'
    ensures AllDigits(a.ToString()[..4]) && DecimalValue(a.ToString()[..4]) == a.year
    ensures AllDigits(a.ToString()[5..7]) && DecimalValue(a.ToString()[5..7]) == a.month.Number()
    ensures AllDigits(a.ToString()[8..]) && DecimalValue(a.ToString()[8..]) == a.day
  {
    MonthTable();
    var y, m, d := ZeroPadded(a.year, 4), ZeroPadded(a.month.Number(), 2), ZeroPadded(a.day, 2);
    ZeroPaddedNonNegative(a.year, 4);
    ZeroPaddedNonNegative(a.month.Number(), 2);
    ZeroPaddedNonNegative(a.day, 2);
    ZeroPaddedExactWidth(a.year, 4);
    ZeroPaddedExactWidth(a.month.Number(), 2);
    ZeroPaddedExactWidth(a.day, 2);
    var s := a.ToString();
    assert s == y + "-" + m + "-" + d;
    assert s[..4] == y && s[5..7] == m && s[8..] == d;
  }

  /** In that range the string determines the Persian triple. */
  lemma ToStringDeterminesTriple(a: PersianDate, b: PersianDate)
    requires 0 <= a.year <= 9999 && 0 <= a.day <= 99
    requires 0 <= b.year <= 9999 && 0 <= b.day <= 99
    requires a.ToString() == b.ToString()
    ensures a.year == b.year && a.month == b.month && a.day == b.day
  {
    ToStringLayout(a);
    ToStringLayout(b);
    MonthNumbersUnique(a.month, b.month);
  }

  /** A five-digit year, which the constructor accepts, makes the string longer than ten characters. */
  lemma ToStringFiveDigitYear(toGregorian: Converter)
    ensures OfMonth(10000, Some(Farvardin), 1, toGregorian).Success?
    ensures |OfMonth(10000, Some(Farvardin), 1, toGregorian).value.ToString()| == 11
  {
    ZeroPaddedNonNegative(10000, 4);
    assert |Digits(10000)| == 5;
  }

  /** Year 5, Farvardin 1 is written with all its padding zeros. */
  lemma ToStringPadsWithZeros(g: LocalDate)
    ensures PersianDate(5, Farvardin, 1, g).ToString() == "0005-01-01"
  {
  }

  /** In the model, which does not normalise, a negative day that the constructor lets through keeps its sign before the zeros. */
  lemma ToStringNegativeDay(g: LocalDate)
    ensures PersianDate(1396, Mehr, -5, g).ToString() == "1396-07--5"
  {
  }
}
