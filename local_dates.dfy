/**
 * The Gregorian date that a Persian date caches. Only what the Persian date
 * relies on is modelled: a (year, month, day) triple and `compareTo`, which
 * orders triples lexicographically. Validity of the triple and the calendar
 * arithmetic belong to the JDK and are not part of this model.
 */
module LocalDates {

  datatype LocalDate = LocalDate(year: int, month: int, day: int)

  /** Reference order: `a` is an earlier date than `b`. */
  predicate Before(a: LocalDate, b: LocalDate)
  {
    a.year < b.year
    || (a.year == b.year && a.month < b.month)
    || (a.year == b.year && a.month == b.month && a.day < b.day)
  }

  /**
   * `LocalDate.compareTo`: the first non-zero field difference, so negative
   * for an earlier date, zero for the same date, positive for a later one.
   * (The JDK keeps years within +/-999,999,999, so the difference fits an `int`.)
   */
  function Compare(a: LocalDate, b: LocalDate): (r: int)
    ensures r < 0 <==> Before(a, b)
    ensures r == 0 <==> a == b
    ensures r > 0 <==> Before(b, a)
  {
    if a.year != b.year then a.year - b.year
    else if a.month != b.month then a.month - b.month
    else a.day - b.day
  }

  /** `Before` is a strict total order on dates. */
  lemma BeforeIsStrictTotalOrder(a: LocalDate, b: LocalDate, c: LocalDate)
    ensures !Before(a, a)
    ensures Before(a, b) ==> !Before(b, a)
    ensures Before(a, b) && Before(b, c) ==> Before(a, c)
    ensures a == b || Before(a, b) || Before(b, a)
  {
  }

  /** `compareTo` is antisymmetric in sign, as `Comparable` requires. */
  lemma CompareAntisymmetric(a: LocalDate, b: LocalDate)
    ensures (Compare(a, b) < 0) == (Compare(b, a) > 0)
    ensures (Compare(a, b) == 0) == (Compare(b, a) == 0)
  {
  }
}
