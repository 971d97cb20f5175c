/** The proleptic Gregorian calendar, just far enough to account for the
    epoch offset constant of the shim: the number of days from 1 January of
    one year to 1 January of a later one. */
module Calendar {

  import opened DivMod

  const SECONDS_PER_DAY: nat := 86400

  predicate IsLeapYear(y: int) {
    y % 4 == 0 && (y % 100 != 0 || y % 400 == 0)
  }

  function DaysInYear(y: int): (n: nat) {
    if IsLeapYear(y) then 366 else 365
  }

  /** Days from 1 January of `first` to 1 January of `last`, year by year. */
  function DaysBetween(first: int, last: int): (n: nat)
    requires first <= last
    decreases last - first
  {
    if first == last then 0 else DaysInYear(first) + DaysBetween(first + 1, last)
  }

  /** The number of leap years among 1..y (for y >= 0), by the usual rule. */
  function LeapYearsThrough(y: int): (n: int) {
    y / 4 - y / 100 + y / 400
  }

  /** Stepping from y - 1 to y, `y / k` grows by one exactly when k divides y. */
  lemma QuotientStep(y: int, k: int)
    requires k > 0
    ensures y / k - (y - 1) / k == if y % k == 0 then 1 else 0
  {
    var q, r := (y - 1) / k, (y - 1) % k;
    if r == k - 1 {
      QuotientUnique(y, k, q + 1, 0);
    } else {
      QuotientUnique(y, k, q, r + 1);
    }
  }

  lemma LeapYearsStep(y: int)
    ensures LeapYearsThrough(y) - LeapYearsThrough(y - 1) == if IsLeapYear(y) then 1 else 0
  {
    QuotientStep(y, 4);
    QuotientStep(y, 100);
    QuotientStep(y, 400);
  }

  /** Closed form of DaysBetween: 365 days a year plus one per leap year. */
  lemma {:induction false} DaysBetweenClosedForm(first: int, last: int)
    requires first <= last
    ensures DaysBetween(first, last) == 365 * (last - first) + LeapYearsThrough(last - 1) - LeapYearsThrough(first - 1)
    decreases last - first
  {
    if first < last {
      DaysBetweenClosedForm(first + 1, last);
      LeapYearsStep(first);
    }
  }

  /** 1601 to 1970 spans 369 years of which 89 are leap years. */
  lemma DaysFrom1601To1970()
    ensures DaysBetween(1601, 1970) == 134774
  {
    DaysBetweenClosedForm(1601, 1970);
  }

  /** 1970 to 2024 spans 54 years of which 13 are leap years. */
  lemma DaysFrom1970To2024()
    ensures DaysBetween(1970, 2024) == 19723
  {
    DaysBetweenClosedForm(1970, 2024);
  }
}
