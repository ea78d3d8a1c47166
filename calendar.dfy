/**
 * The proleptic Gregorian calendar as the monthly resample needs it: which
 * month a day number falls in, and the `YYYY-MM` label the month is shown with.
 *
 * A month is identified by its index, the number of whole months since
 * January 1970; a day is the number of days since 1970-01-01.
 */
module Calendar {

  const EpochYear: int := 1970

  predicate IsLeapYear(y: int)
  {
    y % 4 == 0 && (y % 100 != 0 || y % 400 == 0)
  }

  function DaysInMonth(y: int, m: int): nat
    requires 1 <= m <= 12
  {
    if m == 2 then (if IsLeapYear(y) then 29 else 28)
    else if m == 4 || m == 6 || m == 9 || m == 11 then 30
    else 31
  }

  /** Days from 1 January of year y to the first day of its month m. */
  function DaysBeforeMonth(y: int, m: int): nat
    requires 1 <= m <= 12
  {
    [0, 31, 59, 90, 120, 151, 181, 212, 243, 273, 304, 334][m - 1]
      + (if m > 2 && IsLeapYear(y) then 1 else 0)
  }

  function YearOf(month: nat): int
  {
    EpochYear + month / 12
  }

  /** The month of the year, 1 for January through 12 for December. */
  function MonthOfYear(month: nat): int
  {
    month % 12 + 1
  }

  function LengthOf(month: nat): nat
  {
    DaysInMonth(YearOf(month), MonthOfYear(month))
  }

  /** The day number of the first day of a month: the lengths of all earlier months added up. */
  function MonthStart(month: nat): nat
  {
    if month == 0 then 0 else MonthStart(month - 1) + LengthOf(month - 1)
  }

  /** Leap years among the years 1 .. y-1. */
  function LeapYearsBefore(y: int): int
  {
    (y - 1) / 4 - (y - 1) / 100 + (y - 1) / 400
  }

  /** The usual closed form of a month's first day, counting leap years by division. */
  function MonthStartFormula(month: nat): int
  {
    var y := YearOf(month);
    365 * (y - EpochYear) + LeapYearsBefore(y) - LeapYearsBefore(EpochYear)
      + DaysBeforeMonth(y, MonthOfYear(month))
  }

  /** Stepping y up by one moves y / d up by one exactly when d divides y. */
  lemma QuotientStep4(y: int)
    ensures y / 4 == (y - 1) / 4 + (if y % 4 == 0 then 1 else 0)
  {
  }

  lemma QuotientStep100(y: int)
    ensures y / 100 == (y - 1) / 100 + (if y % 100 == 0 then 1 else 0)
  {
  }

  lemma QuotientStep400(y: int)
    ensures y / 400 == (y - 1) / 400 + (if y % 400 == 0 then 1 else 0)
  {
  }

  lemma LeapYearsStep(y: int)
    ensures LeapYearsBefore(y + 1) == LeapYearsBefore(y) + (if IsLeapYear(y) then 1 else 0)
  {
    QuotientStep4(y);
    QuotientStep100(y);
    QuotientStep400(y);
  }

  /** Crossing from December into January adds the days of December. */
  lemma YearEndStep(month: nat)
    requires month % 12 == 11
    ensures MonthStartFormula(month + 1) == MonthStartFormula(month) + LengthOf(month)
  {
    var y := YearOf(month);
    assert YearOf(month + 1) == y + 1 && MonthOfYear(month + 1) == 1 && MonthOfYear(month) == 12;
    LeapYearsStep(y);
  }

  /** Within a year, the next month starts one month length later. */
  lemma InYearStep(month: nat)
    requires month % 12 != 11
    ensures MonthStartFormula(month + 1) == MonthStartFormula(month) + LengthOf(month)
  {
    assert YearOf(month + 1) == YearOf(month) && MonthOfYear(month + 1) == MonthOfYear(month) + 1;
  }

  lemma FormulaStep(month: nat)
    ensures MonthStartFormula(month + 1) == MonthStartFormula(month) + LengthOf(month)
  {
    if month % 12 == 11 {
      YearEndStep(month);
    } else {
      InYearStep(month);
    }
  }

  /** The summed month lengths agree with the closed form. */
  lemma {:induction false} MonthStartClosedForm(month: nat)
    ensures MonthStart(month) == MonthStartFormula(month)
  {
    if month > 0 {
      var p := month - 1;
      assert MonthStart(p) == MonthStartFormula(p) by {
        MonthStartClosedForm(p);
      }
      assert MonthStartFormula(month) == MonthStartFormula(p) + LengthOf(p) by {
        FormulaStep(p);
      }
    }
  }

  lemma {:induction false} MonthStartIncreasing(m1: nat, m2: nat)
    requires m1 < m2
    ensures MonthStart(m1) < MonthStart(m2)
    decreases m2 - m1
  {
    if m1 + 1 < m2 {
      MonthStartIncreasing(m1 + 1, m2);
    }
  }

  /** The first month from `month` on whose successor starts after the day. */
  function MonthSearch(day: nat, month: nat): nat
    requires MonthStart(month) <= day
    decreases day - MonthStart(month)
  {
    if day < MonthStart(month + 1) then month else MonthSearch(day, month + 1)
  }

  lemma {:induction false} MonthSearchBounds(day: nat, month: nat)
    requires MonthStart(month) <= day
    ensures MonthStart(MonthSearch(day, month)) <= day < MonthStart(MonthSearch(day, month) + 1)
    decreases day - MonthStart(month)
  {
    if day >= MonthStart(month + 1) {
      MonthSearchBounds(day, month + 1);
    }
  }

  /** The month a day falls in. */
  function MonthOf(day: nat): nat
  {
    MonthSearch(day, 0)
  }

  /** The month of a day is the one that starts on or before it and ends after it. */
  lemma MonthOfBounds(day: nat)
    ensures MonthStart(MonthOf(day)) <= day < MonthStart(MonthOf(day) + 1)
  {
    MonthSearchBounds(day, 0);
  }

  /** A day lies in exactly one month. */
  lemma MonthOfUnique(day: nat, month: nat)
    requires MonthStart(month) <= day < MonthStart(month + 1)
    ensures MonthOf(day) == month
  {
    var m := MonthOf(day);
    MonthOfBounds(day);
    if m < month {
      MonthStartIncreasing(m + 1, month + 1);
      MonthStartIncreasing(m, month);
      if m + 1 < month {
        MonthStartIncreasing(m + 1, month);
      }
      assert false;
    } else if m > month {
      if month + 1 < m {
        MonthStartIncreasing(month + 1, m);
      }
      assert false;
    }
  }

  /** Later days never fall in earlier months. */
  lemma MonthOfMonotone(d1: nat, d2: nat)
    requires d1 <= d2
    ensures MonthOf(d1) <= MonthOf(d2)
  {
    var m1, m2 := MonthOf(d1), MonthOf(d2);
    MonthOfBounds(d1);
    MonthOfBounds(d2);
    if m2 < m1 {
      if m2 + 1 < m1 {
        MonthStartIncreasing(m2 + 1, m1);
      }
      assert false;
    }
  }

  function Digit(d: nat): char
    requires d < 10
  {
    ('0' as int + d) as char
  }

  function DigitValue(c: char): int
  {
    c as int - '0' as int
  }

  /** Decimal digits of n, most significant first, without leading zeros. */
  function Decimal(n: nat): string
  {
    if n < 10 then [Digit(n)] else Decimal(n / 10) + [Digit(n % 10)]
  }

  function ParseDecimal(s: string): int
  {
    if s == [] then 0 else 10 * ParseDecimal(s[..|s| - 1]) + DigitValue(s[|s| - 1])
  }

  lemma {:induction false} DecimalRoundTrip(n: nat)
    ensures Decimal(n) != [] && ParseDecimal(Decimal(n)) == n
  {
    if n >= 10 {
      DecimalRoundTrip(n / 10);
      var s := Decimal(n);
      assert s[..|s| - 1] == Decimal(n / 10);
    }
  }

  /** The `YYYY-MM` label of a month: the year in decimal and the zero-padded month. */
  function Label(month: nat): (s: string)
    ensures |s| >= 4 && s[|s| - 3] == '-'
  {
    var m := MonthOfYear(month);
    Decimal(YearOf(month) as nat) + "-" + [Digit(m / 10), Digit(m % 10)]
  }

  /** Reads the month index back from a `YYYY-MM` label. */
  function ParseLabel(s: string): int
    requires |s| >= 3
  {
    12 * (ParseDecimal(s[..|s| - 3]) - EpochYear) + ParseDecimal(s[|s| - 2..]) - 1
  }

  /**
   * A label names its month unambiguously: the part before the dash reads
   * back as the year, the two digits after it as the month of the year.
   */
  lemma LabelRoundTrip(month: nat)
    ensures ParseDecimal(Label(month)[..|Label(month)| - 3]) == YearOf(month)
    ensures ParseDecimal(Label(month)[|Label(month)| - 2..]) == MonthOfYear(month)
    ensures ParseLabel(Label(month)) == month
  {
    var y, m := YearOf(month) as nat, MonthOfYear(month);
    var s := Label(month);
    DecimalRoundTrip(y);
    assert s[..|s| - 3] == Decimal(y);
    var tail := s[|s| - 2..];
    assert tail == [Digit(m / 10), Digit(m % 10)];
    assert tail[..1] == [Digit(m / 10)] && tail[..1][..0] == [];
    assert ParseDecimal(tail[..1]) == m / 10;
    assert ParseDecimal(tail) == 10 * (m / 10) + m % 10;
  }

  lemma LabelInjective(m1: nat, m2: nat)
    requires Label(m1) == Label(m2)
    ensures m1 == m2
  {
    LabelRoundTrip(m1);
    LabelRoundTrip(m2);
  }

  /** January 2018 is month 576 and starts on day 17532; February starts on day 17563. */
  lemma MonthStart2018()
    ensures MonthStart(576) == 17532 && MonthStart(577) == 17563
  {
    assert YearOf(576) == 2018 && MonthOfYear(576) == 1;
    assert YearOf(577) == 2018 && MonthOfYear(577) == 2;
    assert LeapYearsBefore(2018) == 489 && LeapYearsBefore(EpochYear) == 477;
    MonthStartClosedForm(576);
    MonthStartClosedForm(577);
  }

  /** 2018-01-01 is day 17532, in the month labelled 2018-01. */
  lemma January2018()
    ensures MonthOf(17532) == 576
  {
    MonthStart2018();
    MonthOfUnique(17532, 576);
  }

  lemma Label2018()
    ensures Label(576) == "2018-01"
  {
  }
}
