/**
 * The month the report shows, and the buttons that step it back and forth.
 * Months are numbered 0 (January) to 11 (December), as `Date.getMonth`
 * numbers them.
 */
module Navigation {
  import opened Calendar

  /** Months since the start of year 0: the position of a month on the calendar. */
  function MonthIndex(year: int, month: int): (i: int)
    ensures 0 <= month < 12 ==> i / 12 == year && i % 12 == month
  {
    if 0 <= month < 12 then
      DivMulPlus(year, month, 12);
      year * 12 + month
    else
      year * 12 + month
  }

  /** A month index names exactly one (year, month) pair. */
  lemma MonthIndexInjective(y1: int, m1: int, y2: int, m2: int)
    requires 0 <= m1 < 12 && 0 <= m2 < 12
    ensures MonthIndex(y1, m1) == MonthIndex(y2, m2) <==> y1 == y2 && m1 == m2
  {
    DivMulPlus(y1, m1, 12);
    DivMulPlus(y2, m2, 12);
  }

  /** The selected month of the report: the `reportMonth` / `reportYear` state pair. */
  class ReportPeriod {
    var month: int
    var year: int

    ghost predicate Valid()
      reads this
    {
      0 <= month < 12
    }

    function Index(): int
      reads this
    {
      MonthIndex(year, month)
    }

    /** Starts at the month and year the clock reports for today. */
    constructor (month0: int, year0: int)
      requires 0 <= month0 < 12
      ensures Valid()
      ensures month == month0 && year == year0
    {
      month := month0;
      year := year0;
    }

    /** One month back; from January to December of the previous year. */
    method PrevMonth()
      requires Valid()
      modifies this
      ensures Valid()
      ensures old(month) == 0 ==> month == 11 && year == old(year) - 1
      ensures old(month) != 0 ==> month == old(month) - 1 && year == old(year)
      ensures Index() == old(Index()) - 1
    {
      if month == 0 {
        month := 11;
        year := year - 1;
      } else {
        month := month - 1;
      }
    }

    /** One month forward; from December to January of the next year. */
    method NextMonth()
      requires Valid()
      modifies this
      ensures Valid()
      ensures old(month) == 11 ==> month == 0 && year == old(year) + 1
      ensures old(month) != 11 ==> month == old(month) + 1 && year == old(year)
      ensures Index() == old(Index()) + 1
    {
      if month == 11 {
        month := 0;
        year := year + 1;
      } else {
        month := month + 1;
      }
    }
  }

  /** Stepping back and then forward returns to the month shown before. */
  method PrevThenNext(p: ReportPeriod)
    requires p.Valid()
    modifies p
    ensures p.Valid()
    ensures p.month == old(p.month) && p.year == old(p.year)
  {
    ghost var y0, m0 := p.year, p.month;
    p.PrevMonth();
    p.NextMonth();
    MonthIndexInjective(p.year, p.month, y0, m0);
  }

  /** Stepping forward and then back returns to the month shown before. */
  method NextThenPrev(p: ReportPeriod)
    requires p.Valid()
    modifies p
    ensures p.Valid()
    ensures p.month == old(p.month) && p.year == old(p.year)
  {
    ghost var y0, m0 := p.year, p.month;
    p.NextMonth();
    p.PrevMonth();
    MonthIndexInjective(p.year, p.month, y0, m0);
  }
}
