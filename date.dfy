/**
 * The clock's date: a year from 2000 to 2100, a month and a day of at most
 * 31, changed only by a complete valid triple and shown as "YYYY-MM-DD".
 */
module Date {
  import opened Text

  /**
   * The values `setDate` accepts.  The day is checked against 31 whatever
   * the month, so 2001-02-31 is accepted.
   */
  predicate IsDate(y: int, m: int, d: int)
  {
    1999 < y < 2101 && 0 < m < 13 && 0 < d < 32
  }

  /** Year, month and day as one value. */
  datatype Ymd = Ymd(year: int, month: int, day: int)

  /**
   * What `setDate(y, m, d)` does to the date `before`: a valid triple
   * replaces all three fields, anything else leaves all three as they were.
   */
  predicate Accepted(before: Ymd, after: Ymd, y: int, m: int, d: int)
  {
    if IsDate(y, m, d) then after == Ymd(y, m, d) else after == before
  }

  /** Setting the same triple a second time changes nothing more. */
  lemma AcceptedIdempotent(t0: Ymd, t1: Ymd, t2: Ymd, y: int, m: int, d: int)
    requires Accepted(t0, t1, y, m, d) && Accepted(t1, t2, y, m, d)
    ensures t2 == t1
  {
  }

  /** The month is not consulted: the 31st of every month is accepted. */
  lemma AnyMonthHas31(y: int, m: int)
    requires 1999 < y < 2101 && 0 < m < 13
    ensures IsDate(y, m, 31) && !IsDate(y, m, 32)
  {
  }

  class Date {
    var year: int
    var month: int
    var day: int

    ghost predicate Valid()
      reads this
    {
      IsDate(year, month, day)
    }

    /** The three fields as one value. */
    function Today(): (t: Ymd)
      reads this
      ensures t.year == year && t.month == month && t.day == day
    {
      Ymd(year, month, day)
    }

    /** New Year's Day 2000. */
    constructor ()
      ensures Valid() && Today() == Ymd(2000, 1, 1) && ShowDate() == "2000-01-01"
    {
      year, month, day := 2000, 1, 1;
    }

    /**
     * Takes the triple when all three values are in range, otherwise keeps
     * the date as it was, and answers with the date now shown.
     */
    method SetDate(y: int, m: int, d: int) returns (shown: string)
      requires Valid()
      modifies this
      ensures Valid() && Accepted(old(Today()), Today(), y, m, d)
      ensures shown == ShowDate()
    {
      var isValidYear := y > 1999 && y < 2101;
      var isValidMonth := m > 0 && m < 13;
      var isValidDay := d > 0 && d < 32;
      if isValidYear && isValidMonth && isValidDay {
        year, month, day := y, m, d;
      }
      shown := ShowDate();
    }

    /** The year as it is, then month and day padded with a zero below 10. */
    function ShowDate(): (t: string)
      reads this
      ensures Valid() ==> |t| == 10 && t[4] == '-' && t[7] == '-'
      ensures Valid() ==> IsDigits(t[..4]) && IsDigits(t[5..7]) && IsDigits(t[8..])
    {
      FourDigits(year);
      IntToString(year) + "-" + Padded(month) + "-" + Padded(day)
    }
  }

  /** The three numbers can be read back from the text shown. */
  lemma ShowDateReadsBack(t: Date)
    requires t.Valid()
    ensures ParseNat(t.ShowDate()[..4]) == t.year
    ensures ParseNat(t.ShowDate()[5..7]) == t.month
    ensures ParseNat(t.ShowDate()[8..]) == t.day
  {
    var s := t.ShowDate();
    FourDigits(t.year);
    assert ParseNat(s[..4]) == t.year by {
      assert s[..4] == NatToString(t.year);
      ParseNatToString(t.year);
    }
    assert ParseNat(s[5..7]) == t.month by {
      assert s[5..7] == Padded(t.month);
      ParsePadded(t.month);
    }
    assert ParseNat(s[8..]) == t.day by {
      assert s[8..] == Padded(t.day);
      ParsePadded(t.day);
    }
  }

  /** Two valid dates that show the same text are the same date. */
  lemma ShowDateInjective(a: Date, b: Date)
    requires a.Valid() && b.Valid() && a.ShowDate() == b.ShowDate()
    ensures a.Today() == b.Today()
  {
    ShowDateReadsBack(a);
    ShowDateReadsBack(b);
  }
}
