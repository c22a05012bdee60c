/**
 * The clock's time of day: hours, minutes and seconds, changed only by a
 * complete valid triple and shown as "HH:MM:SS".
 */
module Time {
  import opened Text

  /** The values `setTime` accepts: an hour of the day, a minute and a second. */
  predicate IsTime(h: int, m: int, s: int)
  {
    -1 < h < 24 && -1 < m < 60 && -1 < s < 60
  }

  /** Hours, minutes and seconds as one value. */
  datatype Hms = Hms(hour: int, minute: int, second: int)

  /**
   * What `setTime(h, m, s)` does to the time `before`: a valid triple
   * replaces all three fields, anything else leaves all three as they were.
   */
  predicate Accepted(before: Hms, after: Hms, h: int, m: int, s: int)
  {
    if IsTime(h, m, s) then after == Hms(h, m, s) else after == before
  }

  /** Setting the same triple a second time changes nothing more. */
  lemma AcceptedIdempotent(t0: Hms, t1: Hms, t2: Hms, h: int, m: int, s: int)
    requires Accepted(t0, t1, h, m, s) && Accepted(t1, t2, h, m, s)
    ensures t2 == t1
  {
  }

  /** The time shown is valid afterwards exactly when it was valid before or the triple was. */
  lemma AcceptedKeepsValid(t0: Hms, t1: Hms, h: int, m: int, s: int)
    requires Accepted(t0, t1, h, m, s)
    ensures IsTime(t1.hour, t1.minute, t1.second) <==> IsTime(h, m, s) || IsTime(t0.hour, t0.minute, t0.second)
  {
  }

  /** Where the three parts of "a:b:c" sit. */
  lemma Joined(a: string, b: string, c: string)
    ensures var t := a + ":" + b + ":" + c;
      |t| == |a| + |b| + |c| + 2 && t[..|a|] == a && t[|a|] == ':' &&
      t[|a| + 1..|a| + 1 + |b|] == b && t[|a| + 1 + |b|] == ':' && t[|a| + |b| + 2..] == c
  {
  }

  class Time {
    var hour: int
    var minute: int
    var second: int

    ghost predicate Valid()
      reads this
    {
      IsTime(hour, minute, second)
    }

    /** The three fields as one value. */
    function Now(): (t: Hms)
      reads this
      ensures t.hour == hour && t.minute == minute && t.second == second
    {
      Hms(hour, minute, second)
    }

    /** Midnight. */
    constructor ()
      ensures Valid() && Now() == Hms(0, 0, 0) && ShowTime() == "00:00:00"
    {
      hour, minute, second := 0, 0, 0;
    }

    /**
     * Takes the triple when all three values are in range, otherwise keeps
     * the time as it was, and answers with the time now shown.
     */
    method SetTime(h: int, m: int, s: int) returns (shown: string)
      requires Valid()
      modifies this
      ensures Valid() && Accepted(old(Now()), Now(), h, m, s)
      ensures shown == ShowTime()
    {
      var isValidHour := h > -1 && h < 24;
      var isValidMinute := m > -1 && m < 60;
      var isValidSecond := s > -1 && s < 60;
      if isValidHour && isValidMinute && isValidSecond {
        hour, minute, second := h, m, s;
      }
      shown := ShowTime();
    }

    /** "HH:MM:SS": every field padded with a zero below 10. */
    function ShowTime(): (t: string)
      reads this
      ensures Valid() ==> |t| == 8 && t[2] == ':' && t[5] == ':'
      ensures Valid() ==> IsDigits(t[..2]) && IsDigits(t[3..5]) && IsDigits(t[6..])
    {
      Joined(Padded(hour), Padded(minute), Padded(second));
      Padded(hour) + ":" + Padded(minute) + ":" + Padded(second)
    }
  }

  /** The three numbers can be read back from the text shown. */
  lemma ShowTimeReadsBack(t: Time)
    requires t.Valid()
    ensures ParseNat(t.ShowTime()[..2]) == t.hour
    ensures ParseNat(t.ShowTime()[3..5]) == t.minute
    ensures ParseNat(t.ShowTime()[6..]) == t.second
  {
    Joined(Padded(t.hour), Padded(t.minute), Padded(t.second));
    ParsePadded(t.hour);
    ParsePadded(t.minute);
    ParsePadded(t.second);
  }

  /** Two valid times that show the same text are the same time. */
  lemma ShowTimeInjective(a: Time, b: Time)
    requires a.Valid() && b.Valid() && a.ShowTime() == b.ShowTime()
    ensures a.Now() == b.Now()
  {
    ShowTimeReadsBack(a);
    ShowTimeReadsBack(b);
  }
}
