/**
 * The clock's mode machine.  S1 shows the time and S2 the date; `ready`
 * opens the editor for the one shown (S3 for the time, S4 for the date),
 * and `set` stores the new value and goes back to showing it.  Every other
 * button press answers with an error code and changes nothing.
 */
module Clock {
  import Time
  import Date

  datatype State = S1 | S2 | S3 | S4

  /** The state after `changeMode`: the two displays swap, the editors stay. */
  function AfterChangeMode(s: State): (t: State)
    ensures s.S1? <==> t.S2?
    ensures (s.S3? || s.S4?) ==> t == s
  {
    match s
    case S1 => S2
    case S2 => S1
    case _ => s
  }

  /** The state after `ready`: each display opens its editor, the editors stay. */
  function AfterReady(s: State): (t: State)
    ensures t.S3? || t.S4?
    ensures (s.S1? || s.S3?) <==> t.S3?
  {
    match s
    case S1 => S3
    case S2 => S4
    case _ => s
  }

  /** The state after `set`: each editor goes back to its display, the displays stay. */
  function AfterSet(s: State): (t: State)
    ensures t.S1? || t.S2?
    ensures (s.S1? || s.S3?) <==> t.S1?
  {
    match s
    case S3 => S1
    case S4 => S2
    case _ => s
  }

  /** Changing the mode twice comes back to where it started. */
  lemma ChangeModeTwice(s: State)
    ensures AfterChangeMode(AfterChangeMode(s)) == s
  {
  }

  /** Opening an editor and setting the value returns to the display it was opened from. */
  lemma ReadyThenSet(s: State)
    requires s.S1? || s.S2?
    ensures AfterSet(AfterReady(s)) == s
  {
  }

  class Clock {
    var time: Time.Time
    var date: Date.Date
    var currentState: State

    ghost predicate Valid()
      reads this, time, date
    {
      time.Valid() && date.Valid()
    }

    /** Showing the time, midnight of 2000-01-01. */
    constructor ()
      ensures Valid() && fresh(time) && fresh(date) && currentState == S1
      ensures time.ShowTime() == "00:00:00" && date.ShowDate() == "2000-01-01"
    {
      time := new Time.Time();
      date := new Date.Date();
      currentState := S1;
    }

    /** Swaps between the time and the date display, answering with the one now shown. */
    method ChangeMode() returns (shown: string)
      requires Valid()
      modifies this`currentState
      ensures Valid() && currentState == AfterChangeMode(old(currentState))
      ensures old(currentState) == S1 ==> shown == date.ShowDate()
      ensures old(currentState) == S2 ==> shown == time.ShowTime()
      ensures old(currentState) == S3 ==> shown == "Er.3"
      ensures old(currentState) == S4 ==> shown == "Er.4"
    {
      match currentState
      case S1 =>
        currentState := S2;
        return date.ShowDate();
      case S2 =>
        currentState := S1;
        return time.ShowTime();
      case S3 =>
        return "Er.3";
      case S4 =>
        return "Er.4";
    }

    /** Opens the editor for the value shown. */
    method Ready() returns (shown: string)
      requires Valid()
      modifies this`currentState
      ensures Valid() && currentState == AfterReady(old(currentState))
      ensures old(currentState) == S1 ==> shown == "ChangeTime"
      ensures old(currentState) == S2 ==> shown == "ChangeDate"
      ensures old(currentState) == S3 ==> shown == "Er.1"
      ensures old(currentState) == S4 ==> shown == "Er.2"
    {
      match currentState
      case S1 =>
        currentState := S3;
        return "ChangeTime";
      case S2 =>
        currentState := S4;
        return "ChangeDate";
      case S3 =>
        return "Er.1";
      case S4 =>
        return "Er.2";
    }

    /**
     * In an editor, hands the three numbers to the time or the date and
     * goes back to showing it; on a display, changes nothing.
     */
    method Set(a: int, b: int, c: int) returns (shown: string)
      requires Valid()
      modifies this`currentState, time, date
      ensures Valid() && currentState == AfterSet(old(currentState))
      ensures old(currentState) == S3 ==>
        Time.Accepted(old(time.Now()), time.Now(), a, b, c) && shown == time.ShowTime() && unchanged(date)
      ensures old(currentState) == S4 ==>
        Date.Accepted(old(date.Today()), date.Today(), a, b, c) && shown == date.ShowDate() && unchanged(time)
      ensures old(currentState) == S1 ==> shown == "Er.5" && unchanged(time, date)
      ensures old(currentState) == S2 ==> shown == "Er.6" && unchanged(time, date)
    {
      match currentState
      case S3 =>
        currentState := S1;
        shown := time.SetTime(a, b, c);
      case S4 =>
        currentState := S2;
        shown := date.SetDate(a, b, c);
      case S1 =>
        return "Er.5";
      case S2 =>
        return "Er.6";
    }
  }
}
