/**
 * timeval arithmetic (include/libevent/event2/util.h).
 *
 * The macros write through pointers field by field, so the destination may be the
 * same object as either operand, or both.
 */
module TimeVals {
  const USEC := 1_000_000

  class TimeVal {
    var sec: int
    var usec: int

    constructor (sec: int, usec: int)
      ensures this.sec == sec && this.usec == usec
    {
      this.sec := sec;
      this.usec := usec;
    }

    function View(): Time
      reads this
    {
      Time(sec, usec)
    }
  }

  datatype Time = Time(sec: int, usec: int)

  function Micros(t: Time): int {
    t.sec * USEC + t.usec
  }

  predicate Normal(t: Time) {
    0 <= t.usec < USEC
  }

  lemma NormalUnique(t: Time, u: Time)
    requires Normal(t) && Normal(u) && Micros(t) == Micros(u)
    ensures t == u
  {
  }

  /** The normal time with a given number of microseconds; NormalUnique says there is only one. */
  ghost function OfMicros(m: int): (t: Time)
    ensures Normal(t) && Micros(t) == m
  {
    var candidate := Time(m / USEC, m % USEC);
    assert Normal(candidate) && Micros(candidate) == m;
    var t :| Normal(t) && Micros(t) == m;
    t
  }

  ghost function Sum(t: Time, u: Time): Time {
    OfMicros(Micros(t) + Micros(u))
  }

  ghost function Difference(t: Time, u: Time): Time {
    OfMicros(Micros(t) - Micros(u))
  }

  /**
   * evutil_timeradd(t, u, v): exact for all operands and every aliasing; one carry normalises sums below
   * two seconds of microseconds, so on normal operands v becomes the normal time of the sum.
   */
  method TimerAdd(t: TimeVal, u: TimeVal, v: TimeVal)
    modifies v
    ensures v.sec * 1_000_000 + v.usec == old(t.sec * 1_000_000 + t.usec) + old(u.sec * 1_000_000 + u.usec)
    ensures 0 <= v.usec < 1_000_000 <==> 0 <= old(t.usec + u.usec) < 2_000_000
    ensures old(Normal(t.View()) && Normal(u.View())) ==> v.View() == Sum(old(t.View()), old(u.View()))
  {
    ghost var x, y := t.View(), u.View();
    v.sec := t.sec + u.sec;
    v.usec := t.usec + u.usec;
    if v.usec >= USEC {
      v.sec := v.sec + 1;
      v.usec := v.usec - USEC;
    }
    if Normal(x) && Normal(y) {
      NormalUnique(v.View(), Sum(x, y));
    }
  }

  /** evutil_timersub(t, u, v) */
  method TimerSub(t: TimeVal, u: TimeVal, v: TimeVal)
    modifies v
    ensures v.sec * 1_000_000 + v.usec == old(t.sec * 1_000_000 + t.usec) - old(u.sec * 1_000_000 + u.usec)
    ensures 0 <= v.usec < 1_000_000 <==> -1_000_000 <= old(t.usec) - old(u.usec) < 1_000_000
    ensures old(Normal(t.View()) && Normal(u.View())) ==> v.View() == Difference(old(t.View()), old(u.View()))
  {
    ghost var x, y := t.View(), u.View();
    v.sec := t.sec - u.sec;
    v.usec := t.usec - u.usec;
    if v.usec < 0 {
      v.sec := v.sec - 1;
      v.usec := v.usec + USEC;
    }
    if Normal(x) && Normal(y) {
      NormalUnique(v.View(), Difference(x, y));
    }
  }

  /** Addition and subtraction undo each other. */
  lemma SumDifference(t: Time, u: Time)
    requires Normal(t) && Normal(u)
    ensures Difference(Sum(t, u), u) == t && Sum(Difference(t, u), u) == t
    ensures Difference(Sum(u, t), u) == t && Difference(u, Difference(u, t)) == t
  {
    NormalUnique(Difference(Sum(t, u), u), t);
    NormalUnique(Sum(Difference(t, u), u), t);
    NormalUnique(Difference(Sum(u, t), u), t);
    NormalUnique(Difference(u, Difference(u, t)), t);
  }

  /** t += u; t -= u: the destination is the first operand. */
  method AddThenSub(t: TimeVal, u: TimeVal)
    requires t != u && Normal(t.View()) && Normal(u.View())
    modifies t
    ensures t.View() == old(t.View())
  {
    SumDifference(t.View(), u.View());
    TimerAdd(t, u, t);
    TimerSub(t, u, t);
  }

  /** t -= u; t += u */
  method SubThenAdd(t: TimeVal, u: TimeVal)
    requires t != u && Normal(t.View()) && Normal(u.View())
    modifies t
    ensures t.View() == old(t.View())
  {
    SumDifference(t.View(), u.View());
    TimerSub(t, u, t);
    TimerAdd(t, u, t);
  }

  /** u = t + u; u = u - t: the destination of the sum is the second operand. */
  method AddIntoSecond(t: TimeVal, u: TimeVal)
    requires t != u && Normal(t.View()) && Normal(u.View())
    modifies u
    ensures u.View() == old(u.View())
  {
    SumDifference(u.View(), t.View());
    TimerAdd(t, u, u);
    TimerSub(u, t, u);
  }

  /** u = t - u, twice: the destination of the difference is the second operand. */
  method SubIntoSecond(t: TimeVal, u: TimeVal)
    requires t != u && Normal(t.View()) && Normal(u.View())
    modifies u
    ensures u.View() == old(u.View())
  {
    SumDifference(u.View(), t.View());
    TimerSub(t, u, u);
    TimerSub(t, u, u);
  }

  // ----- comparison

  datatype Cmp = EQ | LE | LT | GE | GT

  predicate Compare(a: int, b: int, cmp: Cmp) {
    match cmp
    case EQ => a == b
    case LE => a <= b
    case LT => a < b
    case GE => a >= b
    case GT => a > b
  }

  /** evutil_timercmp(t, u, cmp) */
  predicate TimerCmp(t: Time, u: Time, cmp: Cmp) {
    if t.sec == u.sec then Compare(t.usec, u.usec, cmp) else Compare(t.sec, u.sec, cmp)
  }

  /** The difference of the microseconds stays below a second. */
  predicate Close(t: Time, u: Time) {
    -USEC < t.usec - u.usec < USEC
  }

  /** Whenever the microseconds differ by less than a second, as they do in normal times, the macro compares the times. */
  lemma TimerCmpMeans(t: Time, u: Time)
    requires -1_000_000 < t.usec - u.usec < 1_000_000
    ensures TimerCmp(t, u, EQ) <==> t.sec * 1_000_000 + t.usec == u.sec * 1_000_000 + u.usec
    ensures TimerCmp(t, u, LE) <==> t.sec * 1_000_000 + t.usec <= u.sec * 1_000_000 + u.usec
    ensures TimerCmp(t, u, LT) <==> t.sec * 1_000_000 + t.usec < u.sec * 1_000_000 + u.usec
    ensures TimerCmp(t, u, GE) <==> t.sec * 1_000_000 + t.usec >= u.sec * 1_000_000 + u.usec
    ensures TimerCmp(t, u, GT) <==> t.sec * 1_000_000 + t.usec > u.sec * 1_000_000 + u.usec
  {
    TimerCmpAgrees(t, u, EQ);
    TimerCmpAgrees(t, u, LE);
    TimerCmpAgrees(t, u, LT);
    TimerCmpAgrees(t, u, GE);
    TimerCmpAgrees(t, u, GT);
  }

  /** The same for any of the five, as one statement. */
  lemma TimerCmpAgrees(t: Time, u: Time, cmp: Cmp)
    requires Close(t, u)
    ensures TimerCmp(t, u, cmp) == Compare(Micros(t), Micros(u), cmp)
  {
  }

  /** Otherwise some comparison of times with these microseconds goes wrong: seconds one apart suffice. */
  lemma TimerCmpIff(a: int, b: int)
    ensures -USEC < a - b < USEC <==>
      forall s: int, r: int, cmp: Cmp :: TimerCmp(Time(s, a), Time(r, b), cmp) == Compare(Micros(Time(s, a)), Micros(Time(r, b)), cmp)
  {
    if -USEC < a - b < USEC {
      forall s: int, r: int, cmp: Cmp
        ensures TimerCmp(Time(s, a), Time(r, b), cmp) == Compare(Micros(Time(s, a)), Micros(Time(r, b)), cmp)
      {
        TimerCmpAgrees(Time(s, a), Time(r, b), cmp);
      }
    } else if a - b >= USEC {
      assert TimerCmp(Time(0, a), Time(1, b), LT) && !Compare(Micros(Time(0, a)), Micros(Time(1, b)), LT);
    } else {
      assert TimerCmp(Time(1, a), Time(0, b), GT) && !Compare(Micros(Time(1, a)), Micros(Time(0, b)), GT);
    }
  }

  /** Adding the same time on both sides changes no comparison of normal times. */
  lemma AddingKeepsOrder(t: Time, u: Time, x: Time, cmp: Cmp)
    requires Normal(t) && Normal(u)
    ensures TimerCmp(Sum(t, x), Sum(u, x), cmp) == TimerCmp(t, u, cmp)
  {
    TimerCmpAgrees(t, u, cmp);
    TimerCmpAgrees(Sum(t, x), Sum(u, x), cmp);
  }

  /** t += x and u += x in place keep every comparison of t and u. */
  method AddToBoth(t: TimeVal, u: TimeVal, x: TimeVal)
    requires t != x && u != x && Normal(t.View()) && Normal(u.View()) && Normal(x.View())
    modifies t, u
    ensures forall cmp :: TimerCmp(t.View(), u.View(), cmp) == old(TimerCmp(t.View(), u.View(), cmp))
  {
    forall cmp: Cmp
      ensures TimerCmp(Sum(t.View(), x.View()), Sum(u.View(), x.View()), cmp) == TimerCmp(t.View(), u.View(), cmp)
    {
      AddingKeepsOrder(t.View(), u.View(), x.View(), cmp);
    }
    TimerAdd(t, x, t);
    TimerAdd(u, x, u);
  }
}
