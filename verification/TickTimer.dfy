/**
 * LUTimer (include/ltimer.h): a timer that turns elapsed clock time into whole
 * units of credit and lets one call of ticking through per unit.
 *
 * Clock readings are integers in clock ticks; a unit is den / num clock ticks, so
 * duration_cast of d clock ticks counts d * num / den units, cut towards zero.
 * A history of calls is the list of readings each call took; nothing is assumed
 * about how often or how regularly the timer is called.
 */
module TickTimer {

  // ----- the clock

  /** The n-th reading of the clock is at(n); each reading is taken once, in order. */
  class Clock {
    const at: nat -> int
    var taken: nat

    constructor (at: nat -> int)
      ensures this.at == at && taken == 0
    {
      this.at := at;
      taken := 0;
    }

    method Now() returns (t: int)
      modifies this
      ensures t == at(old(taken)) && taken == old(taken) + 1
    {
      t := at(taken);
      taken := taken + 1;
    }
  }

  ghost predicate Monotone(at: nat -> int) {
    forall i: nat, j: nat :: i <= j ==> at(i) <= at(j)
  }

  /** duration_cast cuts towards zero. */
  function Cut(n: int, d: nat): int
    requires d > 0
  {
    if n >= 0 then n / d else -((-n) / d)
  }

  datatype Rate = Rate(num: nat, den: nat)

  predicate IsRate(r: Rate) {
    r.num > 0 && r.den > 0
  }

  function Units(r: Rate, d: int): int
    requires IsRate(r)
  {
    Cut(d * r.num, r.den)
  }

  // ----- one call

  /** m_pass and m_ticker */
  datatype State = State(pass: int, ticker: int)

  /** The readings of one call; a call that earns no credit takes only one, and t2 is t1. */
  datatype Call = Call(t1: int, t2: int)

  function CallAt(r: Rate, s: State, at: nat -> int, k: nat): Call
    requires IsRate(r)
  {
    Call(at(k), if Units(r, at(k) - s.pass) > 0 then at(k + 1) else at(k))
  }

  function ReadingsOf(r: Rate, s: State, c: Call): nat
    requires IsRate(r)
  {
    if Credit(r, s, c) > 0 then 2 else 1
  }

  function Credit(r: Rate, s: State, c: Call): nat
    requires IsRate(r)
  {
    var p := Units(r, c.t1 - s.pass);
    if p > 0 then p else 0
  }

  function Credited(r: Rate, s: State, c: Call): State
    requires IsRate(r)
  {
    if Credit(r, s, c) > 0 then State(c.t2, s.ticker + Credit(r, s, c)) else s
  }

  predicate Hit(r: Rate, s: State, c: Call)
    requires IsRate(r)
  {
    Credited(r, s, c).ticker >= 0
  }

  function Step(r: Rate, s: State, c: Call): State
    requires IsRate(r)
  {
    var e := Credited(r, s, c);
    if e.ticker < 0 then e else e.(ticker := e.ticker - 1)
  }

  // ----- a history of calls

  /** Everything that can be counted over a history since initialize read the clock at start. */
  datatype Account = Account(state: State, hits: nat, credit: nat, credits: nat, gaps: int)

  function Run(r: Rate, start: int, calls: seq<Call>): Account
    requires IsRate(r)
  {
    if calls == [] then Account(State(start, 0), 0, 0, 0, 0)
    else
      var n := |calls| - 1;
      Next(r, Run(r, start, calls[..n]), calls[n])
  }

  function Next(r: Rate, a: Account, c: Call): Account
    requires IsRate(r)
  {
    var earned := Credit(r, a.state, c);
    Account(Step(r, a.state, c),
            a.hits + (if Hit(r, a.state, c) then 1 else 0),
            a.credit + earned,
            a.credits + (if earned > 0 then 1 else 0),
            a.gaps + (if earned > 0 then c.t2 - c.t1 else 0))
  }

  class LUTimer {
    const rate: Rate
    var begin: int
    var pass: int
    var ticker: int
    ghost var start: int
    ghost var calls: seq<Call>

    ghost predicate Valid()
      reads this
    {
      IsRate(rate) && State(pass, ticker) == Run(rate, start, calls).state
    }

    constructor (rate: Rate, clock: Clock)
      requires IsRate(rate)
      modifies clock
      ensures Valid() && this.rate == rate && calls == [] && start == clock.at(old(clock.taken) + 1)
      ensures clock.taken == old(clock.taken) + 2
    {
      this.rate := rate;
      var b := clock.Now();
      begin := b;
      var p := clock.Now();
      pass := p;
      ticker := 0;
      start := p;
      calls := [];
    }

    method Initialize(clock: Clock)
      requires IsRate(rate)
      modifies this, clock
      ensures Valid() && calls == [] && start == pass == clock.at(old(clock.taken) + 1) && ticker == 0
      ensures begin == clock.at(old(clock.taken)) && clock.taken == old(clock.taken) + 2
    {
      begin := clock.Now();
      pass := clock.Now();
      ticker := 0;
      start, calls := pass, [];
    }

    method GetPass(clock: Clock) returns (p: int)
      requires IsRate(rate)
      modifies clock
      ensures p == Units(rate, clock.at(old(clock.taken)) - pass) && clock.taken == old(clock.taken) + 1
      ensures var n := (clock.at(old(clock.taken)) - pass) * rate.num;
        if n >= 0 then p * rate.den <= n < (p + 1) * rate.den else (p - 1) * rate.den < n <= p * rate.den
    {
      var now := clock.Now();
      p := Units(rate, now - pass);
      UnitsBound(rate, now - pass);
    }

    method Ticking(clock: Clock) returns (hit: bool)
      requires Valid()
      modifies this, clock
      ensures Valid() && start == old(start)
      ensures
        var k := old(clock.taken);
        var s := State(old(pass), old(ticker));
        var c := CallAt(rate, s, clock.at, k);
        && calls == old(calls) + [c]
        && State(pass, ticker) == Step(rate, s, c)
        && hit == Hit(rate, s, c)
        && clock.taken == k + ReadingsOf(rate, s, c)
      ensures
        // n / den units have passed at the first reading; a second one is taken when that is at least one
        var k := old(clock.taken);
        var n := (clock.at(k) - old(pass)) * rate.num;
        var full := old(ticker) + (if n >= rate.den then n / rate.den else 0);
        && clock.taken == (if n >= rate.den then k + 2 else k + 1)
        && pass == (if n >= rate.den then clock.at(k + 1) else old(pass))
        && hit == (full >= 0)
        && ticker == (if full >= 0 then full - 1 else full)
    {
      EarnedIff(rate, clock.at(clock.taken) - pass);
      ghost var c := CallAt(rate, State(pass, ticker), clock.at, clock.taken);
      assert (calls + [c])[..|calls|] == calls;
      calls := calls + [c];
      var p := GetPass(clock);
      if p > 0 {
        pass := clock.Now();
        ticker := ticker + p;
      }
      if ticker < 0 {
        return false;
      }
      ticker := ticker - 1;
      return true;
    }
  }

  // ----- conservation

  /** After every history the ticker is the credit minus the calls let through, and never below -1. */
  lemma {:induction false} Conservation(r: Rate, start: int, calls: seq<Call>)
    requires IsRate(r)
    ensures var a := Run(r, start, calls);
      a.state.ticker == a.credit - a.hits && a.state.ticker >= -1 && a.credits <= a.credit
  {
    if calls != [] {
      Conservation(r, start, calls[..|calls| - 1]);
    }
  }

  // ----- the upper bound

  /** The readings come in order: initialize, then t1 and t2 of each call. */
  ghost predicate InOrder(start: int, calls: seq<Call>, now: int) {
    if calls == [] then start <= now
    else
      var c := calls[|calls| - 1];
      InOrder(start, calls[..|calls| - 1], c.t1) && c.t1 <= c.t2 <= now
  }

  lemma UnitsBound(r: Rate, d: int)
    requires IsRate(r)
    ensures d >= 0 ==> Units(r, d) * r.den <= d * r.num < (Units(r, d) + 1) * r.den
    ensures d < 0 ==> (Units(r, d) - 1) * r.den < d * r.num <= Units(r, d) * r.den
    ensures d <= 0 ==> Units(r, d) <= 0
  {
  }

  lemma EarnedIff(r: Rate, d: int)
    requires IsRate(r)
    ensures Units(r, d) > 0 <==> d * r.num >= r.den
    ensures d * r.num >= r.den ==> Units(r, d) == d * r.num / r.den
  {
  }

  /** Credit never exceeds the time it was earned in: the intervals paid for do not overlap. */
  lemma {:induction false} CreditWithinTime(r: Rate, start: int, calls: seq<Call>, now: int)
    requires IsRate(r) && InOrder(start, calls, now)
    ensures var a := Run(r, start, calls);
      start <= a.state.pass <= now && a.credit * r.den <= (a.state.pass - start) * r.num
    decreases |calls|
  {
    if calls != [] {
      var n := |calls| - 1;
      var c := calls[n];
      CreditWithinTime(r, start, calls[..n], c.t1);
      var a, b := Run(r, start, calls[..n]), Run(r, start, calls);
      UnitsBound(r, c.t1 - a.state.pass);
      if Credit(r, a.state, c) > 0 {
        assert b.state.pass == c.t2;
        PaidSum(r, a.credit, a.state.pass - start, Credit(r, a.state, c), c.t1 - a.state.pass);
        Widen(r.num, c.t1 - start, 0, c.t2 - c.t1);
      }
    }
  }

  lemma PaidSum(r: Rate, e1: int, d1: int, e2: int, d2: int)
    requires e1 * r.den <= d1 * r.num && e2 * r.den <= d2 * r.num
    ensures (e1 + e2) * r.den <= (d1 + d2) * r.num
  {
  }

  lemma Widen(m: nat, x: int, y: int, z: int)
    requires z >= 0
    ensures x * m + y * m <= (x + y + z) * m
  {
  }

  /** However often ticking is called, at most one call per unit of elapsed time is let through, plus one. */
  lemma RateBound(r: Rate, start: int, calls: seq<Call>, now: int)
    requires IsRate(r) && InOrder(start, calls, now)
    ensures Run(r, start, calls).hits <= 1 + Units(r, now - start)
  {
    var a := Run(r, start, calls);
    Conservation(r, start, calls);
    CreditWithinTime(r, start, calls, now);
    Widen(r.num, a.state.pass - start, 0, now - a.state.pass);
    UnitsBound(r, now - start);
    AtMost(a.credit, Units(r, now - start), r.den);
  }

  lemma AtMost(a: int, b: int, d: nat)
    requires d > 0 && a * d < (b + 1) * d
    ensures a <= b
  {
  }

  lemma MulMono(x: int, y: int, d: nat)
    requires x <= y
    ensures x * d <= y * d
  {
  }

  // ----- the lower bound: how much time the cuts can lose

  /** The part of a unit, times den, that one call throws away: what its division leaves when it earns credit. */
  function LostBy(r: Rate, s: State, c: Call): (lost: nat)
    requires IsRate(r)
    ensures lost < r.den
  {
    if Credit(r, s, c) > 0 then (c.t1 - s.pass) * r.num % r.den else 0
  }

  function Lost(r: Rate, start: int, calls: seq<Call>): nat
    requires IsRate(r)
  {
    if calls == [] then 0
    else
      var n := |calls| - 1;
      Lost(r, start, calls[..n]) + LostBy(r, Run(r, start, calls[..n]).state, calls[n])
  }

  lemma CreditExactly(r: Rate, s: State, c: Call)
    requires IsRate(r) && Credit(r, s, c) > 0
    ensures (c.t1 - s.pass) * r.num == Credit(r, s, c) * r.den + LostBy(r, s, c)
  {
    var n := (c.t1 - s.pass) * r.num;
    assert n > 0 && n == r.den * (n / r.den) + n % r.den;
  }

  /**
   * The exact account, for every clock and calling pattern: the time since initialize that the timer has
   * gone past, apart from the gaps between the two readings of a call, is the credit it gave plus the
   * remainders of its divisions.
   */
  lemma {:induction false} ExactLoss(r: Rate, start: int, calls: seq<Call>)
    requires IsRate(r)
    ensures var a := Run(r, start, calls);
      (a.state.pass - start - a.gaps) * r.num == a.credit * r.den + Lost(r, start, calls)
    decreases |calls|
  {
    if calls != [] {
      var n := |calls| - 1;
      var c := calls[n];
      var a := Run(r, start, calls[..n]);
      ExactLoss(r, start, calls[..n]);
      if Credit(r, a.state, c) > 0 {
        CreditExactly(r, a.state, c);
        assert c.t2 - start - (a.gaps + (c.t2 - c.t1)) == a.state.pass - start - a.gaps + (c.t1 - a.state.pass);
        Distribute(a.state.pass - start - a.gaps, c.t1 - a.state.pass, r.num);
        Distribute(a.credit, Credit(r, a.state, c), r.den);
      }
    }
  }

  lemma {:induction false} LostBound(r: Rate, start: int, calls: seq<Call>)
    requires IsRate(r)
    ensures Lost(r, start, calls) + Run(r, start, calls).credits <= Run(r, start, calls).credits * r.den
    decreases |calls|
  {
    if calls != [] {
      var n := |calls| - 1;
      LostBound(r, start, calls[..n]);
      Distribute(Run(r, start, calls[..n]).credits, 1, r.den);
    }
  }

  /** Each credit step loses less than one unit, apart from the gap between its two readings. */
  lemma LossBound(r: Rate, start: int, calls: seq<Call>)
    requires IsRate(r)
    ensures var a := Run(r, start, calls);
      (a.state.pass - start - a.gaps) * r.num <= (a.credit + a.credits) * r.den - a.credits
  {
    var a := Run(r, start, calls);
    ExactLoss(r, start, calls);
    LostBound(r, start, calls);
    Distribute(a.credit, a.credits, r.den);
  }

  /** Hence the time accounted for is less than twice the credit given for it. */
  lemma LossAtMostHalf(r: Rate, start: int, calls: seq<Call>)
    requires IsRate(r)
    ensures var a := Run(r, start, calls);
      (a.state.pass - start - a.gaps) * r.num <= 2 * a.credit * r.den - a.credits
  {
    var a := Run(r, start, calls);
    LossBound(r, start, calls);
    Conservation(r, start, calls);
    MulMono(a.credit + a.credits, 2 * a.credit, r.den);
  }

  lemma LossStep(r: Rate, x: int, d: int, e1: int, e2: int, k: int)
    requires x * r.num <= e1 * r.den - k && d * r.num < e2 * r.den
    ensures (x + d) * r.num <= (e1 + e2) * r.den - (k + 1)
  {
  }

  /** At every call that earns credit, den divides num times the difference of the two readings. */
  ghost predicate WholeSteps(r: Rate, start: int, calls: seq<Call>)
    requires IsRate(r)
  {
    calls != [] ==>
      var n := |calls| - 1;
      var s := Run(r, start, calls[..n]).state;
      && WholeSteps(r, start, calls[..n])
      && (Credit(r, s, calls[n]) > 0 ==> (calls[n].t1 - s.pass) * r.num % r.den == 0)
  }

  lemma {:induction false} NothingLostIff(r: Rate, start: int, calls: seq<Call>)
    requires IsRate(r)
    ensures Lost(r, start, calls) == 0 <==> WholeSteps(r, start, calls)
    decreases |calls|
  {
    if calls != [] {
      NothingLostIff(r, start, calls[..|calls| - 1]);
    }
  }

  /** Nothing is gained; and no time is lost if and only if the readings at every credit step differ by whole units. */
  lemma LosslessIff(r: Rate, start: int, calls: seq<Call>)
    requires IsRate(r)
    ensures var a := Run(r, start, calls);
      && a.credit * r.den <= (a.state.pass - start - a.gaps) * r.num
      && (a.credit * r.den == (a.state.pass - start - a.gaps) * r.num <==> WholeSteps(r, start, calls))
  {
    ExactLoss(r, start, calls);
    NothingLostIff(r, start, calls);
  }

  /** A unit of two ticks, and one call after three: one unit is credited, and half a unit is gone. */
  lemma HalfAUnitLost()
    ensures var a := Run(Rate(1, 2), 0, [Call(3, 3)]);
      && a.state.pass == 3 && a.gaps == 0 && a.credit == 1
      && a.credit * 2 != (a.state.pass - 0 - a.gaps) * 1
  {
    assert [Call(3, 3)][..0] == [];
    assert Run(Rate(1, 2), 0, []).state == State(0, 0);
  }

  /** A call that is not let through proves the timer has caught up: every unit credited was used, and one more. */
  lemma MissMeansCaughtUp(r: Rate, start: int, calls: seq<Call>, c: Call)
    requires IsRate(r) && InOrder(start, calls, c.t1)
    requires !Hit(r, Run(r, start, calls).state, c)
    ensures var a := Run(r, start, calls);
      && a.hits == 1 + a.credit
      && 0 <= (c.t1 - a.state.pass) * r.num < r.den
  {
    var a := Run(r, start, calls);
    Conservation(r, start, calls);
    CreditWithinTime(r, start, calls, c.t1);
    UnitsBound(r, c.t1 - a.state.pass);
    assert Credit(r, a.state, c) == 0;
    MulMono(0, c.t1 - a.state.pass, r.num);
    MulMono(Units(r, c.t1 - a.state.pass) + 1, 1, r.den);
  }

  /** At every miss the calls let through make up for at least half of the elapsed time, whatever the calling pattern. */
  lemma HalfRateAtMiss(r: Rate, start: int, calls: seq<Call>, c: Call)
    requires IsRate(r) && InOrder(start, calls, c.t1)
    requires !Hit(r, Run(r, start, calls).state, c)
    ensures var a := Run(r, start, calls);
      (c.t1 - start - a.gaps) * r.num < (2 * a.hits - 1) * r.den
  {
    var a := Run(r, start, calls);
    MissMeansCaughtUp(r, start, calls, c);
    LossAtMostHalf(r, start, calls);
    LossStep(r, a.state.pass - start - a.gaps, c.t1 - a.state.pass, 2 * a.credit, 1, 0);
    assert 2 * a.credit + 1 == 2 * a.hits - 1;
  }

  // ----- the lower bound when the timer is called often

  function LastCall(start: int, calls: seq<Call>): int {
    if calls == [] then start else calls[|calls| - 1].t1
  }

  /** No two calls are further than delta apart. */
  ghost predicate Polled(start: int, calls: seq<Call>, delta: int) {
    calls != [] ==>
      var n := |calls| - 1;
      Polled(start, calls[..n], delta) && calls[n].t1 - LastCall(start, calls[..n]) <= delta
  }

  /** The invariant of a timer that is called at least once per unit. */
  ghost predicate OnTime(r: Rate, start: int, a: Account, last: int, delta: nat) {
    && a.credit == a.credits
    && (a.state.pass - start - a.gaps) * r.num <= a.credit * (r.den + delta * r.num)
    && (last - a.state.pass) * r.num < r.den
  }

  lemma OnTimeStep(r: Rate, start: int, a: Account, last: int, c: Call, delta: nat)
    requires IsRate(r) && OnTime(r, start, a, last, delta) && delta * r.num < r.den
    requires a.state.pass <= c.t1 <= c.t2 && c.t1 - last <= delta
    ensures OnTime(r, start, Next(r, a, c), c.t1, delta)
  {
    var d := c.t1 - a.state.pass;
    UnitsBound(r, d);
    MulMono(c.t1 - last, delta, r.num);
    Distribute(c.t1 - last, last - a.state.pass, r.num);
    assert d * r.num < r.den + delta * r.num;
    AtMost(Units(r, d), 1, r.den);
    if Units(r, d) <= 0 {
      MulMono(Units(r, d) + 1, 1, r.den);
    } else {
      var x := a.state.pass - start - a.gaps;
      assert c.t2 - start - (a.gaps + (c.t2 - c.t1)) == x + d;
      Distribute(x, d, r.num);
      Distribute(a.credit, 1, r.den + delta * r.num);
      MulMono(c.t1 - c.t2, 0, r.num);
    }
  }

  /** Called at least once per unit, the timer credits one unit at a time and is late by at most delta each time. */
  lemma {:induction false} PolledDrift(r: Rate, start: int, calls: seq<Call>, now: int, delta: nat)
    requires IsRate(r) && InOrder(start, calls, now)
    requires Polled(start, calls, delta) && delta * r.num < r.den
    ensures OnTime(r, start, Run(r, start, calls), LastCall(start, calls), delta)
    decreases |calls|
  {
    if calls != [] {
      var n := |calls| - 1;
      PolledDrift(r, start, calls[..n], calls[n].t1, delta);
      CreditWithinTime(r, start, calls[..n], calls[n].t1);
      OnTimeStep(r, start, Run(r, start, calls[..n]), LastCall(start, calls[..n]), calls[n], delta);
    }
  }

  lemma Distribute(x: int, y: int, m: int)
    ensures (x + y) * m == x * m + y * m
  {
  }

  /** Called at least every delta, at every miss the calls let through cover the elapsed time at one per unit plus delta. */
  lemma PolledRateAtMiss(r: Rate, start: int, calls: seq<Call>, c: Call, delta: nat)
    requires IsRate(r) && InOrder(start, calls, c.t1)
    requires Polled(start, calls, delta) && delta * r.num < r.den
    requires !Hit(r, Run(r, start, calls).state, c)
    ensures var a := Run(r, start, calls);
      (c.t1 - start - a.gaps) * r.num < a.hits * (r.den + delta * r.num)
  {
    var a := Run(r, start, calls);
    MissMeansCaughtUp(r, start, calls, c);
    PolledDrift(r, start, calls, c.t1, delta);
    Distribute(a.state.pass - start - a.gaps, c.t1 - a.state.pass, r.num);
    Distribute(a.credit, 1, r.den + delta * r.num);
    MulMono(0, delta, r.num);
  }

  // ----- catching up

  function StepAll(r: Rate, s: State, calls: seq<Call>): State
    requires IsRate(r)
    decreases |calls|
  {
    if calls == [] then s else StepAll(r, Step(r, s, calls[0]), calls[1..])
  }

  /** A ticker of b lets the next b + 1 calls through, whatever the clock says. */
  lemma {:induction false} CatchUp(r: Rate, s: State, calls: seq<Call>, k: nat)
    requires IsRate(r) && k <= s.ticker && k < |calls|
    ensures Hit(r, StepAll(r, s, calls[..k]), calls[k])
    decreases k
  {
    if k > 0 {
      var s' := Step(r, s, calls[0]);
      assert s'.ticker >= s.ticker - 1;
      CatchUp(r, s', calls[1..], k - 1);
      assert calls[..k][1..] == calls[1..][..k - 1];
    }
  }

  /** Without new credit the call after those is not let through, so the backlog is exactly b + 1 calls. */
  lemma {:induction false} CatchUpEnds(r: Rate, s: State, calls: seq<Call>)
    requires IsRate(r) && -1 <= s.ticker && |calls| == s.ticker + 2
    requires forall i :: 0 <= i < |calls| ==> Units(r, calls[i].t1 - s.pass) <= 0
    ensures !Hit(r, StepAll(r, s, calls[..|calls| - 1]), calls[|calls| - 1])
    decreases |calls|
  {
    if s.ticker >= 0 {
      var s' := Step(r, s, calls[0]);
      assert s' == State(s.pass, s.ticker - 1);
      CatchUpEnds(r, s', calls[1..]);
      assert calls[..|calls| - 1][1..] == calls[1..][..|calls| - 2];
    }
  }
}
