/**
 * LuMyApp (project/app/myapp.cpp): the main loop that calls LoopMSec every
 * iteration and LoopFps and LoopSec as their timers allow.
 *
 * The callbacks are pure virtual in the source; here the n-th callback of the run
 * may call Exit or not (quits).  Clock readings are the clock's, in any monotone order.
 */
module FrameLoop {
  import opened TickTimer

  const CLOCK_HZ := 1_000_000_000
  const GAME_FPS := 18

  /** duration<int64_t, ratio<1, GAME_FPS>> and std::chrono::seconds over a nanosecond clock */
  const FPS := Rate(GAME_FPS, CLOCK_HZ)
  const SEC := Rate(1, CLOCK_HZ)

  /** duration_cast works with the ratio in lowest terms; the count is the same. */
  lemma FpsInLowestTerms(d: int)
    ensures Units(FPS, d) == Units(Rate(9, 500_000_000), d)
  {
  }

  datatype Event = MSec | Fps | Sec

  /** What the environment decides: the clock and which callbacks call Exit. */
  datatype World = World(at: nat -> int, quits: nat -> bool)

  /** One timer: its fields and its calls since Init read the clock at start. */
  datatype Timer = Timer(state: State, start: int, calls: seq<Call>)

  datatype App = App(fps: Timer, sec: Timer, running: bool, log: seq<Event>, taken: nat)

  // ----- specification

  /** One call of ticking at reading k: the timer after it, its result and the next reading. */
  datatype Ticked = Ticked(timer: Timer, hit: bool, taken: nat)

  function Tick(r: Rate, t: Timer, at: nat -> int, k: nat): Ticked
    requires IsRate(r)
  {
    var c := CallAt(r, t.state, at, k);
    Ticked(Timer(Step(r, t.state, c), t.start, t.calls + [c]), Hit(r, t.state, c), k + ReadingsOf(r, t.state, c))
  }

  /** A timer as initialize leaves it. */
  function Fresh(start: int): Timer {
    Timer(State(start, 0), start, [])
  }

  /** A callback: it is logged, and it may call Exit. */
  function Fire(w: World, a: App, e: Event): App {
    a.(log := a.log + [e], running := a.running && !w.quits(|a.log|))
  }

  function TickFps(w: World, a: App): App {
    var t := Tick(FPS, a.fps, w.at, a.taken);
    var b := a.(fps := t.timer, taken := t.taken);
    if t.hit then Fire(w, b, Fps) else b
  }

  function TickSec(w: World, a: App): App {
    var t := Tick(SEC, a.sec, w.at, a.taken);
    var b := a.(sec := t.timer, taken := t.taken);
    if t.hit then Fire(w, b, Sec) else b
  }

  function Frame(w: World, a: App): App {
    TickSec(w, TickFps(w, Fire(w, a, MSec)))
  }

  /** while(m_bRun) with any loop body: the state after n iterations, or fewer if the loop has ended. */
  function Iterate(body: App -> App, a: App, n: nat): App {
    if n == 0 then a
    else
      var b := Iterate(body, a, n - 1);
      if b.running then body(b) else b
  }

  function FrameBody(w: World): App -> App {
    (a: App) => Frame(w, a)
  }

  function Frames(w: World, a: App, n: nat): App {
    Iterate(FrameBody(w), a, n)
  }

  // ----- the class

  ghost function TimerView(t: LUTimer): Timer
    reads t
  {
    Timer(State(t.pass, t.ticker), t.start, t.calls)
  }

  class LuMyApp {
    const clock: Clock
    const timerSec: LUTimer
    const timerFps: LUTimer
    const quits: nat -> bool
    var running: bool
    var log: seq<Event>

    ghost predicate Valid()
      reads this, clock, timerSec, timerFps
    {
      && timerSec != timerFps
      && timerSec.rate == SEC && timerSec.Valid()
      && timerFps.rate == FPS && timerFps.Valid()
    }

    ghost function Environment(): World
    {
      World(clock.at, quits)
    }

    ghost function View(): App
      reads this, clock, timerSec, timerFps
    {
      App(TimerView(timerFps), TimerView(timerSec), running, log, clock.taken)
    }

    constructor (clock: Clock, quits: nat -> bool)
      modifies clock
      ensures Valid() && !running && log == [] && this.clock == clock && this.quits == quits
      ensures clock.taken == old(clock.taken) + 4
      ensures fresh(timerSec) && fresh(timerFps)
    {
      this.clock := clock;
      this.quits := quits;
      running := false;
      log := [];
      var sec := new LUTimer(SEC, clock);
      var fps := new LUTimer(FPS, clock);
      timerSec := sec;
      timerFps := fps;
    }

    method Init() returns (result: int)
      requires Valid()
      modifies this, clock, timerSec, timerFps
      ensures Valid() && result == 1
      ensures
        var k := old(clock.taken);
        View() == App(Fresh(clock.at(k + 3)), Fresh(clock.at(k + 1)), old(running), old(log), k + 4)
    {
      timerSec.Initialize(clock);
      timerFps.Initialize(clock);
      result := 1;
    }

    method Exit()
      modifies this`running
      ensures !running
    {
      running := false;
    }

    /** LoopMSec, LoopFps and LoopSec: application code that may call Exit. */
    method Callback(e: Event)
      modifies this
      ensures running == (old(running) && !quits(|old(log)|)) && log == old(log) + [e]
    {
      log := log + [e];
      if quits(|log| - 1) {
        Exit();
      }
    }

    method Loop()
      requires Valid()
      modifies this, clock, timerSec, timerFps
      ensures Valid() && View() == Frame(Environment(), old(View()))
    {
      Callback(MSec);
      FpsIfDue();
      SecIfDue();
    }

    method FpsIfDue()
      requires Valid()
      modifies this, clock, timerFps
      ensures Valid() && View() == TickFps(Environment(), old(View()))
      ensures
        // with the usual ticker of -1: an eighteenth of a second has passed since m_pass
        var behind, passed := -old(timerFps.ticker), clock.at(old(clock.taken)) - old(timerFps.pass);
        log == old(log) + (if behind <= 0 || 18 * passed >= behind * 1_000_000_000 then [Fps] else [])
    {
      DueIff(18 * (clock.at(clock.taken) - timerFps.pass), -timerFps.ticker);
      var hit := timerFps.Ticking(clock);
      if hit {
        Callback(Fps);
      }
    }

    method SecIfDue()
      requires Valid()
      modifies this, clock, timerSec
      ensures Valid() && View() == TickSec(Environment(), old(View()))
      ensures
        // with the usual ticker of -1: a second has passed since m_pass
        var behind, passed := -old(timerSec.ticker), clock.at(old(clock.taken)) - old(timerSec.pass);
        log == old(log) + (if behind <= 0 || passed >= behind * 1_000_000_000 then [Sec] else [])
    {
      DueIff((clock.at(clock.taken) - timerSec.pass), -timerSec.ticker);
      var hit := timerSec.Ticking(clock);
      if hit {
        Callback(Sec);
      }
    }

    /** Run, observed for at most limit iterations. */
    method Run(limit: nat)
      requires Valid()
      modifies this, clock, timerSec, timerFps
      ensures Valid() && View() == Frames(Environment(), old(View()).(running := true), limit)
    {
      running := true;
      ghost var a := View();
      var i := 0;
      while running && i < limit
        invariant i <= limit && Valid()
        invariant View() == Frames(Environment(), a, i)
      {
        Loop();
        i := i + 1;
      }
      Ended(FrameBody(Environment()), a, i, limit);
    }
  }

  lemma {:induction false} Ended(body: App -> App, a: App, n: nat, m: nat)
    requires n <= m && (n == m || !Iterate(body, a, n).running)
    ensures Iterate(body, a, m) == Iterate(body, a, n)
    decreases m
  {
    if n < m {
      Ended(body, a, n, m - 1);
    }
  }

  lemma DueIff(n: int, behind: int)
    ensures behind <= 0 || n >= behind * 1_000_000_000 <==>
      (if n >= 1_000_000_000 then n / 1_000_000_000 else 0) >= behind
  {
  }

  // ----- every finite prefix of a run

  /** How often event e has happened. */
  function Count(log: seq<Event>, e: Event): nat {
    if log == [] then 0
    else Count(log[..|log| - 1], e) + (if log[|log| - 1] == e then 1 else 0)
  }

  /** The three counts after one more event. */
  lemma CountsSnoc(log: seq<Event>, e: Event)
    ensures Count(log + [e], MSec) == Count(log, MSec) + (if e == MSec then 1 else 0)
    ensures Count(log + [e], Fps) == Count(log, Fps) + (if e == Fps then 1 else 0)
    ensures Count(log + [e], Sec) == Count(log, Sec) + (if e == Sec then 1 else 0)
  {
  }

  predicate InPlace(log: seq<Event>, k: nat)
    requires k < |log|
  {
    match log[k]
    case MSec => true
    case Fps => k > 0 && log[k - 1] == MSec
    case Sec => k > 0 && log[k - 1] != Sec
  }

  /** Each iteration is LoopMSec, then LoopFps at most once, then LoopSec at most once. */
  ghost predicate InBlocks(log: seq<Event>) {
    forall k :: 0 <= k < |log| ==> InPlace(log, k)
  }

  /**
   * What holds at every point of the loop; the loop has entered one more iteration than the
   * fps timer (sec timer) has been asked if fpsDue (secDue).
   */
  ghost predicate Invariant(w: World, a: App, fpsDue: bool, secDue: bool) {
    && a.taken > 0
    && InBlocks(a.log)
    && Count(a.log, Fps) == Run(FPS, a.fps.start, a.fps.calls).hits
    && Count(a.log, Sec) == Run(SEC, a.sec.start, a.sec.calls).hits
    && Count(a.log, MSec) == |a.fps.calls| + (if fpsDue then 1 else 0)
    && Count(a.log, MSec) == |a.sec.calls| + (if secDue then 1 else 0)
    && a.fps.state == Run(FPS, a.fps.start, a.fps.calls).state
    && a.sec.state == Run(SEC, a.sec.start, a.sec.calls).state
    && InOrder(a.fps.start, a.fps.calls, w.at(a.taken - 1))
    && InOrder(a.sec.start, a.sec.calls, w.at(a.taken - 1))
  }

  /** The state Init leaves when no callback has run yet. */
  predicate Initialized(w: World, a: App) {
    a.taken >= 4 && a.log == [] &&
    a.fps == Fresh(w.at(a.taken - 1)) && a.sec == Fresh(w.at(a.taken - 3))
  }

  lemma InOrderLater(start: int, calls: seq<Call>, now: int, later: int)
    requires InOrder(start, calls, now) && now <= later
    ensures InOrder(start, calls, later)
  {
  }

  lemma InBlocksSnoc(log: seq<Event>, e: Event)
    requires InBlocks(log) && InPlace(log + [e], |log|)
    ensures InBlocks(log + [e])
  {
    forall k | 0 <= k < |log + [e]|
      ensures InPlace(log + [e], k)
    {
      if k < |log| {
        assert InPlace(log, k);
      }
    }
  }

  lemma TickRuns(r: Rate, t: Timer, at: nat -> int, k: nat)
    requires IsRate(r) && t.state == Run(r, t.start, t.calls).state
    ensures var t' := Tick(r, t, at, k);
      var a := Run(r, t.start, t'.timer.calls);
      && t'.timer.start == t.start && t'.timer.state == a.state
      && a.hits == Run(r, t.start, t.calls).hits + (if t'.hit then 1 else 0)
  {
  }

  lemma TickInOrder(r: Rate, t: Timer, at: nat -> int, k: nat)
    requires IsRate(r) && Monotone(at) && k > 0
    requires InOrder(t.start, t.calls, at(k - 1))
    ensures var t' := Tick(r, t, at, k);
      at(k - 1) <= at(t'.taken - 1) && InOrder(t.start, t'.timer.calls, at(t'.taken - 1))
  {
  }

  lemma MSecKeeps(w: World, a: App)
    requires Invariant(w, a, false, false)
    ensures Invariant(w, Fire(w, a, MSec), true, true)
  {
    InBlocksSnoc(a.log, MSec);
    CountsSnoc(a.log, MSec);
  }

  lemma FpsKeeps(w: World, a: App)
    requires Monotone(w.at) && Invariant(w, a, true, true)
    requires a.log != [] && a.log[|a.log| - 1] == MSec
    ensures Invariant(w, TickFps(w, a), false, true)
    ensures var log := TickFps(w, a).log; log != [] && log[|log| - 1] != Sec
  {
    TickInOrder(FPS, a.fps, w.at, a.taken);
    TickRuns(FPS, a.fps, w.at, a.taken);
    InOrderLater(a.sec.start, a.sec.calls, w.at(a.taken - 1), w.at(TickFps(w, a).taken - 1));
    InBlocksIf(a.log, Fps);
    CountsSnoc(a.log, Fps);
  }

  lemma SecKeeps(w: World, a: App)
    requires Monotone(w.at) && Invariant(w, a, false, true)
    requires a.log != [] && a.log[|a.log| - 1] != Sec
    ensures Invariant(w, TickSec(w, a), false, false)
  {
    TickInOrder(SEC, a.sec, w.at, a.taken);
    TickRuns(SEC, a.sec, w.at, a.taken);
    InOrderLater(a.fps.start, a.fps.calls, w.at(a.taken - 1), w.at(TickSec(w, a).taken - 1));
    InBlocksIf(a.log, Sec);
    CountsSnoc(a.log, Sec);
  }

  lemma InBlocksIf(log: seq<Event>, e: Event)
    requires InBlocks(log) && log != [] && e != MSec
    requires log[|log| - 1] == MSec || (e == Sec && log[|log| - 1] == Fps)
    ensures InBlocks(log + [e])
  {
    InBlocksSnoc(log, e);
  }

  /** The invariant between iterations, for a run that started at a. */
  ghost predicate Between(w: World, a: App, b: App) {
    && Invariant(w, b, false, false)
    && b.fps.start == a.fps.start && b.sec.start == a.sec.start
  }

  lemma FrameKeeps(w: World, a: App, b: App)
    requires Monotone(w.at) && Between(w, a, b)
    ensures Between(w, a, Frame(w, b)) && |Frame(w, b).fps.calls| == |b.fps.calls| + 1
  {
    MSecKeeps(w, b);
    FpsKeeps(w, Fire(w, b, MSec));
    SecKeeps(w, TickFps(w, Fire(w, b, MSec)));
    FrameCounts(w, b);
  }

  lemma FrameCounts(w: World, a: App)
    ensures |Frame(w, a).fps.calls| == |a.fps.calls| + 1
    ensures Frame(w, a).fps.start == a.fps.start && Frame(w, a).sec.start == a.sec.start
  {
  }

  /** A property that holds before the loop and is kept by its body holds after any number of iterations. */
  lemma {:induction false} IterateKeeps(inv: App -> bool, body: App -> App, a: App, n: nat)
    requires inv(a) && forall b: App :: inv(b) ==> inv(body(b))
    ensures inv(Iterate(body, a, n))
  {
    if n > 0 {
      IterateKeeps(inv, body, a, n - 1);
    }
  }

  lemma {:induction false} IterateCalls(body: App -> App, a: App, n: nat)
    requires forall b: App :: |body(b).fps.calls| == |b.fps.calls| + 1
    ensures |Iterate(body, a, n).fps.calls| <= |a.fps.calls| + n
  {
    if n > 0 {
      IterateCalls(body, a, n - 1);
    }
  }

  /** The invariant holds after every number of iterations. */
  lemma FramesKeep(w: World, a: App, n: nat)
    requires Monotone(w.at) && Initialized(w, a)
    ensures Between(w, a, Frames(w, a, n)) && |Frames(w, a, n).fps.calls| <= n
  {
    assert w.at(a.taken - 3) <= w.at(a.taken - 1);
    forall b: App
      ensures Between(w, a, b) ==> Between(w, a, FrameBody(w)(b))
      ensures |FrameBody(w)(b).fps.calls| == |b.fps.calls| + 1
    {
      FrameCounts(w, b);
      if Between(w, a, b) {
        FrameKeeps(w, a, b);
      }
    }
    IterateKeeps((b: App) => Between(w, a, b), FrameBody(w), a, n);
    IterateCalls(FrameBody(w), a, n);
  }

  /** The bounds and the order of the callbacks, when Init read the clock at fpsStart and secStart. */
  ghost predicate WithinBounds(w: World, n: nat, fpsStart: int, secStart: int, b: App) {
    && b.taken > 0 && InBlocks(b.log)
    && Count(b.log, MSec) == |b.fps.calls| == |b.sec.calls| <= n
    && Count(b.log, Fps) <= Count(b.log, MSec)
    && Count(b.log, Sec) <= Count(b.log, MSec)
    && (Count(b.log, Fps) - 1) * 1_000_000_000 <= 18 * (w.at(b.taken - 1) - fpsStart)
    && (Count(b.log, Sec) - 1) * 1_000_000_000 <= w.at(b.taken - 1) - secStart
  }

  /**
   * Over every prefix of every run: LoopFps is called at most once per iteration and at most
   * 1 + 18 E times, LoopSec at most once per iteration and at most 1 + E times, for E seconds
   * of a nanosecond clock since Init; the callbacks come in the order of the loop body.
   */
  lemma CallbackBounds(w: World, a: App, n: nat)
    requires Monotone(w.at) && Initialized(w, a)
    ensures WithinBounds(w, n, a.fps.start, a.sec.start, Frames(w, a, n))
  {
    FramesKeep(w, a, n);
    BoundsOf(w, Frames(w, a, n));
  }

  lemma BoundsOf(w: World, b: App)
    requires Invariant(w, b, false, false)
    ensures Count(b.log, MSec) == |b.fps.calls|
    ensures Count(b.log, Fps) <= Count(b.log, MSec)
    ensures Count(b.log, Sec) <= Count(b.log, MSec)
    ensures (Count(b.log, Fps) - 1) * 1_000_000_000 <= 18 * (w.at(b.taken - 1) - b.fps.start)
    ensures (Count(b.log, Sec) - 1) * 1_000_000_000 <= w.at(b.taken - 1) - b.sec.start
  {
    CreditWithinTime(FPS, b.fps.start, b.fps.calls, w.at(b.taken - 1));
    CreditWithinTime(SEC, b.sec.start, b.sec.calls, w.at(b.taken - 1));
    UnitsBound(FPS, w.at(b.taken - 1) - b.fps.start);
    UnitsBound(SEC, w.at(b.taken - 1) - b.sec.start);
    RateBound(FPS, b.fps.start, b.fps.calls, w.at(b.taken - 1));
    RateBound(SEC, b.sec.start, b.sec.calls, w.at(b.taken - 1));
    HitsAtMostCalls(FPS, b.fps.start, b.fps.calls);
    HitsAtMostCalls(SEC, b.sec.start, b.sec.calls);
  }

  lemma {:induction false} HitsAtMostCalls(r: Rate, start: int, calls: seq<Call>)
    requires IsRate(r)
    ensures Run(r, start, calls).hits <= |calls|
    decreases |calls|
  {
    if calls != [] {
      HitsAtMostCalls(r, start, calls[..|calls| - 1]);
    }
  }

  /** Callback number k was the one that called Exit. */
  predicate ExitIn(w: World, from: nat, to: nat) {
    exists k: nat :: from <= k < to && w.quits(k)
  }

  lemma FrameRunning(w: World, a: App)
    requires a.running
    ensures |Frame(w, a).log| > |a.log|
    ensures Frame(w, a).running <==> !ExitIn(w, |a.log|, |Frame(w, a).log|)
  {
  }

  lemma ExitInSplit(w: World, x: nat, y: nat, z: nat)
    requires x <= y <= z
    ensures ExitIn(w, x, z) <==> ExitIn(w, x, y) || ExitIn(w, y, z)
  {
  }

  /** A loop body whose callbacks are the only way to end the loop. */
  ghost predicate EndsByExit(w: World, body: App -> App) {
    forall b: App :: b.running ==>
      && |body(b).log| >= |b.log|
      && (body(b).running <==> !ExitIn(w, |b.log|, |body(b).log|))
  }

  /** The loop body is one of those, so the two laws below are laws of Run. */
  lemma FrameEndsByExit(w: World)
    ensures EndsByExit(w, FrameBody(w))
  {
    forall b: App | b.running
      ensures |FrameBody(w)(b).log| >= |b.log|
      ensures FrameBody(w)(b).running <==> !ExitIn(w, |b.log|, |FrameBody(w)(b).log|)
    {
      FrameRunning(w, b);
    }
  }

  /** The loop goes on exactly as long as no callback has called Exit. */
  lemma {:induction false} LoopUntilExit(w: World, body: App -> App, a: App, n: nat)
    requires a.running && EndsByExit(w, body)
    ensures |Iterate(body, a, n).log| >= |a.log|
    ensures Iterate(body, a, n).running <==> !ExitIn(w, |a.log|, |Iterate(body, a, n).log|)
  {
    if n > 0 {
      LoopUntilExit(w, body, a, n - 1);
      var b := Iterate(body, a, n - 1);
      if b.running {
        ExitInSplit(w, |a.log|, |b.log|, |body(b).log|);
      }
    }
  }

  lemma {:induction false} FirstEnd(w: World, body: App -> App, a: App, n: nat) returns (last: nat)
    requires a.running && !Iterate(body, a, n).running
    ensures 0 < last <= n && Iterate(body, a, last - 1).running && !Iterate(body, a, last).running
    decreases n
  {
    if Iterate(body, a, n - 1).running {
      last := n;
    } else {
      last := FirstEnd(w, body, a, n - 1);
    }
  }

  /**
   * Once a callback has called Exit, the iteration it happened in is the last one: it is completed,
   * and no further callback runs, however much longer Run is watched.
   */
  lemma ExitEndsLoop(w: World, body: App -> App, a: App, n: nat) returns (last: nat)
    requires EndsByExit(w, body) && a.running && !Iterate(body, a, n).running
    ensures last <= n && EndedAt(w, body, a, last)
  {
    last := FirstEnd(w, body, a, n);
    LoopUntilExit(w, body, a, last - 1);
    ExitOfLast(w, body, a, last);
    forall m: nat | m >= last
      ensures Iterate(body, a, m) == Iterate(body, a, last)
    {
      Ended(body, a, last, m);
    }
  }

  /** The first Exit is called in iteration number last; that iteration is completed, and it is the last. */
  ghost predicate EndedAt(w: World, body: App -> App, a: App, last: nat) {
    && last > 0
    && !ExitIn(w, |a.log|, |Iterate(body, a, last - 1).log|)
    && ExitIn(w, |Iterate(body, a, last - 1).log|, |Iterate(body, a, last).log|)
    && forall m: nat :: m >= last ==> Iterate(body, a, m) == Iterate(body, a, last)
  }

  ghost predicate GoesOnUntilExit(w: World, body: App -> App, a: App, n: nat) {
    Iterate(body, a, n).running <==> !ExitIn(w, |a.log|, |Iterate(body, a, n).log|)
  }

  /** The laws of Run: it goes on exactly as long as no callback has called Exit, */
  lemma RunsUntilExit(w: World, a: App, n: nat)
    requires a.running
    ensures GoesOnUntilExit(w, FrameBody(w), a, n)
  {
    FrameEndsByExit(w);
    GoesOn(w, FrameBody(w), a, n);
  }

  lemma GoesOn(w: World, body: App -> App, a: App, n: nat)
    requires a.running && EndsByExit(w, body)
    ensures GoesOnUntilExit(w, body, a, n)
  {
    LoopUntilExit(w, body, a, n);
  }

  /** and the iteration in which one first does is its last. */
  lemma ExitEndsRun(w: World, a: App, n: nat) returns (last: nat)
    requires a.running && !Iterate(FrameBody(w), a, n).running
    ensures last <= n && EndedAt(w, FrameBody(w), a, last)
  {
    FrameEndsByExit(w);
    last := ExitEndsLoop(w, FrameBody(w), a, n);
  }

  lemma ExitOfLast(w: World, body: App -> App, a: App, last: nat)
    requires EndsByExit(w, body) && last > 0
    requires Iterate(body, a, last - 1).running && !Iterate(body, a, last).running
    ensures ExitIn(w, |Iterate(body, a, last - 1).log|, |Iterate(body, a, last).log|)
  {
  }

  /**
   * The exit law, read off a run: it is still going exactly if no callback has called Exit, and then
   * the frame timer has been asked in each of the n iterations; and after a callback that called Exit
   * no further iteration begins.
   */
  ghost predicate ExitLaw(w: World, n: nat, b: App) {
    && (b.running <==> !ExitIn(w, 0, |b.log|))
    && (b.running ==> |b.fps.calls| == n)
    && forall k: nat, j: nat :: k < j < |b.log| && w.quits(k) ==> b.log[j] != MSec
  }

  /** A loop body that begins with LoopMSec, calls it once, asks the frame timer once, and ends only by Exit. */
  ghost predicate Orderly(w: World, body: App -> App) {
    && EndsByExit(w, body)
    && forall b: App ::
        && b.log <= body(b).log
        && (forall j :: |b.log| < j < |body(b).log| ==> body(b).log[j] != MSec)
        && |body(b).fps.calls| == |b.fps.calls| + 1
  }

  lemma FrameOnlyAppends(w: World, b: App)
    ensures b.log <= Frame(w, b).log
    ensures forall j :: |b.log| < j < |Frame(w, b).log| ==> Frame(w, b).log[j] != MSec
  {
  }

  lemma FrameOrderly(w: World)
    ensures Orderly(w, FrameBody(w))
  {
    FrameEndsByExit(w);
    forall b: App
      ensures b.log <= FrameBody(w)(b).log
      ensures forall j :: |b.log| < j < |FrameBody(w)(b).log| ==> FrameBody(w)(b).log[j] != MSec
      ensures |FrameBody(w)(b).fps.calls| == |b.fps.calls| + 1
    {
      FrameOnlyAppends(w, b);
      FrameCounts(w, b);
    }
  }

  lemma ExitLawStep(w: World, body: App -> App, n: nat, b: App)
    requires Orderly(w, body) && ExitLaw(w, n, b) && b.running
    ensures ExitLaw(w, n + 1, body(b))
  {
    ExitInSplit(w, 0, |b.log|, |body(b).log|);
  }

  lemma {:induction false} ExitLawOfLoop(w: World, body: App -> App, a: App, n: nat)
    requires Orderly(w, body) && a.running && a.log == [] && a.fps.calls == []
    ensures ExitLaw(w, n, Iterate(body, a, n))
  {
    if n > 0 {
      ExitLawOfLoop(w, body, a, n - 1);
      if Iterate(body, a, n - 1).running {
        ExitLawStep(w, body, n - 1, Iterate(body, a, n - 1));
      }
    }
  }

  lemma ExitLawOfFrames(w: World, a: App, n: nat)
    requires a.running && a.log == [] && a.fps.calls == []
    ensures ExitLaw(w, n, Frames(w, a, n))
  {
    FrameOrderly(w);
    ExitLawOfLoop(w, FrameBody(w), a, n);
  }

  /**
   * A new application, Init, and Run observed for n iterations: the callback bounds over the time since
   * the clock readings of Init, the order of the callbacks, and the exit law.
   */
  method InitAndRun(clock: Clock, quits: nat -> bool, n: nat) returns (app: LuMyApp)
    requires Monotone(clock.at)
    modifies clock
    ensures fresh(app) && app.Valid() && app.clock == clock && app.quits == quits
    ensures var k := old(clock.taken);
      WithinBounds(World(clock.at, quits), n, clock.at(k + 7), clock.at(k + 5), app.View())
    ensures ExitLaw(World(clock.at, quits), n, app.View())
  {
    ghost var w := World(clock.at, quits);
    app := new LuMyApp(clock, quits);
    var _ := app.Init();
    ghost var a := app.View().(running := true);
    app.Run(n);
    CallbackBounds(w, a, n);
    ExitLawOfFrames(w, a, n);
  }
}
