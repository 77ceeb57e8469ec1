/**
 * The adapters that keep the interest as a bit mask: libuv.h and glib.h.
 *
 * Their library callbacks hand events to hiredis, whose handlers may call any hook
 * and may tear the connection down (cleanup) before they return.  A handler is
 * therefore given as the list of things it does.
 */
module MaskAdapters {
  import opened EventAdapters

  /** What a handler, or hiredis on its own, may do to the adapter. */
  datatype Act = Do(h: Hook) | CleanUp

  function HooksOf(acts: seq<Act>): seq<Hook> {
    if acts == [] then []
    else
      var front := HooksOf(acts[..|acts| - 1]);
      match acts[|acts| - 1]
      case Do(h) => front + [h]
      case CleanUp => front
  }

  lemma HooksOfSnoc(i: Interest, acts: seq<Act>, k: nat)
    requires k < |acts|
    ensures ApplyAll(i, HooksOf(acts[..k + 1])) ==
      match acts[k]
      case Do(h) => Apply(ApplyAll(i, HooksOf(acts[..k])), h)
      case CleanUp => ApplyAll(i, HooksOf(acts[..k]))
  {
    assert acts[..k + 1][..k] == acts[..k];
    var front := HooksOf(acts[..k]);
    if acts[k].Do? {
      assert (front + [acts[k].h])[..|front|] == front;
    }
  }

  lemma {:induction false} HooksOfAppend(i: Interest, a: seq<Act>, b: seq<Act>)
    ensures ApplyAll(i, HooksOf(a + b)) == ApplyAll(ApplyAll(i, HooksOf(a)), HooksOf(b))
    decreases |b|
  {
    if b == [] {
      assert a + b == a;
    } else {
      var n := |b| - 1;
      HooksOfAppend(i, a, b[..n]);
      HooksOfSnoc(i, a + b, |a| + n);
      HooksOfSnoc(ApplyAll(i, HooksOf(a)), b, n);
      assert (a + b)[..|a| + n] == a + b[..n];
      assert (a + b)[..|a| + n + 1] == a + b && b[..n + 1] == b;
    }
  }

  /** What is asked for one after the other: of each act its hook, and no hook for a cleanup. */
  lemma {:induction false} HooksOfEach(a: seq<Act>, b: seq<Act>, h: Hook)
    ensures HooksOf(a + b) == HooksOf(a) + HooksOf(b)
    ensures HooksOf([Do(h)]) == [h] && HooksOf([CleanUp]) == []
    decreases |b|
  {
    assert [Do(h)][..0] == [] && [CleanUp][..0] == [];
    if b == [] {
      assert a + b == a;
    } else {
      HooksOfEach(a, b[..|b| - 1], h);
      assert (a + b)[..|a + b| - 1] == a + b[..|b| - 1];
    }
  }

  // ----- libuv.h

  const UV_READABLE: bv32 := 1
  const UV_WRITABLE: bv32 := 2

  function UvInterest(events: bv32): Interest {
    Interest(events & UV_READABLE != 0, events & UV_WRITABLE != 0)
  }

  function UvMask(i: Interest): bv32 {
    (if i.read then UV_READABLE else 0) | (if i.write then UV_WRITABLE else 0)
  }

  /** One thing that happens to an attached adapter: hiredis acts, or the loop delivers events. */
  datatype Input =
    | Acts(acts: seq<Act>)
    | Event(status: int, events: bv32, onRead: seq<Act>, onWrite: seq<Act>)

  /** A delivered event reaches the read handler if the context is still there. */
  predicate ReadRuns(alive: bool, e: Input)
    requires e.Event?
  {
    alive && e.status == 0 && e.events & UV_READABLE != 0
  }

  /** The write handler also needs the read handler of the same event not to have cleaned up. */
  predicate WriteRuns(alive: bool, e: Input)
    requires e.Event?
  {
    alive && e.status == 0 && e.events & UV_WRITABLE != 0 && !(ReadRuns(alive, e) && CleanUp in e.onRead)
  }

  function Handled(alive: bool, e: Input): seq<Direction> {
    match e
    case Acts(_) => []
    case Event(_, _, _, _) =>
      if ReadRuns(alive, e) then (if WriteRuns(alive, e) then [Read, Write] else [Read])
      else if WriteRuns(alive, e) then [Write] else []
  }

  /** What is done to the adapter during e: by hiredis, or by the handlers that run. */
  function Done(alive: bool, e: Input): seq<Act> {
    match e
    case Acts(acts) => acts
    case Event(_, _, onRead, onWrite) =>
      (if ReadRuns(alive, e) then onRead else []) + (if WriteRuns(alive, e) then onWrite else [])
  }

  predicate AliveAfter(alive: bool, e: Input) {
    alive &&
    match e
    case Acts(acts) => CleanUp !in acts
    case Event(_, _, _, _) => !(ReadRuns(alive, e) && CleanUp in e.onRead) && !(WriteRuns(alive, e) && CleanUp in e.onWrite)
  }

  /** An adapter as far as events and actions can change it: is the context there, what is wanted, which handlers were called. */
  datatype Uv = Uv(alive: bool, interest: Interest, handled: seq<Direction>)

  /** The interest changes by the hooks that were really run, in order. */
  function After(u: Uv, e: Input): Uv {
    Uv(AliveAfter(u.alive, e), ApplyAll(u.interest, HooksOf(Done(u.alive, e))), u.handled + Handled(u.alive, e))
  }

  function AfterAll(u: Uv, inputs: seq<Input>): Uv
    decreases |inputs|
  {
    if inputs == [] then u else AfterAll(After(u, inputs[0]), inputs[1..])
  }

  /** Runs compose, and one input is one step. */
  lemma {:induction false} RunsCompose(u: Uv, a: seq<Input>, b: seq<Input>)
    ensures AfterAll(u, a + b) == AfterAll(AfterAll(u, a), b)
    ensures |a| == 1 ==> AfterAll(u, a) == After(u, a[0])
    decreases |a|
  {
    if a == [] {
      assert a + b == b;
    } else {
      assert (a + b)[1..] == a[1..] + b;
      RunsCompose(After(u, a[0]), a[1..], b);
    }
  }

  lemma {:induction false} DeadIsSilent(u: Uv, inputs: seq<Input>)
    requires !u.alive
    ensures !AfterAll(u, inputs).alive && AfterAll(u, inputs).handled == u.handled
    decreases |inputs|
  {
    if inputs != [] {
      DeadIsSilent(After(u, inputs[0]), inputs[1..]);
    }
  }

  /** Once cleanup has run, in a handler or outside, no later step of any event calls a handler. */
  lemma {:induction false} SilentAfterCleanup(u: Uv, before: seq<Input>, after: seq<Input>)
    requires !AfterAll(u, before).alive
    ensures AfterAll(u, before + after).handled == AfterAll(u, before).handled
    decreases |before|
  {
    if before == [] {
      assert before + after == after;
      DeadIsSilent(u, after);
    } else {
      assert (before + after)[1..] == before[1..] + after;
      SilentAfterCleanup(After(u, before[0]), before[1..], after);
    }
  }

  /** Within one event: if the read handler cleans up, it is the last handler of the run, whatever the event and the run hold. */
  lemma ReadCleanupIsLast(u: Uv, e: Input, after: seq<Input>)
    requires e.Event? && ReadRuns(u.alive, e) && CleanUp in e.onRead
    ensures AfterAll(u, [e] + after).handled == u.handled + [Read]
  {
    assert ([e] + after)[1..] == after;
    DeadIsSilent(After(u, e), after);
  }

  class LibuvAdapter {
    var context: bool
    var events: bv32
    /** What uv_poll watches for, and whether the handle has been closed. */
    var active: bv32
    var closed: bool
    var handled: seq<Direction>

    /** The handle watches for exactly the wanted events, until it is closed. */
    ghost predicate Valid()
      reads this
    {
      && closed == !context
      && events == UvMask(UvInterest(events))
      && active == (if closed then 0 else events)
    }

    function View(): Interest
      reads this
    {
      UvInterest(events)
    }

    constructor Attach()
      ensures Valid() && context && View() == NOTHING && handled == []
    {
      context, events, active, closed, handled := true, 0, 0, false, [];
    }

    /** uv_poll_start and uv_poll_stop; a closed handle stays inactive. */
    method PollStart(mask: bv32)
      modifies this`active
      ensures active == if closed then old(active) else mask
    {
      if !closed {
        active := mask;
      }
    }

    method PollStop()
      modifies this`active
      ensures active == 0
    {
      active := 0;
    }

    method Hooked(h: Hook)
      requires Valid()
      modifies this`events, this`active
      ensures Valid() && View() == Apply(old(View()), h)
      ensures events & 1 != 0 <==> h == AddRead || (h != DelRead && old(events) & 1 != 0)
      ensures events & 2 != 0 <==> h == AddWrite || (h != DelWrite && old(events) & 2 != 0)
      ensures active == if closed then 0 else events
    {
      match h {
        case AddRead =>
          events := events | UV_READABLE;
          PollStart(events);
        case DelRead =>
          events := events & !UV_READABLE;
          if events != 0 { PollStart(events); } else { PollStop(); }
        case AddWrite =>
          events := events | UV_WRITABLE;
          PollStart(events);
        case DelWrite =>
          events := events & !UV_WRITABLE;
          if events != 0 { PollStart(events); } else { PollStop(); }
      }
    }

    method Cleanup()
      requires Valid()
      modifies this`context, this`active, this`closed
      ensures Valid() && !context && active == 0
    {
      context := false;
      closed := true;
      active := 0;
    }

    method Perform(acts: seq<Act>)
      requires Valid()
      modifies this`context, this`events, this`active, this`closed
      ensures Valid() && View() == ApplyAll(old(View()), HooksOf(acts))
      ensures context == (old(context) && CleanUp !in acts)
    {
      for k := 0 to |acts|
        invariant Valid() && View() == ApplyAll(old(View()), HooksOf(acts[..k]))
        invariant context == (old(context) && CleanUp !in acts[..k])
      {
        HooksOfSnoc(old(View()), acts, k);
        assert acts[..k + 1] == acts[..k] + [acts[k]];
        match acts[k] {
          case Do(h) => Hooked(h);
          case CleanUp => Cleanup();
        }
      }
      assert acts[..|acts|] == acts;
    }

    /** redisLibuvPoll, with what the two handlers do while they run. */
    method Poll(status: int, revents: bv32, onRead: seq<Act>, onWrite: seq<Act>)
      requires Valid()
      modifies this
      ensures Valid()
      ensures var e := Event(status, revents, onRead, onWrite);
        && handled == old(handled) + Handled(old(context), e) && context == AliveAfter(old(context), e)
        && View() == ApplyAll(old(View()), HooksOf(Done(old(context), e)))
      ensures
        // UV_READABLE is 1, UV_WRITABLE is 2
        var reading := old(context) && status == 0 && revents & 1 != 0;
        var writing := old(context) && status == 0 && revents & 2 != 0 && !(reading && CleanUp in onRead);
        && handled == old(handled) + (if reading then [Read] else []) + (if writing then [Write] else [])
        && (context <==> old(context) && !(reading && CleanUp in onRead) && !(writing && CleanUp in onWrite))
    {
      ghost var e := Event(status, revents, onRead, onWrite);
      HooksOfAppend(View(), if ReadRuns(context, e) then onRead else [], if WriteRuns(context, e) then onWrite else []);
      if status != 0 {
        return;
      }
      if context && revents & UV_READABLE != 0 {
        handled := handled + [Read];
        Perform(onRead);
      }
      if context && revents & UV_WRITABLE != 0 {
        handled := handled + [Write];
        Perform(onWrite);
      }
    }

    ghost function State(): Uv
      reads this
    {
      Uv(context, View(), handled)
    }

    method Take(e: Input)
      requires Valid()
      modifies this
      ensures Valid() && State() == After(old(State()), e)
      ensures e.Acts? ==>
        && context == (old(context) && CleanUp !in e.acts) && handled == old(handled)
        && View() == ApplyAll(old(View()), HooksOf(e.acts))
      ensures e.Event? ==>
        && (e.status != 0 || !old(context) ==> State() == old(State()))
        && (e.status == 0 && old(context) && e.events & 3 != 0 ==> old(handled) < handled)
    {
      match e {
        case Acts(acts) => Perform(acts);
        case Event(status, events, onRead, onWrite) => Poll(status, events, onRead, onWrite);
      }
    }

    /** Any run: hiredis acts and the loop delivers events, in any order. */
    method Drive(inputs: seq<Input>)
      requires Valid()
      modifies this
      ensures Valid() && State() == AfterAll(old(State()), inputs)
      ensures active == if context then events else 0
      decreases |inputs|
    {
      if inputs != [] {
        Take(inputs[0]);
        Drive(inputs[1..]);
      }
    }
  }

  lemma UvBits(events: bv32)
    requires events == UvMask(UvInterest(events))
    ensures events & 1 != 0 <==> UvInterest(events).read
    ensures events & 2 != 0 <==> UvInterest(events).write
    ensures events & !3 == 0
  {
  }

  /** A new adapter after any hooks: bit 1 of the mask is the last word on reading, bit 2 on writing, and the handle watches for the mask. */
  method AttachAndHook(hooks: seq<Hook>) returns (a: LibuvAdapter)
    ensures fresh(a) && a.Valid() && a.context && a.handled == []
    ensures a.events & 1 != 0 <==> LastAdded(hooks, AddRead, DelRead)
    ensures a.events & 2 != 0 <==> LastAdded(hooks, AddWrite, DelWrite)
    ensures a.events & !3 == 0 && a.active == a.events
  {
    a := new LibuvAdapter.Attach();
    for k := 0 to |hooks|
      invariant fresh(a) && a.Valid() && a.context && a.handled == []
      invariant a.View() == ApplyAll(NOTHING, hooks[..k])
    {
      ApplyAllSnoc(NOTHING, hooks, k);
      a.Hooked(hooks[k]);
    }
    assert hooks[..|hooks|] == hooks;
    WantedIff(hooks);
    UvBits(a.events);
  }

  /** An event for all that is watched reaches the handlers of the directions last added, unless reading cleans up first. */
  method HookAndDeliver(hooks: seq<Hook>, onRead: seq<Act>, onWrite: seq<Act>) returns (a: LibuvAdapter)
    ensures var reading, writing := LastAdded(hooks, AddRead, DelRead), LastAdded(hooks, AddWrite, DelWrite);
      a.handled == (if reading then [Read] else []) + (if writing && !(reading && CleanUp in onRead) then [Write] else [])
  {
    a := AttachAndHook(hooks);
    a.Poll(0, a.active, onRead, onWrite);
  }

  // ----- glib.h

  const G_IO_IN: bv16 := 1
  const G_IO_OUT: bv16 := 4

  function GlibInterest(events: bv16): Interest {
    Interest(events & G_IO_IN != 0, events & G_IO_OUT != 0)
  }

  function GlibMask(i: Interest): bv16 {
    (if i.read then G_IO_IN else 0) | (if i.write then G_IO_OUT else 0)
  }

  /** For glib a cleanup also withdraws both interests. */
  function GlibAfter(i: Interest, acts: seq<Act>): Interest {
    if acts == [] then i
    else
      var j := GlibAfter(i, acts[..|acts| - 1]);
      match acts[|acts| - 1]
      case Do(h) => Apply(j, h)
      case CleanUp => NOTHING
  }

  /** One act: a hook changes the interest as for every adapter, a cleanup ends it. */
  lemma GlibAfterOne(i: Interest, h: Hook)
    ensures GlibAfter(i, [Do(h)]) == Apply(i, h) && GlibAfter(i, [CleanUp]) == NOTHING
  {
    assert [Do(h)][..0] == [] && [CleanUp][..0] == [];
  }

  lemma GlibAfterSnoc(i: Interest, acts: seq<Act>, k: nat)
    requires k < |acts|
    ensures GlibAfter(i, acts[..k + 1]) ==
      match acts[k]
      case Do(h) => Apply(GlibAfter(i, acts[..k]), h)
      case CleanUp => NOTHING
  {
    assert acts[..k + 1][..k] == acts[..k];
  }

  /** A handler call, and whether cleanup had already run. */
  datatype Delivery = Delivery(d: Direction, cleaned: bool)

  /** The handler calls of one dispatch, on a source that has been cleaned up before or not. */
  function Deliveries(cleaned: bool, writable: bool, readable: bool, writeCleansUp: bool): seq<Delivery> {
    (if writable then [Delivery(Write, cleaned)] else []) +
    (if readable then [Delivery(Read, cleaned || (writable && writeCleansUp))] else [])
  }

  /**
   * Unlike libuv, nothing stands between the two handlers: the read handler runs after a cleanup of the
   * same dispatch exactly when both bits are set and the write handler cleaned up.
   */
  lemma LateReadIff(writable: bool, readable: bool, writeCleansUp: bool)
    ensures Delivery(Read, true) in Deliveries(false, writable, readable, writeCleansUp) <==>
      writable && readable && writeCleansUp
  {
    var ds := Deliveries(false, writable, readable, writeCleansUp);
    if writable && readable && writeCleansUp {
      assert ds[1] == Delivery(Read, true);
    }
  }

  class GlibSource {
    const attachedFd: int
    var fd: int
    var events: bv16
    var revents: bv16
    /** calls of g_source_remove_poll */
    var removed: nat
    ghost var handled: seq<Delivery>
    /** has cleanup run? */
    ghost var cleaned: bool

    /** Only the two bits are ever wanted, and the descriptor is removed at most once. */
    ghost predicate Valid()
      reads this
    {
      && events == GlibMask(GlibInterest(events))
      && (fd == attachedFd || fd == -1)
      && removed == (if attachedFd >= 0 && fd == -1 then 1 else 0)
    }

    function View(): Interest
      reads this
    {
      GlibInterest(events)
    }

    constructor New(fd: int)
      ensures Valid() && View() == NOTHING && this.fd == attachedFd == fd && handled == [] && revents == 0 && !cleaned
    {
      attachedFd, this.fd, events, revents, removed, handled, cleaned := fd, fd, 0, 0, 0, [], false;
    }

    method Hooked(h: Hook)
      requires Valid()
      modifies this`events
      ensures Valid() && View() == Apply(old(View()), h)
      ensures events & 1 != 0 <==> h == AddRead || (h != DelRead && old(events) & 1 != 0)
      ensures events & 4 != 0 <==> h == AddWrite || (h != DelWrite && old(events) & 4 != 0)
    {
      match h {
        case AddRead => events := events | G_IO_IN;
        case DelRead => events := events & !G_IO_IN;
        case AddWrite => events := events | G_IO_OUT;
        case DelWrite => events := events & !G_IO_OUT;
      }
    }

    /** Any sequence of hooks. */
    method Drive(hooks: seq<Hook>)
      requires Valid()
      modifies this`events
      ensures Valid() && View() == ApplyAll(old(View()), hooks)
    {
      for k := 0 to |hooks|
        invariant Valid() && View() == ApplyAll(old(View()), hooks[..k])
      {
        ApplyAllSnoc(old(View()), hooks, k);
        Hooked(hooks[k]);
      }
      assert hooks[..|hooks|] == hooks;
    }

    /** redis_source_finalize, and the second half of redis_source_cleanup */
    method RemovePoll()
      requires Valid()
      modifies this`fd, this`removed
      ensures Valid() && fd == (if old(fd) >= 0 then -1 else old(fd))
      ensures removed == if old(fd) >= 0 then old(removed) + 1 else old(removed)
    {
      if fd >= 0 {
        removed := removed + 1;
        fd := -1;
      }
    }

    method Cleanup()
      requires Valid()
      modifies this`events, this`fd, this`removed, this`cleaned
      ensures Valid() && View() == NOTHING && events == 0 && cleaned
      ensures fd == (if old(fd) >= 0 then -1 else old(fd))
      ensures removed == if attachedFd >= 0 then 1 else 0
    {
      Hooked(DelRead);
      Hooked(DelWrite);
      RemovePoll();
      cleaned := true;
    }

    method Perform(acts: seq<Act>)
      requires Valid()
      modifies this`events, this`fd, this`removed, this`cleaned
      ensures Valid() && View() == GlibAfter(old(View()), acts)
      ensures cleaned == (old(cleaned) || CleanUp in acts)
      ensures fd == (if CleanUp in acts && old(fd) >= 0 then -1 else old(fd))
    {
      for k := 0 to |acts|
        invariant Valid() && View() == GlibAfter(old(View()), acts[..k])
        invariant cleaned == (old(cleaned) || CleanUp in acts[..k])
        invariant fd == (if CleanUp in acts[..k] && old(fd) >= 0 then -1 else old(fd))
      {
        GlibAfterSnoc(old(View()), acts, k);
        assert acts[..k + 1] == acts[..k] + [acts[k]];
        match acts[k] {
          case Do(h) => Hooked(h);
          case CleanUp => Cleanup();
        }
      }
      assert acts[..|acts|] == acts;
    }

    /** redis_source_prepare and redis_source_check */
    function Ready(): (ready: bool)
      reads this
      ensures Valid() ==>
        (ready <==> (events & 1 != 0 && revents & 1 != 0) || (events & 4 != 0 && revents & 4 != 0))
    {
      ReadyBits(events, revents);
      events & revents != 0
    }

    /**
     * redis_source_dispatch: the write handler, then the read handler, each for its bit of revents,
     * whatever they do meanwhile.  Afterwards the source is not ready again by itself.
     */
    method Dispatch(onRead: seq<Act>, onWrite: seq<Act>)
      requires Valid()
      modifies this`events, this`fd, this`removed, this`cleaned, this`revents, this`handled
      ensures Valid() && !Ready()
      ensures
        var writable, readable := old(revents) & G_IO_OUT != 0, old(revents) & G_IO_IN != 0;
        var acts := (if writable then onWrite else []) + (if readable then onRead else []);
        && handled == old(handled) + Deliveries(old(cleaned), writable, readable, CleanUp in onWrite)
        && View() == GlibAfter(old(View()), acts)
        && cleaned == (old(cleaned) || CleanUp in acts)
        && fd == (if CleanUp in acts && old(fd) >= 0 then -1 else old(fd))
      ensures
        // G_IO_OUT is 4, G_IO_IN is 1
        var writing, reading := old(revents) & 4 != 0, old(revents) & 1 != 0;
        handled == old(handled)
          + (if writing then [Delivery(Write, old(cleaned))] else [])
          + (if reading then [Delivery(Read, old(cleaned) || (writing && CleanUp in onWrite))] else [])
    {
      ghost var writable, readable := revents & G_IO_OUT != 0, revents & G_IO_IN != 0;
      GlibAfterAppend(View(), if writable then onWrite else [], if readable then onRead else []);
      DispatchWrite(onWrite);
      DispatchRead(onRead);
      NotReady(events, revents);
    }

    method DispatchWrite(onWrite: seq<Act>)
      requires Valid()
      modifies this`events, this`fd, this`removed, this`cleaned, this`revents, this`handled
      ensures Valid() && revents & G_IO_OUT == 0 && revents & G_IO_IN == old(revents) & G_IO_IN
      ensures
        var acts := if old(revents) & G_IO_OUT != 0 then onWrite else [];
        && handled == old(handled) + (if old(revents) & G_IO_OUT != 0 then [Delivery(Write, old(cleaned))] else [])
        && View() == GlibAfter(old(View()), acts) && cleaned == (old(cleaned) || CleanUp in acts)
        && fd == (if CleanUp in acts && old(fd) >= 0 then -1 else old(fd))
    {
      if revents & G_IO_OUT != 0 {
        handled := handled + [Delivery(Write, cleaned)];
        Perform(onWrite);
        OutCleared(revents);
        revents := revents & !G_IO_OUT;
      }
    }

    method DispatchRead(onRead: seq<Act>)
      requires Valid()
      modifies this`events, this`fd, this`removed, this`cleaned, this`revents, this`handled
      ensures Valid() && revents & G_IO_IN == 0 && revents & G_IO_OUT == old(revents) & G_IO_OUT
      ensures
        var acts := if old(revents) & G_IO_IN != 0 then onRead else [];
        && handled == old(handled) + (if old(revents) & G_IO_IN != 0 then [Delivery(Read, old(cleaned))] else [])
        && View() == GlibAfter(old(View()), acts) && cleaned == (old(cleaned) || CleanUp in acts)
        && fd == (if CleanUp in acts && old(fd) >= 0 then -1 else old(fd))
    {
      if revents & G_IO_IN != 0 {
        handled := handled + [Delivery(Read, cleaned)];
        Perform(onRead);
        InCleared(revents);
        revents := revents & !G_IO_IN;
      }
    }
  }

  lemma {:induction false} GlibAfterAppend(i: Interest, a: seq<Act>, b: seq<Act>)
    ensures GlibAfter(i, a + b) == GlibAfter(GlibAfter(i, a), b)
    decreases |b|
  {
    if b == [] {
      assert a + b == a;
    } else {
      var n := |b| - 1;
      GlibAfterAppend(i, a, b[..n]);
      assert (a + b)[..|a| + n] == a + b[..n];
    }
  }

  lemma OutCleared(r: bv16)
    ensures (r & !G_IO_OUT) & G_IO_OUT == 0
    ensures (r & !G_IO_OUT) & G_IO_IN == r & G_IO_IN
  {
  }

  lemma InCleared(r: bv16)
    ensures (r & !G_IO_IN) & G_IO_IN == 0
    ensures (r & !G_IO_IN) & G_IO_OUT == r & G_IO_OUT
  {
  }

  lemma ReadyBits(e: bv16, r: bv16)
    ensures e == GlibMask(GlibInterest(e)) ==>
      (e & r != 0 <==> (e & 1 != 0 && r & 1 != 0) || (e & 4 != 0 && r & 4 != 0))
  {
  }

  lemma NotReady(e: bv16, r: bv16)
    requires e == GlibMask(GlibInterest(e)) && r & G_IO_IN == 0 && r & G_IO_OUT == 0
    ensures e & r == 0
  {
  }

  lemma GlibBits(events: bv16)
    requires events == GlibMask(GlibInterest(events))
    ensures events & 1 != 0 <==> GlibInterest(events).read
    ensures events & 4 != 0 <==> GlibInterest(events).write
    ensures events & !5 == 0
  {
  }

  /** A new source after any hooks: bit 1 of the mask is the last word on reading, bit 4 on writing. */
  method NewAndHook(fd: int, hooks: seq<Hook>) returns (g: GlibSource)
    ensures fresh(g) && g.Valid() && g.fd == fd && g.handled == [] && !g.cleaned
    ensures g.events & 1 != 0 <==> LastAdded(hooks, AddRead, DelRead)
    ensures g.events & 4 != 0 <==> LastAdded(hooks, AddWrite, DelWrite)
    ensures g.events & !5 == 0
  {
    g := new GlibSource.New(fd);
    g.Drive(hooks);
    WantedIff(hooks);
    GlibBits(g.events);
  }

  /** When all that is wanted is ready, the handlers of the directions last added are called, writing first. */
  method HookAndDispatch(fd: int, hooks: seq<Hook>, onRead: seq<Act>, onWrite: seq<Act>) returns (g: GlibSource)
    ensures var reading, writing := LastAdded(hooks, AddRead, DelRead), LastAdded(hooks, AddWrite, DelWrite);
      g.handled == (if writing then [Delivery(Write, false)] else [])
        + (if reading then [Delivery(Read, writing && CleanUp in onWrite)] else [])
  {
    g := NewAndHook(fd, hooks);
    g.revents := g.events;
    g.Dispatch(onRead, onWrite);
  }
}
