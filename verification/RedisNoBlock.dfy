/**
 * LRedisNOBlock (project/hiredis/redisnoblock.cpp): a subscriber that is polled.
 *
 * The object's own breaths are recorded: whether a breath asked to unsubscribe, and
 * whether it saw a channel message.  Each context ever created is a session that
 * covers a stretch of these breaths.
 */
module RedisNoBlock {
  import opened Wrappers
  import opened PathSplitter
  import opened HiredisOracle

  const IP_MAX := 32
  const PASSWORD_MAX := 31
  const CHANNEL := "messagechat"
  const CHANNEL1 := "messagechat1"

  predicate StartsWith(s: string, p: string) {
    p <= s
  }

  /** A push message as ProcessChannelMsg recognises it. */
  predicate IsMessage(r: Reply) {
    && r.kind == ArrayReply && |r.elements| > 2 && r.elements[0].kind == StringReply
    && (StartsWith(r.elements[0].str, "MESSAGE") || StartsWith(r.elements[0].str, "message"))
  }

  /** One TryGetReply: the read fails, no reply is complete yet, or there is one. */
  datatype Arrival = ReadError | Nothing | Got(reply: Reply)

  /** A message is among the replies drained: those before the first read that brings none. */
  predicate SawMessage(arrivals: seq<Arrival>) {
    arrivals != [] && arrivals[0].Got? && (IsMessage(arrivals[0].reply) || SawMessage(arrivals[1..]))
  }

  /** The i-th reply is an array of at least three whose first is a string beginning with "message" or "MESSAGE", and replies came up to there. */
  predicate MessageAt(arrivals: seq<Arrival>, i: nat) {
    && i < |arrivals| && (forall j :: 0 <= j <= i ==> arrivals[j].Got?)
    && var r := arrivals[i].reply;
    && r.kind == ArrayReply && |r.elements| >= 3 && r.elements[0].kind == StringReply
    && var s := r.elements[0].str;
    && |s| >= 7 && (s[..7] == "message" || s[..7] == "MESSAGE")
  }

  lemma MessageAtIff(arrivals: seq<Arrival>, i: nat)
    ensures MessageAt(arrivals, i) <==>
      i < |arrivals| && (forall j :: 0 <= j <= i ==> arrivals[j].Got?) && IsMessage(arrivals[i].reply)
  {
  }

  lemma {:induction false} SawMessageIff(arrivals: seq<Arrival>)
    ensures SawMessage(arrivals) <==> exists i: nat :: MessageAt(arrivals, i)
  {
    if arrivals != [] && arrivals[0].Got? {
      var rest := arrivals[1..];
      SawMessageIff(rest);
      forall i: nat
        ensures MessageAt(rest, i) <==> MessageAt(arrivals, i + 1)
      {
        assert forall j :: 0 <= j < |rest| ==> rest[j] == arrivals[j + 1];
        assert forall j :: 0 < j < |arrivals| ==> arrivals[j] == rest[j - 1];
        MessageAtIff(rest, i);
        MessageAtIff(arrivals, i + 1);
      }
      MessageAtIff(arrivals, 0);
      if SawMessage(rest) {
        var i: nat :| MessageAt(rest, i);
        assert MessageAt(arrivals, i + 1);
      }
      if i: nat :| MessageAt(arrivals, i) {
        assert i > 0 ==> MessageAt(rest, i - 1);
      }
      assert IsMessage(arrivals[0].reply) ==> MessageAt(arrivals, 0);
    }
  }

  // ----- the command trace

  function Setup(password: string, db: int): seq<Command> {
    [Auth(password), Select(db), Subscribe(CHANNEL), Subscribe(CHANNEL1)]
  }

  function Block(unsubscribe: bool): seq<Command> {
    if unsubscribe then [Unsubscribe(CHANNEL), Ping] else [Ping]
  }

  /**
   * The object's history: a context was created (usable or not, with the credentials of the moment),
   * or a breath was made: whether it asked to unsubscribe and whether it saw a message.
   */
  datatype Event = Opened(ok: bool, password: string, db: int) | Breathed(asked: bool, saw: bool)

  /** What one event adds to the commands of all contexts so far. */
  function Sent(log: seq<seq<Command>>, e: Event): seq<seq<Command>> {
    match e
    case Opened(ok, password, db) => log + [if ok then Setup(password, db) else []]
    case Breathed(asked, _) => if log == [] then log else log[|log| - 1 := log[|log| - 1] + Block(asked)]
  }

  function LogOf(h: seq<Event>): seq<seq<Command>> {
    if h == [] then [] else Sent(LogOf(h[..|h| - 1]), h[|h| - 1])
  }

  /** Did the last breath of the object, on whatever context, see a message? */
  predicate LastSaw(h: seq<Event>) {
    h != [] && (if h[|h| - 1].Breathed? then h[|h| - 1].saw else LastSaw(h[..|h| - 1]))
  }

  /** A breath asks to unsubscribe exactly when the breath before it saw a message. */
  predicate Linked(h: seq<Event>) {
    h == [] ||
    var front, e := h[..|h| - 1], h[|h| - 1];
    Linked(front) && (e.Breathed? ==> e.asked == LastSaw(front))
  }

  lemma HistorySnoc(h: seq<Event>, e: Event)
    ensures LogOf(h + [e]) == Sent(LogOf(h), e)
    ensures LastSaw(h + [e]) == if e.Breathed? then e.saw else LastSaw(h)
    ensures Linked(h + [e]) == (Linked(h) && (e.Breathed? ==> e.asked == LastSaw(h)))
  {
  }

  /** Was the last context to be created a usable one? */
  predicate LastOk(h: seq<Event>) {
    h != [] && (if h[|h| - 1].Opened? then h[|h| - 1].ok else LastOk(h[..|h| - 1]))
  }

  /** The commands begin with a whole setup. */
  predicate IsSetUp(cmds: seq<Command>) {
    && |cmds| >= 4 && cmds[0].Auth? && cmds[1].Select?
    && cmds[2] == Subscribe(CHANNEL) && cmds[3] == Subscribe(CHANNEL1)
  }

  /** The newest context has been set up exactly when it was usable; otherwise it has not even been sent AUTH. */
  lemma {:induction false} SetUpIffLastOk(h: seq<Event>)
    requires LogOf(h) != []
    ensures var cmds := LogOf(h)[|LogOf(h)| - 1];
      && (LastOk(h) ==> IsSetUp(cmds))
      && (!LastOk(h) ==> cmds == [] || !cmds[0].Auth?)
    decreases |h|
  {
    var front, e := h[..|h| - 1], h[|h| - 1];
    if e.Breathed? && LogOf(front) != [] {
      SetUpIffLastOk(front);
    }
  }

  class LRedisNOBlock {
    const hiredis: Hiredis
    var ip: string
    var password: string
    var port: int
    var db: int
    var context: Option<nat>
    var unsubscribe: bool
    ghost var history: seq<Event>

    ghost predicate Valid()
      reads this, hiredis
    {
      && hiredis.Valid()
      // the only context not freed is the one held, and no reply is left over
      && hiredis.replies == {}
      && hiredis.contexts == (if context.Some? then {context.value} else {})
      && (context.Some? ==> context.value == |hiredis.log| - 1)
      // the wish to unsubscribe is what the last breath saw, and the history explains every command
      && unsubscribe == LastSaw(history)
      && Linked(history)
      && hiredis.log == LogOf(history)
    }

    constructor (hiredis: Hiredis)
      requires hiredis.Valid() && hiredis.contexts == {} && hiredis.replies == {} && hiredis.log == []
      ensures Valid() && this.hiredis == hiredis && context == None && history == []
      ensures ip == "" && password == "" && port == 0 && db == 0
    {
      this.hiredis := hiredis;
      ip, password, port, db, context, unsubscribe := "", "", 0, 0, None, false;
      history := [];
    }

    /** Settings are checked before any is stored; the strings are cut to the buffers. */
    method Init(ip: Option<string>, port: int, db: int, password: Option<string>) returns (result: int)
      requires Valid()
      modifies this`ip, this`password, this`port, this`db
      ensures Valid()
      ensures result == if ip.Some? && password.Some? && 1024 < port < 65534 then 1 else 0
      ensures
        if result == 1 then
          && this.ip == Cut(CStr(ip.value), IP_MAX) && this.password == Cut(CStr(password.value), PASSWORD_MAX)
          && this.port == port && this.db == db
        else
          this.ip == old(this.ip) && this.password == old(this.password) && this.port == old(this.port) && this.db == old(this.db)
      ensures result == 1 ==>
        var a, p := CStr(ip.value), CStr(password.value);
        && this.ip == (if |a| <= 32 then a else a[..32])
        && this.password == (if |p| <= 31 then p else p[..31])
    {
      result := 0;
      if ip.None? || password.None? || !(1024 < port < 65534) {
        return;
      }
      this.db := db;
      this.port := port;
      this.ip := Cut(CStr(ip.value), IP_MAX);
      this.password := Cut(CStr(password.value), PASSWORD_MAX);
      result := 1;
    }

    /** The object forgets its settings and frees its context, but keeps its wish to unsubscribe. */
    method Uninit()
      requires Valid()
      modifies this`ip, this`password, this`port, this`db, this`context, hiredis
      ensures Valid() && context == None && hiredis.contexts == {} && hiredis.log == old(hiredis.log)
      ensures ip == "" && password == "" && port == 0 && db == 0 && hiredis.attempts == old(hiredis.attempts)
    {
      if context.Some? {
        hiredis.Free(context.value);
        context := None;
      }
      ip, password, port, db := "", "", 0, 0;
    }

    /**
     * With a context held it reports success and does nothing.  Otherwise it reports success exactly
     * for a usable new context; but a refused context is kept as well.  So success means a context that
     * has been set up exactly when this call made it, or the call that made it succeeded too.
     */
    method Connect2Redis() returns (result: int)
      requires Valid()
      modifies this`context, this`history, hiredis
      ensures Valid()
      ensures
        var outcome := hiredis.connects(old(hiredis.attempts));
        var tries := old(context).None? && 1024 < port < 65534;
        var opens := tries && outcome != NoContext;
        && hiredis.attempts == old(hiredis.attempts) + (if tries then 1 else 0)
        && result == (if old(context).Some? || (tries && outcome == Connected) then 1 else 0)
        && (context.Some? <==> old(context).Some? || opens)
        && (old(context).Some? ==> context == old(context) && hiredis.log == old(hiredis.log))
        && history == old(history) + (if opens then [Opened(outcome == Connected, password, db)] else [])
      ensures result == 1 ==>
        (IsSetUp(hiredis.log[context.value]) <==> old(context).None? || LastOk(old(history)))
      ensures result == 1 && old(context).None? ==>
        && hiredis.buffered == 0
        && hiredis.log == old(hiredis.log) + [[Auth(password), Select(db), Subscribe("messagechat"), Subscribe("messagechat1")]]
    {
      result := 0;
      if context.Some? {
        result := 1;
      } else if 1024 < port < 65534 {
        result := Open();
      }
      if result == 1 {
        SetUpIffLastOk(history);
      }
    }

    method Open() returns (result: int)
      requires Valid() && context == None
      modifies this`context, this`history, hiredis
      ensures Valid() && hiredis.attempts == old(hiredis.attempts) + 1
      ensures
        var outcome := hiredis.connects(old(hiredis.attempts));
        && result == (if outcome == Connected then 1 else 0)
        && (context.Some? <==> outcome != NoContext)
        && history == old(history) + (if outcome != NoContext then [Opened(outcome == Connected, password, db)] else [])
      ensures result == 1 ==>
        && hiredis.buffered == 0
        && hiredis.log == old(hiredis.log) + [[Auth(password), Select(db), Subscribe("messagechat"), Subscribe("messagechat1")]]
    {
      result := 0;
      var err;
      context, err := hiredis.Connect();
      if context.None? {
        return;
      }
      if err {
        Record(Opened(false, password, db));
        return;
      }
      SetUp(old(hiredis.log));
      Record(Opened(true, password, db));
      result := 1;
    }

    /** The history follows what was sent. */
    ghost method Record(e: Event)
      requires hiredis.log == Sent(LogOf(history), e) && Linked(history)
      requires e.Breathed? ==> e.asked == LastSaw(history)
      modifies this`history
      ensures history == old(history) + [e] && Linked(history) && hiredis.log == LogOf(history)
      ensures LastSaw(history) == if e.Breathed? then e.saw else LastSaw(old(history))
    {
      HistorySnoc(history, e);
      history := history + [e];
    }

    method SetUp(ghost before: seq<seq<Command>>)
      requires hiredis.Valid() && hiredis.replies == {}
      requires context.Some? && context.value in hiredis.contexts
      requires context.value == |before| && hiredis.log == before + [[]]
      modifies hiredis
      ensures hiredis.Valid() && hiredis.replies == {} && hiredis.attempts == old(hiredis.attempts)
      ensures hiredis.contexts == old(hiredis.contexts)
      ensures hiredis.log == before + [[Auth(password), Select(db), Subscribe("messagechat"), Subscribe("messagechat1")]]
      ensures hiredis.buffered == 0
    {
      ghost var n := |before|;
      Send(Auth(password));
      Send(Select(db));
      Send(Subscribe(CHANNEL));
      Send(Subscribe(CHANNEL1));
      assert hiredis.log[..n] == before;
      assert hiredis.log[n] == Setup(password, db);
      Flush();
    }

    /** redisCommand, and the reply it may return is freed at once. */
    method Send(cmd: Command)
      requires hiredis.Valid() && hiredis.replies == {}
      requires context.Some? && context.value in hiredis.contexts
      modifies hiredis
      ensures hiredis.Valid() && hiredis.replies == {}
      ensures hiredis.contexts == old(hiredis.contexts) && hiredis.attempts == old(hiredis.attempts)
      ensures var c := context.value;
        hiredis.log == old(hiredis.log)[c := old(hiredis.log)[c] + [cmd]]
    {
      var r := hiredis.Do(context.value, cmd);
      hiredis.FreeReply(r);
    }

    /** while (!wdone) redisBufferWrite */
    method Flush()
      requires hiredis.Valid() && context.Some? && context.value in hiredis.contexts
      modifies hiredis`buffered
      ensures hiredis.Valid() && hiredis.buffered == 0
      ensures hiredis.attempts == old(hiredis.attempts) && hiredis.log == old(hiredis.log)
    {
      var wdone := false;
      while !wdone
        invariant hiredis.Valid() && (wdone ==> hiredis.buffered == 0)
        decreases !wdone, hiredis.buffered
      {
        wdone := hiredis.BufferWrite(context.value);
      }
    }

    /** TryGetReply: the i-th reply of this breath, if the socket has one. */
    method TryGetReply(arrivals: seq<Arrival>, i: nat) returns (r: Option<Handle>)
      requires hiredis.Valid() && hiredis.replies == {}
      modifies hiredis`replies, hiredis`nextReply
      ensures hiredis.Valid()
      ensures r.Some? <==> i < |arrivals| && arrivals[i].Got?
      ensures r.Some? ==> r.value.reply == arrivals[i].reply && hiredis.replies == {r.value.id}
      ensures r.None? ==> hiredis.replies == {}
    {
      r := None;
      if i < |arrivals| && arrivals[i].Got? {
        r := hiredis.HandOut(arrivals[i].reply);
      }
    }

    method ProcessChannelMsg(r: Reply)
      modifies this`unsubscribe
      ensures unsubscribe == (old(unsubscribe) || IsMessage(r))
    {
      if r.kind == ArrayReply && |r.elements| > 0 && r.elements[0].kind == StringReply {
        if StartsWith(r.elements[0].str, "MESSAGE") || StartsWith(r.elements[0].str, "message") {
          if |r.elements| > 2 {
            unsubscribe := true;
          }
        }
      }
    }

    /** while ((pReply = TryGetReply()) != NULL) */
    method Drain(arrivals: seq<Arrival>)
      requires hiredis.Valid() && hiredis.replies == {} && !unsubscribe
      modifies this`unsubscribe, hiredis`replies, hiredis`nextReply
      ensures hiredis.Valid() && hiredis.replies == {}
      ensures unsubscribe == SawMessage(arrivals)
    {
      var i := 0;
      var r := TryGetReply(arrivals, i);
      while r.Some?
        invariant 0 <= i <= |arrivals|
        invariant hiredis.Valid() && hiredis.replies == (if r.Some? then {r.value.id} else {})
        invariant r.Some? <==> i < |arrivals| && arrivals[i].Got?
        invariant r.Some? ==> r.value.reply == arrivals[i].reply
        invariant SawMessage(arrivals) == (unsubscribe || SawMessage(arrivals[i..]))
        decreases |arrivals| - i
      {
        ProcessChannelMsg(r.value.reply);
        hiredis.FreeReply(r);
        i := i + 1;
        r := TryGetReply(arrivals, i);
      }
    }

    method SendBlock()
      requires hiredis.Valid() && hiredis.replies == {}
      requires context.Some? && context.value in hiredis.contexts
      modifies this`unsubscribe, hiredis
      ensures hiredis.Valid() && hiredis.replies == {} && !unsubscribe
      ensures hiredis.contexts == old(hiredis.contexts) && hiredis.attempts == old(hiredis.attempts)
      ensures var c, log := context.value, old(hiredis.log);
        hiredis.log == log[c := log[c] + if old(unsubscribe) then [Unsubscribe("messagechat"), Ping] else [Ping]]
    {
      ghost var c, log := context.value, hiredis.log;
      if unsubscribe {
        unsubscribe := false;
        Send(Unsubscribe(CHANNEL));
      }
      Send(Ping);
      assert hiredis.log[c] == log[c] + Block(old(unsubscribe));
    }

    /** One poll: unsubscribe if the last one saw a message, ping, flush, and drain what has arrived. */
    method Breath(arrivals: seq<Arrival>)
      requires Valid() && context.Some?
      modifies this`unsubscribe, this`history, hiredis
      ensures Valid() && hiredis.attempts == old(hiredis.attempts) && hiredis.buffered == 0
      ensures history == old(history) + [Breathed(old(unsubscribe), SawMessage(arrivals))]
      ensures unsubscribe == SawMessage(arrivals)
      ensures var c, log := context.value, old(hiredis.log);
        hiredis.log == log[c := log[c] + if old(unsubscribe) then [Unsubscribe("messagechat"), Ping] else [Ping]]
    {
      ghost var asked := unsubscribe;
      SendBlock();
      Flush();
      Drain(arrivals);
      Record(Breathed(asked, unsubscribe));
    }
  }

  // ----- every sequence of public calls

  /** The public calls a program can make on the object; a breath needs a context. */
  datatype PublicCall =
    | CallInit(ip: Option<string>, port: int, db: int, password: Option<string>)
    | CallConnect
    | CallBreath(arrivals: seq<Arrival>)
    | CallUninit

  /** What a sequence of calls can change: the settings, whether a context is held, the attempts made and the history. */
  datatype Snap = Snap(ip: string, password: string, port: int, db: int, held: bool, attempts: nat, history: seq<Event>)

  const NEW := Snap("", "", 0, 0, false, 0, [])

  ghost function View(client: LRedisNOBlock): Snap
    reads client, client.hiredis
  {
    Snap(client.ip, client.password, client.port, client.db, client.context.Some?, client.hiredis.attempts, client.history)
  }

  predicate CanMake(s: Snap, call: PublicCall) {
    call.CallBreath? ==> s.held
  }

  function Connected2Redis(connects: nat -> ConnectResult, s: Snap): Snap {
    if s.held || !(1024 < s.port < 65534) then s
    else
      var outcome := connects(s.attempts);
      var t := s.(attempts := s.attempts + 1);
      if outcome == NoContext then t
      else t.(held := true, history := s.history + [Opened(outcome == Connected, s.password, s.db)])
  }

  function StepSnap(connects: nat -> ConnectResult, s: Snap, call: PublicCall): Snap {
    match call
    case CallInit(ip, port, db, password) =>
      if ip.Some? && password.Some? && 1024 < port < 65534 then
        s.(ip := Cut(CStr(ip.value), IP_MAX), password := Cut(CStr(password.value), PASSWORD_MAX), port := port, db := db)
      else s
    case CallConnect => Connected2Redis(connects, s)
    case CallBreath(arrivals) => s.(history := s.history + [Breathed(LastSaw(s.history), SawMessage(arrivals))])
    case CallUninit => s.(ip := "", password := "", port := 0, db := 0, held := false)
  }

  /** How many of the calls are made before a breath would have no context, and what they leave. */
  function Made(connects: nat -> ConnectResult, s: Snap, calls: seq<PublicCall>): (n: nat)
    ensures n <= |calls|
    decreases |calls|
  {
    if calls == [] || !CanMake(s, calls[0]) then 0 else 1 + Made(connects, StepSnap(connects, s, calls[0]), calls[1..])
  }

  function Fold(connects: nat -> ConnectResult, s: Snap, calls: seq<PublicCall>): Snap
    decreases |calls|
  {
    if calls == [] || !CanMake(s, calls[0]) then s else Fold(connects, StepSnap(connects, s, calls[0]), calls[1..])
  }

  method MakeCall(client: LRedisNOBlock, call: PublicCall)
    requires client.Valid() && CanMake(View(client), call)
    modifies client, client.hiredis
    ensures client.Valid() && View(client) == StepSnap(client.hiredis.connects, old(View(client)), call)
    ensures call.CallInit? && call.ip.Some? && call.password.Some? && 1024 < call.port < 65534 ==>
      client.port == call.port && client.db == call.db
    ensures call.CallConnect? ==>
      var tries := old(client.context).None? && 1024 < old(client.port) < 65534;
      && client.hiredis.attempts == old(client.hiredis.attempts) + (if tries then 1 else 0)
      && (client.context.Some? <==>
            old(client.context).Some? || (tries && client.hiredis.connects(old(client.hiredis.attempts)) != NoContext))
    ensures call.CallBreath? ==>
      client.history == old(client.history) + [Breathed(old(client.unsubscribe), SawMessage(call.arrivals))]
    ensures call.CallUninit? ==> client.context == None && client.port == 0
  {
    match call {
      case CallInit(ip, port, db, password) => var _ := client.Init(ip, port, db, password);
      case CallConnect => var _ := client.Connect2Redis();
      case CallUninit => client.Uninit();
      case CallBreath(arrivals) => client.Breath(arrivals);
    }
  }

  /** Runs compose: a second sequence of calls goes on from where the first left off, and one call is one step. */
  lemma {:induction false} RunsCompose(connects: nat -> ConnectResult, s: Snap, a: seq<PublicCall>, b: seq<PublicCall>)
    requires Made(connects, s, a) == |a|
    ensures Fold(connects, s, a + b) == Fold(connects, Fold(connects, s, a), b)
    ensures Made(connects, s, a + b) == |a| + Made(connects, Fold(connects, s, a), b)
    ensures |a| == 1 ==> Fold(connects, s, a) == StepSnap(connects, s, a[0])
    decreases |a|
  {
    if a == [] {
      assert a + b == b;
    } else {
      assert (a + b)[1..] == a[1..] + b;
      RunsCompose(connects, StepSnap(connects, s, a[0]), a[1..], b);
    }
  }

  /** Any sequence of public calls does exactly what Fold says, stops only at a breath without context, and keeps the whole invariant of the object. */
  method AnyRun(client: LRedisNOBlock, calls: seq<PublicCall>) returns (made: nat)
    requires client.Valid()
    modifies client, client.hiredis
    ensures client.Valid()
    ensures View(client) == Fold(client.hiredis.connects, old(View(client)), calls)
    ensures made == Made(client.hiredis.connects, old(View(client)), calls)
    ensures made == |calls| || (made < |calls| && calls[made].CallBreath? && client.context == None)
    decreases |calls|
  {
    made := 0;
    if calls == [] || (calls[0].CallBreath? && client.context == None) {
      return;
    }
    MakeCall(client, calls[0]);
    var rest := AnyRun(client, calls[1..]);
    made := rest + 1;
  }

  /** For each breath in a history, whether it asked to unsubscribe and whether it saw a message. */
  function AskedOf(h: seq<Event>): seq<bool> {
    if h == [] then []
    else AskedOf(h[..|h| - 1]) + (if h[|h| - 1].Breathed? then [h[|h| - 1].asked] else [])
  }

  function SawOf(h: seq<Event>): seq<bool> {
    if h == [] then []
    else SawOf(h[..|h| - 1]) + (if h[|h| - 1].Breathed? then [h[|h| - 1].saw] else [])
  }

  /** For each breath among the calls, whether a message is among the replies that have arrived for it. */
  function SawOfCalls(calls: seq<PublicCall>): seq<bool> {
    if calls == [] then []
    else (if calls[0].CallBreath? then [SawMessage(calls[0].arrivals)] else []) + SawOfCalls(calls[1..])
  }

  /** The same flags one breath later. */
  function Delayed(flags: seq<bool>): seq<bool> {
    if flags == [] then [] else [false] + flags[..|flags| - 1]
  }

  lemma SawOfSnoc(h: seq<Event>, e: Event)
    ensures SawOf(h + [e]) == SawOf(h) + (if e.Breathed? then [e.saw] else [])
  {
    assert (h + [e])[..|h|] == h;
  }

  /** The breaths of the history are the breath calls that were made, in order, each with what it saw. */
  lemma {:induction false} BreathsOfRun(connects: nat -> ConnectResult, s: Snap, calls: seq<PublicCall>)
    ensures SawOf(Fold(connects, s, calls).history) ==
      SawOf(s.history) + SawOfCalls(calls[..Made(connects, s, calls)])
    decreases |calls|
  {
    if calls != [] && CanMake(s, calls[0]) {
      var t := StepSnap(connects, s, calls[0]);
      var n := Made(connects, t, calls[1..]);
      BreathsOfRun(connects, t, calls[1..]);
      StepSaw(connects, s, calls[0]);
      assert calls[..n + 1][1..] == calls[1..][..n];
    }
  }

  /** What one call adds to the history. */
  lemma StepHistory(connects: nat -> ConnectResult, s: Snap, call: PublicCall) returns (added: seq<Event>)
    ensures StepSnap(connects, s, call).history == s.history + added && |added| <= 1
    ensures call.CallBreath? ==> added == [Breathed(LastSaw(s.history), SawMessage(call.arrivals))]
    ensures !call.CallBreath? && added != [] ==> added[0].Opened?
  {
    var t := StepSnap(connects, s, call);
    added := t.history[|s.history|..];
  }

  lemma StepSaw(connects: nat -> ConnectResult, s: Snap, call: PublicCall)
    ensures SawOf(StepSnap(connects, s, call).history) ==
      SawOf(s.history) + (if call.CallBreath? then [SawMessage(call.arrivals)] else [])
  {
    var added := StepHistory(connects, s, call);
    if added == [] {
      assert s.history + added == s.history;
    } else {
      SawOfSnoc(s.history, added[0]);
      assert added == [added[0]];
    }
  }

  lemma {:induction false} LastSawOf(h: seq<Event>)
    ensures LastSaw(h) <==> SawOf(h) != [] && SawOf(h)[|SawOf(h)| - 1]
  {
    if h != [] {
      LastSawOf(h[..|h| - 1]);
    }
  }

  /** In a linked history the requests are what was seen, one breath later. */
  lemma {:induction false} AskedIsDelayedSaw(h: seq<Event>)
    requires Linked(h)
    ensures AskedOf(h) == Delayed(SawOf(h))
    decreases |h|
  {
    if h != [] {
      var front, e := h[..|h| - 1], h[|h| - 1];
      AskedIsDelayedSaw(front);
      LastSawOf(front);
      if e.Breathed? {
        DelayedSnoc(SawOf(front), e.saw);
      }
    }
  }

  lemma DelayedSnoc(flags: seq<bool>, b: bool)
    ensures Delayed(flags + [b]) == Delayed(flags) + [flags != [] && flags[|flags| - 1]]
  {
    assert (flags + [b])[..|flags|] == flags;
    if flags != [] {
      assert flags == flags[..|flags| - 1] + [flags[|flags| - 1]];
    }
  }

  /** All commands of a history, context after context. */
  function Commands(h: seq<Event>): seq<Command> {
    if h == [] then []
    else
      var e := h[|h| - 1];
      Commands(h[..|h| - 1]) +
        match e
        case Opened(ok, password, db) => if ok then Setup(password, db) else []
        case Breathed(asked, _) => Block(asked)
  }

  function Flat(log: seq<seq<Command>>): seq<Command> {
    if log == [] then [] else Flat(log[..|log| - 1]) + log[|log| - 1]
  }

  /**
   * The law of PING and UNSUBSCRIBE, in the commands themselves: there is one PING per breath; the n-th
   * PING comes directly after UNSUBSCRIBE messagechat exactly if asked[n]; and UNSUBSCRIBE occurs
   * nowhere else and never for another channel.
   */
  ghost predicate PingLaw(cmds: seq<Command>, asked: seq<bool>) {
    && multiset(cmds)[Ping] == |asked|
    && multiset(cmds)[Unsubscribe("messagechat")] == multiset(asked)[true]
    && forall i :: 0 <= i < |cmds| ==> PingAt(cmds, asked, i)
  }

  ghost predicate PingAt(cmds: seq<Command>, asked: seq<bool>, i: nat)
    requires i < |cmds|
  {
    && (cmds[i].Unsubscribe? ==> cmds[i] == Unsubscribe("messagechat") && i + 1 < |cmds| && cmds[i + 1] == Ping)
    && (cmds[i] == Ping ==>
          var n := multiset(cmds[..i])[Ping];
          n < |asked| && (asked[n] <==> i > 0 && cmds[i - 1] == Unsubscribe("messagechat")))
  }

  lemma PingAtKept(cmds: seq<Command>, asked: seq<bool>, more: seq<Command>, flags: seq<bool>, i: nat)
    requires i < |cmds| && PingAt(cmds, asked, i)
    ensures PingAt(cmds + more, asked + flags, i)
  {
    assert (cmds + more)[..i] == cmds[..i];
  }

  /** Commands that are neither change nothing about the law. */
  lemma PingLawQuiet(cmds: seq<Command>, asked: seq<bool>, more: seq<Command>)
    requires PingLaw(cmds, asked)
    requires forall i :: 0 <= i < |more| ==> more[i] != Ping && !more[i].Unsubscribe?
    ensures PingLaw(cmds + more, asked)
  {
    forall i | 0 <= i < |cmds + more|
      ensures PingAt(cmds + more, asked, i)
    {
      if i < |cmds| {
        PingAtKept(cmds, asked, more, [], i);
        assert asked + [] == asked;
      }
    }
  }

  lemma PingLawBlock(cmds: seq<Command>, asked: seq<bool>, b: bool)
    requires PingLaw(cmds, asked)
    ensures PingLaw(cmds + Block(b), asked + [b])
  {
    BlockCounts(cmds, asked, b);
    forall i | 0 <= i < |cmds + Block(b)|
      ensures PingAt(cmds + Block(b), asked + [b], i)
    {
      if i < |cmds| {
        PingAtKept(cmds, asked, Block(b), [b], i);
      } else {
        PingAtEnd(cmds, asked, b, i);
      }
    }
  }

  lemma BlockCounts(cmds: seq<Command>, asked: seq<bool>, b: bool)
    ensures multiset(cmds + Block(b))[Ping] == multiset(cmds)[Ping] + 1
    ensures multiset(cmds + Block(b))[Unsubscribe("messagechat")] ==
      multiset(cmds)[Unsubscribe("messagechat")] + (if b then 1 else 0)
    ensures multiset(asked + [b])[true] == multiset(asked)[true] + (if b then 1 else 0)
  {
  }

  lemma PingAtEnd(cmds: seq<Command>, asked: seq<bool>, b: bool, i: nat)
    requires PingLaw(cmds, asked) && |cmds| <= i < |cmds + Block(b)|
    ensures PingAt(cmds + Block(b), asked + [b], i)
  {
    var all := cmds + Block(b);
    if i == |all| - 1 {
      assert all[..i] == cmds + (if b then [Unsubscribe(CHANNEL)] else []);
      assert multiset(all[..i])[Ping] == |asked|;
      assert cmds != [] ==> PingAt(cmds, asked, |cmds| - 1);
    }
  }

  lemma {:induction false} PingLawOfHistory(h: seq<Event>)
    ensures PingLaw(Commands(h), AskedOf(h))
  {
    if h != [] {
      var front, e := h[..|h| - 1], h[|h| - 1];
      PingLawOfHistory(front);
      match e {
        case Opened(ok, password, db) =>
          PingLawQuiet(Commands(front), AskedOf(front), if ok then Setup(password, db) else []);
          assert AskedOf(h) == AskedOf(front);
        case Breathed(asked, _) => PingLawBlock(Commands(front), AskedOf(front), asked);
      }
    }
  }

  /** When no breath comes before the first context, every command of the history has been sent, in order. */
  lemma {:induction false} FlatLog(h: seq<Event>)
    requires h == [] || h[0].Opened?
    ensures Flat(LogOf(h)) == Commands(h)
    ensures h != [] ==> LogOf(h) != []
    decreases |h|
  {
    if h != [] {
      var front, e := h[..|h| - 1], h[|h| - 1];
      FlatLog(front);
      var log := LogOf(front);
      match e {
        case Opened(ok, password, db) => FlatOpened(log, if ok then Setup(password, db) else []);
        case Breathed(asked, _) => FlatLast(log, Block(asked));
      }
    }
  }

  lemma FlatOpened(log: seq<seq<Command>>, cmds: seq<Command>)
    ensures Flat(log + [cmds]) == Flat(log) + cmds
  {
    assert (log + [cmds])[..|log|] == log;
  }

  lemma FlatLast(log: seq<seq<Command>>, cmds: seq<Command>)
    requires log != []
    ensures var n := |log| - 1; Flat(log[n := log[n] + cmds]) == Flat(log) + cmds
  {
    var n := |log| - 1;
    assert log[n := log[n] + cmds][..n] == log[..n];
  }

  /** A run that starts without context never breathes before a context was created. */
  lemma {:induction false} OpenedFirst(connects: nat -> ConnectResult, s: Snap, calls: seq<PublicCall>)
    requires (s.held ==> s.history != []) && (s.history == [] || s.history[0].Opened?)
    ensures var h := Fold(connects, s, calls).history; h == [] || h[0].Opened?
    decreases |calls|
  {
    if calls != [] && CanMake(s, calls[0]) {
      OpenedFirst(connects, StepSnap(connects, s, calls[0]), calls[1..]);
    }
  }

  lemma {:induction false} SawOfCallsAt(calls: seq<PublicCall>, i: nat)
    requires i < |calls| && calls[i].CallBreath?
    ensures |SawOfCalls(calls[..i])| < |SawOfCalls(calls)|
    ensures SawOfCalls(calls)[|SawOfCalls(calls[..i])|] == SawMessage(calls[i].arrivals)
  {
    if i > 0 {
      SawOfCallsAt(calls[1..], i - 1);
      assert calls[..i][1..] == calls[1..][..i - 1];
    }
  }

  /** Did the breath before the n-th one see a message? */
  function SeenBefore(saw: seq<bool>): seq<bool> {
    seq(|saw|, n requires 0 <= n < |saw| => n > 0 && saw[n - 1])
  }

  /**
   * A new object and any sequence of calls: everything that was sent, on all contexts in order, is the
   * history's setups and one PING per breath call made; and the n-th PING comes after an UNSUBSCRIBE
   * exactly when the replies of the breath call before it held a message.
   */
  method RunOfNew(hiredis: Hiredis, calls: seq<PublicCall>) returns (client: LRedisNOBlock, made: nat)
    requires hiredis.Valid() && hiredis.contexts == {} && hiredis.replies == {}
    requires hiredis.log == [] && hiredis.attempts == 0
    modifies hiredis
    ensures client.Valid() && client.hiredis == hiredis && made == Made(hiredis.connects, NEW, calls)
    ensures View(client) == Fold(hiredis.connects, NEW, calls)
    ensures Flat(hiredis.log) == Commands(client.history)
    ensures PingLaw(Flat(hiredis.log), SeenBefore(SawOfCalls(calls[..made])))
  {
    client := new LRedisNOBlock(hiredis);
    made := AnyRun(client, calls);
    PingsOfRun(hiredis.connects, calls);
  }

  lemma PingsOfRun(connects: nat -> ConnectResult, calls: seq<PublicCall>)
    requires Linked(Fold(connects, NEW, calls).history)
    ensures var h := Fold(connects, NEW, calls).history;
      && Flat(LogOf(h)) == Commands(h)
      && PingLaw(Flat(LogOf(h)), SeenBefore(SawOfCalls(calls[..Made(connects, NEW, calls)])))
  {
    var h := Fold(connects, NEW, calls).history;
    OpenedFirst(connects, NEW, calls);
    FlatLog(h);
    BreathsOfRun(connects, NEW, calls);
    assert SawOf([]) == [];
    PingsOfHistory(h, Flat(LogOf(h)), SawOfCalls(calls[..Made(connects, NEW, calls)]));
  }

  lemma PingsOfHistory(h: seq<Event>, cmds: seq<Command>, saw: seq<bool>)
    requires Linked(h) && cmds == Commands(h) && saw == SawOf(h)
    ensures PingLaw(cmds, SeenBefore(saw))
  {
    PingLawOfHistory(h);
    AskedIsDelayedSaw(h);
    DelayedIsSeenBefore(saw);
    PingLawSame(Commands(h), AskedOf(h), cmds, SeenBefore(saw));
  }

  lemma DelayedIsSeenBefore(saw: seq<bool>)
    ensures Delayed(saw) == SeenBefore(saw)
  {
  }

  lemma PingLawSame(cmds: seq<Command>, asked: seq<bool>, all: seq<Command>, flags: seq<bool>)
    requires PingLaw(cmds, asked) && all == cmds && flags == asked
    ensures PingLaw(all, flags)
  {
  }

  /** In every linked history, each breath asked exactly when the breath before it, skipping openings, saw a message. */
  lemma {:induction false} AskedIffSawBefore(h: seq<Event>, i: nat)
    requires Linked(h) && i < |h| && h[i].Breathed?
    ensures h[i].asked <==>
      exists j: nat :: j < i && h[j].Breathed? && h[j].saw && (forall k :: j < k < i ==> h[k].Opened?)
    decreases |h|
  {
    if i < |h| - 1 {
      AskedIffSawBefore(h[..|h| - 1], i);
    } else {
      LastSawIff(h[..i]);
    }
  }

  lemma {:induction false} LastSawIff(h: seq<Event>)
    ensures LastSaw(h) <==>
      exists j: nat :: j < |h| && h[j].Breathed? && h[j].saw && (forall k :: j < k < |h| ==> h[k].Opened?)
  {
    if h != [] && !h[|h| - 1].Breathed? {
      var front := h[..|h| - 1];
      LastSawIff(front);
      if j: nat :| j < |h| && h[j].Breathed? && h[j].saw && (forall k :: j < k < |h| ==> h[k].Opened?) {
        assert front[j] == h[j];
      }
      if j: nat :| j < |front| && front[j].Breathed? && front[j].saw && (forall k :: j < k < |front| ==> front[k].Opened?) {
        assert h[j] == front[j] && forall k :: j < k < |front| ==> front[k] == h[k];
      }
    }
  }

  // ----- the commands of one context

  function Blocks(breaths: seq<Event>): seq<Command> {
    if breaths == [] then []
    else
      var e := breaths[|breaths| - 1];
      Blocks(breaths[..|breaths| - 1]) + (if e.Breathed? then Block(e.asked) else [])
  }

  lemma {:induction false} PingLawOfBreaths(setup: seq<Command>, breaths: seq<Event>)
    requires AllBreaths(breaths)
    requires forall i :: 0 <= i < |setup| ==> setup[i] != Ping && !setup[i].Unsubscribe?
    ensures PingLaw(setup + Blocks(breaths), AskedOf(breaths))
  {
    if breaths == [] {
      PingLawQuiet([], [], setup);
      PingLawSame([] + setup, [], setup + Blocks(breaths), AskedOf(breaths));
    } else {
      var n := |breaths| - 1;
      PingLawOfBreaths(setup, breaths[..n]);
      BlocksSnoc(breaths[..n], breaths[n], breaths);
      PingLawNext(setup, Blocks(breaths[..n]), AskedOf(breaths[..n]), breaths[n].asked, Blocks(breaths), AskedOf(breaths));
    }
  }

  lemma PingLawNext(setup: seq<Command>, blocks: seq<Command>, asked: seq<bool>, b: bool, all: seq<Command>, flags: seq<bool>)
    requires PingLaw(setup + blocks, asked)
    requires all == blocks + Block(b) && flags == asked + [b]
    ensures PingLaw(setup + all, flags)
  {
    PingLawBlock(setup + blocks, asked, b);
    assert setup + blocks + Block(b) == setup + all;
  }

  lemma BlocksSnoc(front: seq<Event>, e: Event, breaths: seq<Event>)
    requires e.Breathed? && breaths == front + [e]
    ensures Blocks(breaths) == Blocks(front) + Block(e.asked)
    ensures AskedOf(breaths) == AskedOf(front) + [e.asked]
  {
    assert breaths[..|breaths| - 1] == front;
  }

  lemma {:induction false} BlocksOnly(breaths: seq<Event>)
    ensures |Blocks(breaths)| == multiset(Blocks(breaths))[Ping] + multiset(Blocks(breaths))[Unsubscribe(CHANNEL)]
  {
    if breaths != [] {
      BlocksOnly(breaths[..|breaths| - 1]);
    }
  }

  predicate AllBreaths(h: seq<Event>) {
    forall i :: 0 <= i < |h| ==> h[i].Breathed?
  }

  lemma {:induction false} LogOfBreaths(before: seq<Event>, o: Event, breaths: seq<Event>)
    requires o.Opened? && AllBreaths(breaths)
    ensures LogOf(before + [o] + breaths) ==
      LogOf(before) + [(if o.ok then Setup(o.password, o.db) else []) + Blocks(breaths)]
    decreases |breaths|
  {
    var setup := if o.ok then Setup(o.password, o.db) else [];
    if breaths == [] {
      HistorySnoc(before, o);
      assert before + [o] + breaths == before + [o];
      assert setup + Blocks(breaths) == setup;
    } else {
      var front, e := breaths[..|breaths| - 1], breaths[|breaths| - 1];
      LogOfBreaths(before, o, front);
      HistorySnoc(before + [o] + front, e);
      assert before + [o] + breaths == before + [o] + front + [e];
      SentToLast(LogOf(before), setup, Blocks(front), e);
    }
  }

  lemma SentToLast(log: seq<seq<Command>>, setup: seq<Command>, blocks: seq<Command>, e: Event)
    requires e.Breathed?
    ensures Sent(log + [setup + blocks], e) == log + [setup + (blocks + Block(e.asked))]
  {
    assert setup + blocks + Block(e.asked) == setup + (blocks + Block(e.asked));
  }

  lemma {:induction false} LogOfKeeps(h: seq<Event>, after: seq<Event>, k: nat)
    requires k < |LogOf(h)| && (after == [] || after[0].Opened?)
    ensures k < |LogOf(h + after)| && LogOf(h + after)[k] == LogOf(h)[k]
    ensures after != [] ==> k < |LogOf(h + after)| - 1
    decreases |after|
  {
    if after == [] {
      assert h + after == h;
    } else {
      var front, e := after[..|after| - 1], after[|after| - 1];
      LogOfKeeps(h, front, k);
      HistorySnoc(h + front, e);
      assert h + after == h + front + [e];
    }
  }

  /**
   * What a context opened at o and used for these breaths has received, in this order and nothing else:
   * its setup, if it was usable, and for each breath PING, after UNSUBSCRIBE if the breath asked for it.
   */
  ghost predicate ReceivedFor(cmds: seq<Command>, o: Event, breaths: seq<Event>)
    requires o.Opened?
  {
    var setup :=
      if o.ok then [Auth(o.password), Select(o.db), Subscribe("messagechat"), Subscribe("messagechat1")] else [];
    && setup <= cmds
    && PingLaw(cmds, AskedOf(breaths))
    && |cmds| == |setup| + multiset(cmds)[Ping] + multiset(cmds)[Unsubscribe("messagechat")]
  }

  lemma ReceivedIf(o: Event, breaths: seq<Event>, setup: seq<Command>, blocks: seq<Command>, cmds: seq<Command>)
    requires o.Opened? && setup == (if o.ok then Setup(o.password, o.db) else [])
    requires PingLaw(setup + blocks, AskedOf(breaths)) && cmds == setup + blocks
    requires |blocks| == multiset(blocks)[Ping] + multiset(blocks)[Unsubscribe(CHANNEL)]
    ensures ReceivedFor(cmds, o, breaths)
  {
    CountsAfterSetup(setup, blocks);
  }

  lemma ReceivedInAll(cmds: seq<Command>, o: Event, breaths: seq<Event>)
    requires o.Opened? && AllBreaths(breaths)
    requires cmds == (if o.ok then Setup(o.password, o.db) else []) + Blocks(breaths)
    ensures ReceivedFor(cmds, o, breaths)
  {
    var setup := if o.ok then Setup(o.password, o.db) else [];
    PingLawOfBreaths(setup, breaths);
    BlocksOnly(breaths);
    ReceivedIf(o, breaths, setup, Blocks(breaths), cmds);
  }

  lemma CountsAfterSetup(setup: seq<Command>, blocks: seq<Command>)
    requires Ping !in setup && Unsubscribe(CHANNEL) !in setup
    ensures multiset(setup + blocks)[Ping] == multiset(blocks)[Ping]
    ensures multiset(setup + blocks)[Unsubscribe(CHANNEL)] == multiset(blocks)[Unsubscribe(CHANNEL)]
  {
    assert multiset(setup + blocks) == multiset(setup) + multiset(blocks);
  }

  /** In every history this holds for each context, with the breaths between its opening and the next. */
  lemma CommandsOfContext(before: seq<Event>, o: Event, breaths: seq<Event>, after: seq<Event>)
    requires o.Opened? && AllBreaths(breaths) && (after == [] || after[0].Opened?)
    ensures var log := LogOf(before + [o] + breaths + after);
      |LogOf(before)| < |log| && ReceivedFor(log[|LogOf(before)|], o, breaths)
  {
    LogOfBreaths(before, o, breaths);
    LogOfKeeps(before + [o] + breaths, after, |LogOf(before)|);
    ReceivedInAll(LogOf(before + [o] + breaths + after)[|LogOf(before)|], o, breaths);
  }

  /**
   * The failing case: after a refused attempt (result 0) a second call returns 1, and the context it
   * vouches for has received no command.
   */
  method RefusedThenSuccess(client: LRedisNOBlock) returns (first: int, second: int)
    requires client.Valid() && client.context == None && 1024 < client.port < 65534
    requires client.hiredis.connects(client.hiredis.attempts) == Refused
    modifies client, client.hiredis
    ensures first == 0 && second == 1
    ensures client.Valid() && client.context.Some? && client.hiredis.log[client.context.value] == []
  {
    first := client.Connect2Redis();
    second := client.Connect2Redis();
  }
}
