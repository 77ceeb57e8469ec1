/**
 * LRedisClient (project/hiredis/redisclient.cpp): the blocking client.
 */
module RedisClient {
  import opened Wrappers
  import opened PathSplitter
  import opened HiredisOracle

  const IP_MAX := 32
  const PASSWORD_MAX := 31

  // ----- what the calls do to settings, context and commands

  datatype Snap = Snap(
    ip: string, password: string, port: int, db: int, context: Option<nat>,
    attempts: nat, issued: nat, log: seq<seq<Command>>)

  const NEW := Snap("", "", 0, 0, None, 0, 0, [])

  /** Context c has been sent these commands as well. */
  function Appended(log: seq<seq<Command>>, c: nat, cmds: seq<Command>): seq<seq<Command>> {
    if c < |log| then log[c := log[c] + cmds] else log
  }

  lemma AppendedTwice(log: seq<seq<Command>>, c: nat, x: Command, y: Command)
    ensures Appended(Appended(log, c, [x]), c, [y]) == Appended(log, c, [x, y])
  {
    if c < |log| {
      assert log[c] + [x] + [y] == log[c] + [x, y];
    }
  }

  lemma AppendedToNew(log: seq<seq<Command>>, cmds: seq<Command>)
    ensures Appended(log + [[]], |log|, cmds) == log + [cmds]
  {
    assert [] + cmds == cmds;
  }

  /** A context held stays; otherwise one is tried, and only a usable one is held afterwards. */
  function Dialled(connects: nat -> ConnectResult, s: Snap): Snap {
    if s.context.Some? || !(1024 < s.port < 65534) then s
    else
      match connects(s.attempts)
      case NoContext => s.(attempts := s.attempts + 1)
      case Refused => s.(attempts := s.attempts + 1, log := s.log + [[]])
      case Connected => s.(attempts := s.attempts + 1, log := s.log + [[]], context := Some(|s.log|))
  }

  /** AUTH is sent, and SELECT once AUTH is answered; unless both are answered the context is given up. */
  function LoggedOn(answers: nat -> Option<Reply>, s: Snap): Snap {
    if s.context.None? then s
    else if answers(s.issued).None? then
      s.(context := None, issued := s.issued + 1, log := Appended(s.log, s.context.value, [Auth(s.password)]))
    else
      s.(context := if answers(s.issued + 1).Some? then s.context else None,
         issued := s.issued + 2,
         log := Appended(s.log, s.context.value, [Auth(s.password), Select(s.db)]))
  }

  function Connected2Redis(connects: nat -> ConnectResult, answers: nat -> Option<Reply>, s: Snap): Snap {
    LoggedOn(answers, Dialled(connects, s))
  }

  /** A command on the context held, if its arguments passed the checks. */
  function Asked(s: Snap, cmd: Option<Command>): Snap {
    if cmd.None? || s.context.None? then s
    else s.(issued := s.issued + 1, log := Appended(s.log, s.context.value, [cmd.value]))
  }

  class LRedisClient {
    const hiredis: Hiredis
    var ip: string
    var password: string
    var port: int
    var db: int
    var context: Option<nat>

    /** The only context not freed is the one held, and no reply is left over. */
    ghost predicate Valid()
      reads this, hiredis
    {
      && hiredis.Valid()
      && hiredis.replies == {}
      && hiredis.contexts == (if context.Some? then {context.value} else {})
    }

    constructor (hiredis: Hiredis)
      requires hiredis.Valid() && hiredis.contexts == {} && hiredis.replies == {}
      ensures Valid() && this.hiredis == hiredis
      ensures ip == "" && password == "" && port == 0 && db == 0 && context == None
    {
      this.hiredis := hiredis;
      ip, password, port, db, context := "", "", 0, 0, None;
    }

    method Init(ip: Option<string>, port: int, db: int, password: Option<string>) returns (result: int)
      requires Valid()
      modifies this`ip, this`password, this`port, this`db
      ensures Valid()
      ensures result == if ip.Some? && password.Some? && 1024 < port < 65534 then 1 else 0
      ensures
        if result == 1 then
          && this.ip == Cut(CStr(ip.value), IP_MAX) && this.password == Cut(CStr(password.value), PASSWORD_MAX)
          && this.port == port && this.db == db
        else
          this.ip == old(this.ip) && this.password == old(this.password) && this.port == old(this.port) && this.db == old(this.db)
      ensures result == 1 ==>
        var a, p := CStr(ip.value), CStr(password.value);
        && this.ip == (if |a| <= 32 then a else a[..32])
        && this.password == (if |p| <= 31 then p else p[..31])
    {
      result := 0;
      if ip.None? || password.None? || !(1024 < port < 65534) {
        return;
      }
      this.db := db;
      this.port := port;
      this.ip := Cut(CStr(ip.value), IP_MAX);
      this.password := Cut(CStr(password.value), PASSWORD_MAX);
      result := 1;
    }

    method FreeRes()
      requires Valid()
      modifies this`context, hiredis`contexts
      ensures Valid() && context == None
    {
      if context.Some? {
        hiredis.Free(context.value);
        context := None;
      }
    }

    method Uninit()
      requires Valid()
      modifies this`ip, this`password, this`port, this`db, this`context, hiredis`contexts
      ensures Valid() && context == None && ip == "" && password == "" && port == 0 && db == 0
    {
      FreeRes();
      ip, password, port, db := "", "", 0, 0;
    }

    ghost function View(): Snap
      reads this, hiredis
    {
      Snap(ip, password, port, db, context, hiredis.attempts, hiredis.issued, hiredis.log)
    }

    /** _Connect: a refused context is kept, to be freed by the caller. */
    method Connect() returns (result: int)
      requires Valid()
      modifies this`context, hiredis
      ensures Valid() && hiredis.issued == old(hiredis.issued)
      ensures
        var outcome := hiredis.connects(old(hiredis.attempts));
        var tries := old(context).None? && 1024 < port < 65534;
        && hiredis.attempts == old(hiredis.attempts) + (if tries then 1 else 0)
        && result == (if old(context).Some? || (tries && outcome == Connected) then 1 else 0)
        && (context.Some? <==> old(context).Some? || (tries && outcome != NoContext))
        && (old(context).Some? ==> context == old(context))
        && (old(context).None? && context.Some? ==> context == Some(|old(hiredis.log)|))
        && hiredis.log == old(hiredis.log) + (if tries && outcome != NoContext then [[]] else [])
    {
      result := 0;
      if context.Some? {
        result := 1;
        return;
      }
      if !(1024 < port < 65534) {
        return;
      }
      var err;
      context, err := hiredis.Connect();
      if context.None? || err {
        return;
      }
      result := 1;
    }

    /** _Auth and _SelectDB: without a context nothing; otherwise the command is issued, its reply freed, and only its existence counts. */
    method Ask(cmd: Command) returns (result: int)
      requires Valid()
      modifies hiredis
      ensures Valid() && hiredis.attempts == old(hiredis.attempts)
      ensures
        if context.None? then result == 0 && hiredis.issued == old(hiredis.issued) && hiredis.log == old(hiredis.log)
        else
          && result == (if hiredis.answers(old(hiredis.issued)).Some? then 1 else 0)
          && hiredis.issued == old(hiredis.issued) + 1
          && hiredis.log == Appended(old(hiredis.log), context.value, [cmd])
          && hiredis.log[context.value] == old(hiredis.log)[context.value] + [cmd]
    {
      result := 0;
      if context.None? {
        return;
      }
      var r := hiredis.Do(context.value, cmd);
      result := if r.Some? then 1 else 0;
      hiredis.FreeReply(r);
    }

    /**
     * Success means exactly: a context was held or a usable one was made, and both AUTH and SELECT were
     * answered.  It also means exactly that a context is held afterwards; every failure frees it.
     */
    method Connect2Redis() returns (result: int)
      requires Valid()
      modifies this`context, hiredis
      ensures Valid() && (result == 0 || result == 1)
      ensures result == 1 <==> context.Some?
      ensures
        var outcome := hiredis.connects(old(hiredis.attempts));
        var tries := old(context).None? && 1024 < port < 65534;
        var n := old(hiredis.issued);
        result == 1 <==>
          && (old(context).Some? || (tries && outcome == Connected))
          && hiredis.answers(n).Some? && hiredis.answers(n + 1).Some?
      ensures View() == Connected2Redis(hiredis.connects, hiredis.answers, old(View()))
      ensures
        var outcome := hiredis.connects(old(hiredis.attempts));
        var tries := old(context).None? && 1024 < port < 65534;
        var cmds := if hiredis.answers(old(hiredis.issued)).Some? then [Auth(password), Select(db)] else [Auth(password)];
        if old(context).Some? then
          var c, log := old(context).value, old(hiredis.log);
          hiredis.log == log[c := log[c] + cmds]
        else if !tries || outcome == NoContext then hiredis.log == old(hiredis.log)
        else hiredis.log == old(hiredis.log) + [if outcome == Connected then cmds else []]
    {
      AppendedToNew(hiredis.log, [Auth(password)]);
      AppendedToNew(hiredis.log, [Auth(password), Select(db)]);
      result := Connect();
      if result == 1 {
        result := Login();
      }
      if result != 1 {
        FreeRes();
      }
    }

    method Login() returns (result: int)
      requires Valid() && context.Some?
      modifies hiredis
      ensures Valid() && (result == 0 || result == 1) && hiredis.attempts == old(hiredis.attempts)
      ensures
        var n := old(hiredis.issued);
        var first := hiredis.answers(n).Some?;
        && (result == 1 <==> first && hiredis.answers(n + 1).Some?)
        && hiredis.issued == n + (if first then 2 else 1)
        && hiredis.log == Appended(old(hiredis.log), context.value,
                                   if first then [Auth(password), Select(db)] else [Auth(password)])
        && hiredis.log[context.value] ==
           old(hiredis.log)[context.value] + if first then [Auth(password), Select(db)] else [Auth(password)]
    {
      ghost var c, before := context.value, hiredis.log;
      result := Ask(Auth(password));
      if result == 1 {
        result := Ask(Select(db));
        AppendedTwice(before, c, Auth(password), Select(db));
      }
    }

    /** The old context is freed first, so the new session starts on a context of its own. */
    method ReConnect2Redis() returns (result: int)
      requires Valid()
      modifies this`context, hiredis
      ensures Valid() && (result == 0 || result == 1)
      ensures result == 1 <==> context.Some?
      ensures View() == Connected2Redis(hiredis.connects, hiredis.answers, old(View()).(context := None))
      ensures result == 1 ==> hiredis.log == old(hiredis.log) + [[Auth(password), Select(db)]]
    {
      FreeRes();
      result := Connect2Redis();
    }

    /** SetString, SetByte and HSetByte: success means an answer that is not an error. */
    method Store(cmd: Option<Command>) returns (result: int)
      requires Valid() && context.Some?
      modifies hiredis
      ensures Valid()
      ensures View() == Asked(old(View()), cmd)
      ensures
        if cmd.Some? then
          var c, log := context.value, old(hiredis.log);
          hiredis.issued == old(hiredis.issued) + 1 && hiredis.log == log[c := log[c] + [cmd.value]]
        else
          hiredis.issued == old(hiredis.issued) && hiredis.log == old(hiredis.log)
      ensures (result == 0 || result == 1)
      ensures var a := hiredis.answers(old(hiredis.issued));
        result == 1 <==> cmd.Some? && a.Some? && a.value.kind != ErrorReply
    {
      result := 0;
      if cmd.None? {
        return;
      }
      var r := hiredis.Do(context.value, cmd.value);
      if r.Some? && r.value.reply.kind != ErrorReply {
        result := 1;
      }
      hiredis.FreeReply(r);
    }

    /**
     * GetString: the answer must be a string shorter than the buffer; then the buffer is that string,
     * up to its first NUL, padded with NULs.  Otherwise the buffer is untouched.
     */
    method GetString(key: Option<string>, out: array<char>) returns (result: int)
      requires Valid() && context.Some?
      modifies hiredis, out
      ensures Valid()
      ensures View() == Asked(old(View()), if key.Some? && out.Length > 0 then Some(Get(key.value)) else None)
      ensures
        if key.Some? && out.Length > 0 then
          var c, log := context.value, old(hiredis.log);
          hiredis.issued == old(hiredis.issued) + 1 && hiredis.log == log[c := log[c] + [Get(key.value)]]
        else
          hiredis.issued == old(hiredis.issued) && hiredis.log == old(hiredis.log)
      ensures
        var a := hiredis.answers(old(hiredis.issued));
        result == (if key.Some? && out.Length > 0 && a.Some? && a.value.kind == StringReply && |a.value.str| < out.Length
                   then 1 else 0)
        && if result == 1 then
             var t := CStr(a.value.str);
             out[..|t|] == t && forall i :: |t| <= i < out.Length ==> out[i] == '\0'
           else
             out[..] == old(out[..])
    {
      result := 0;
      if key.None? || out.Length == 0 {
        return;
      }
      var r := hiredis.Do(context.value, Get(key.value));
      if r.Some? && r.value.reply.kind == StringReply && |r.value.reply.str| < out.Length {
        StrNCpy(out, r.value.reply.str);
        result := 1;
      }
      hiredis.FreeReply(r);
    }

    /** memset to NUL, then copy up to the first NUL */
    method StrNCpy(out: array<char>, s: string)
      requires |s| < out.Length
      modifies out
      ensures var t := CStr(s);
        out[..|t|] == t && forall i :: |t| <= i < out.Length ==> out[i] == '\0'
    {
      var t := CStr(s);
      forall i | 0 <= i < out.Length {
        out[i] := if i < |t| then t[i] else '\0';
      }
    }

    /** GetByte and HGetByte: as much of the answer as fits is copied; the rest of the buffer is untouched. */
    method GetByte(cmd: Option<Command>, out: array<char>) returns (result: int)
      requires Valid() && context.Some?
      modifies hiredis, out
      ensures Valid()
      ensures View() == Asked(old(View()), if out.Length > 0 then cmd else None)
      ensures
        if cmd.Some? && out.Length > 0 then
          var c, log := context.value, old(hiredis.log);
          hiredis.issued == old(hiredis.issued) + 1 && hiredis.log == log[c := log[c] + [cmd.value]]
        else
          hiredis.issued == old(hiredis.issued) && hiredis.log == old(hiredis.log)
      ensures
        var a := hiredis.answers(old(hiredis.issued));
        if cmd.Some? && out.Length > 0 && a.Some? && a.value.kind == StringReply then
          && result == Min(|a.value.str|, out.Length)
          && out[..] == a.value.str[..result] + old(out[..])[result..]
        else
          result == 0 && out[..] == old(out[..])
    {
      result := 0;
      if cmd.None? || out.Length == 0 {
        return;
      }
      var r := hiredis.Do(context.value, cmd.value);
      if r.Some? && r.value.reply.kind == StringReply {
        var s := r.value.reply.str;
        result := if |s| >= out.Length then out.Length else |s|;
        forall i | 0 <= i < result {
          out[i] := s[i];
        }
      }
      hiredis.FreeReply(r);
    }
  }

  // ----- every sequence of public calls

  /** SetString, SetByte and HSetByte are CallStore; GetString, GetByte and HGetByte are CallGet with the room in the buffer. */
  datatype PublicCall =
    | CallInit(ip: Option<string>, port: int, db: int, password: Option<string>)
    | CallConnect
    | CallReconnect
    | CallUninit
    | CallStore(cmd: Option<Command>)
    | CallGetString(key: Option<string>, room: nat)
    | CallGetByte(cmd: Option<Command>, room: nat)

  predicate CanMake(s: Snap, call: PublicCall) {
    call.CallStore? || call.CallGetString? || call.CallGetByte? ==> s.context.Some?
  }

  function StepSnap(connects: nat -> ConnectResult, answers: nat -> Option<Reply>, s: Snap, call: PublicCall): Snap {
    match call
    case CallInit(ip, port, db, password) =>
      if ip.Some? && password.Some? && 1024 < port < 65534 then
        s.(ip := Cut(CStr(ip.value), IP_MAX), password := Cut(CStr(password.value), PASSWORD_MAX), port := port, db := db)
      else s
    case CallConnect => Connected2Redis(connects, answers, s)
    case CallReconnect => Connected2Redis(connects, answers, s.(context := None))
    case CallUninit => s.(ip := "", password := "", port := 0, db := 0, context := None)
    case CallStore(cmd) => Asked(s, cmd)
    case CallGetString(key, room) => Asked(s, if key.Some? && room > 0 then Some(Get(key.value)) else None)
    case CallGetByte(cmd, room) => Asked(s, if room > 0 then cmd else None)
  }

  /** The calls are made until one would need a context that is not there. */
  function Fold(connects: nat -> ConnectResult, answers: nat -> Option<Reply>, s: Snap, calls: seq<PublicCall>): Snap
    decreases |calls|
  {
    if calls == [] || !CanMake(s, calls[0]) then s
    else Fold(connects, answers, StepSnap(connects, answers, s, calls[0]), calls[1..])
  }

  /** How many of the calls are made. */
  function Made(connects: nat -> ConnectResult, answers: nat -> Option<Reply>, s: Snap, calls: seq<PublicCall>): (n: nat)
    ensures n <= |calls|
    decreases |calls|
  {
    if calls == [] || !CanMake(s, calls[0]) then 0
    else 1 + Made(connects, answers, StepSnap(connects, answers, s, calls[0]), calls[1..])
  }

  /** Runs compose: a second sequence of calls goes on from where the first left off, and one call is one step. */
  lemma {:induction false} RunsCompose(connects: nat -> ConnectResult, answers: nat -> Option<Reply>, s: Snap,
                                       a: seq<PublicCall>, b: seq<PublicCall>)
    requires Made(connects, answers, s, a) == |a|
    ensures Fold(connects, answers, s, a + b) == Fold(connects, answers, Fold(connects, answers, s, a), b)
    ensures Made(connects, answers, s, a + b) == |a| + Made(connects, answers, Fold(connects, answers, s, a), b)
    ensures |a| == 1 ==> Fold(connects, answers, s, a) == StepSnap(connects, answers, s, a[0])
    decreases |a|
  {
    if a == [] {
      assert a + b == b;
    } else {
      assert (a + b)[1..] == a[1..] + b;
      RunsCompose(connects, answers, StepSnap(connects, answers, s, a[0]), a[1..], b);
    }
  }

  method MakeCall(client: LRedisClient, call: PublicCall)
    requires client.Valid() && CanMake(client.View(), call)
    modifies client, client.hiredis
    ensures client.Valid()
    ensures client.View() == StepSnap(client.hiredis.connects, client.hiredis.answers, old(client.View()), call)
    ensures call.CallInit? && call.ip.Some? && call.password.Some? && 1024 < call.port < 65534 ==>
      client.port == call.port && client.db == call.db
    ensures call.CallConnect? || call.CallReconnect? ==>
      var h := client.hiredis;
      var held, tries := old(client.context).Some? && call.CallConnect?, 1024 < old(client.port) < 65534;
      client.context.Some? <==>
        && (held || (tries && h.connects(old(h.attempts)) == Connected))
        && h.answers(old(h.issued)).Some? && h.answers(old(h.issued) + 1).Some?
    ensures call.CallUninit? ==> client.context == None && client.port == 0
    ensures call.CallStore? && call.cmd.Some? ==> client.hiredis.issued == old(client.hiredis.issued) + 1
    ensures call.CallGetString? && call.key.Some? && call.room > 0 ==> client.hiredis.issued == old(client.hiredis.issued) + 1
    ensures call.CallGetByte? && call.cmd.Some? && call.room > 0 ==> client.hiredis.issued == old(client.hiredis.issued) + 1
  {
    match call {
      case CallInit(ip, port, db, password) => var _ := client.Init(ip, port, db, password);
      case CallConnect => var _ := client.Connect2Redis();
      case CallReconnect => var _ := client.ReConnect2Redis();
      case CallUninit => client.Uninit();
      case CallStore(cmd) => var _ := client.Store(cmd);
      case CallGetString(key, room) =>
        var out := new char[room](_ => '\0');
        var _ := client.GetString(key, out);
      case CallGetByte(cmd, room) =>
        var out := new char[room](_ => '\0');
        var _ := client.GetByte(cmd, out);
    }
  }

  /** Any sequence of public calls does exactly what Fold says, stops only for want of a context, and leaves one context unfreed if one is held, and no reply. */
  method AnyRun(client: LRedisClient, calls: seq<PublicCall>) returns (made: nat)
    requires client.Valid()
    modifies client, client.hiredis
    ensures client.Valid()
    ensures client.View() == Fold(client.hiredis.connects, client.hiredis.answers, old(client.View()), calls)
    ensures made == Made(client.hiredis.connects, client.hiredis.answers, old(client.View()), calls)
    ensures made == |calls| ||
      (made < |calls| && client.context == None && (calls[made].CallStore? || calls[made].CallGetString? || calls[made].CallGetByte?))
    decreases |calls|
  {
    made := 0;
    if calls == [] || (client.context == None && (calls[0].CallStore? || calls[0].CallGetString? || calls[0].CallGetByte?)) {
      return;
    }
    MakeCall(client, calls[0]);
    var rest := AnyRun(client, calls[1..]);
    made := rest + 1;
  }

  // ----- laws of every run

  function Total(log: seq<seq<Command>>): nat {
    if log == [] then 0 else Total(log[..|log| - 1]) + |log[|log| - 1]|
  }

  lemma {:induction false} TotalAppended(log: seq<seq<Command>>, c: nat, cmds: seq<Command>)
    requires c < |log|
    ensures Total(Appended(log, c, cmds)) == Total(log) + |cmds|
    decreases |log|
  {
    var n := |log| - 1;
    if c < n {
      TotalAppended(log[..n], c, cmds);
      assert Appended(log, c, cmds)[..n] == Appended(log[..n], c, cmds);
    } else {
      assert Appended(log, c, cmds)[..n] == log[..n];
    }
  }

  lemma TotalOpened(log: seq<seq<Command>>)
    ensures Total(log + [[]]) == Total(log)
    ensures AuthFirst(log) ==> AuthFirst(log + [[]])
  {
    assert (log + [[]])[..|log|] == log;
  }

  /** No context was ever sent anything before AUTH. */
  predicate AuthFirst(log: seq<seq<Command>>) {
    forall c :: 0 <= c < |log| && log[c] != [] ==> log[c][0].Auth?
  }

  /** AUTH, then SELECT. */
  predicate LoggedIn(cmds: seq<Command>) {
    |cmds| >= 2 && cmds[0].Auth? && cmds[1].Select?
  }

  /** Every command issued is in the log; AUTH comes first everywhere; the context held has been logged in. */
  predicate InOrder(s: Snap) {
    && Total(s.log) == s.issued
    && AuthFirst(s.log)
    && (s.context.Some? ==> s.context.value < |s.log| && LoggedIn(s.log[s.context.value]))
  }

  lemma AskedKeeps(s: Snap, cmd: Option<Command>)
    requires InOrder(s)
    ensures InOrder(Asked(s, cmd))
  {
    if cmd.Some? && s.context.Some? {
      TotalAppended(s.log, s.context.value, [cmd.value]);
    }
  }

  /** The same before the login: the context held may be untouched. */
  predicate OnRecord(s: Snap) {
    && Total(s.log) == s.issued
    && AuthFirst(s.log)
    && (s.context.Some? ==>
          s.context.value < |s.log| && (s.log[s.context.value] == [] || LoggedIn(s.log[s.context.value])))
  }

  lemma DialledKeeps(connects: nat -> ConnectResult, s: Snap)
    requires InOrder(s)
    ensures OnRecord(Dialled(connects, s))
  {
    TotalOpened(s.log);
  }

  lemma LoggedOnKeeps(answers: nat -> Option<Reply>, s: Snap)
    requires OnRecord(s)
    ensures InOrder(LoggedOn(answers, s))
  {
    if s.context.Some? {
      TotalAppended(s.log, s.context.value, [Auth(s.password)]);
      TotalAppended(s.log, s.context.value, [Auth(s.password), Select(s.db)]);
    }
  }

  lemma ConnectedKeeps(connects: nat -> ConnectResult, answers: nat -> Option<Reply>, s: Snap)
    requires InOrder(s)
    ensures InOrder(Connected2Redis(connects, answers, s))
  {
    DialledKeeps(connects, s);
    LoggedOnKeeps(answers, Dialled(connects, s));
  }

  /** From a new object on, whatever is called and whatever hiredis answers. */
  lemma {:induction false} RunInOrder(connects: nat -> ConnectResult, answers: nat -> Option<Reply>, s: Snap, calls: seq<PublicCall>)
    requires InOrder(s)
    ensures InOrder(Fold(connects, answers, s, calls))
    decreases |calls|
  {
    if calls != [] && CanMake(s, calls[0]) {
      StepInOrder(connects, answers, s, calls[0]);
      RunInOrder(connects, answers, StepSnap(connects, answers, s, calls[0]), calls[1..]);
    }
  }

  lemma StepInOrder(connects: nat -> ConnectResult, answers: nat -> Option<Reply>, s: Snap, call: PublicCall)
    requires InOrder(s)
    ensures InOrder(StepSnap(connects, answers, s, call))
  {
    match call {
      case CallConnect => ConnectedKeeps(connects, answers, s);
      case CallReconnect => ConnectedKeeps(connects, answers, s.(context := None));
      case CallStore(cmd) => AskedKeeps(s, cmd);
      case CallGetString(key, room) => AskedKeeps(s, if key.Some? && room > 0 then Some(Get(key.value)) else None);
      case CallGetByte(cmd, room) => AskedKeeps(s, if room > 0 then cmd else None);
      case _ =>
    }
  }

  /**
   * A new object and any sequence of calls: every command issued is on record, nothing was ever sent
   * before AUTH, the context held has been sent AUTH and SELECT, and all else has been freed.
   */
  method RunOfNew(hiredis: Hiredis, calls: seq<PublicCall>) returns (client: LRedisClient)
    requires hiredis.Valid() && hiredis.contexts == {} && hiredis.replies == {}
    requires hiredis.log == [] && hiredis.attempts == 0 && hiredis.issued == 0
    modifies hiredis
    ensures client.Valid() && client.hiredis == hiredis
    ensures client.View() == Fold(hiredis.connects, hiredis.answers, NEW, calls) && InOrder(client.View())
  {
    client := new LRedisClient(hiredis);
    var _ := AnyRun(client, calls);
    RunInOrder(hiredis.connects, hiredis.answers, NEW, calls);
  }
}
