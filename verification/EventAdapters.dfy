/**
 * The event-library adapters of hiredis (include/hiredis/adapters).
 *
 * hiredis drives every adapter through the same four hooks.  The reference is a pair
 * of bits, Interest; each adapter keeps it in its own way (flags, a bit mask, allocated
 * notifiers) and each is proved to agree with it after every sequence of hooks.
 */
module EventAdapters {

  datatype Direction = Read | Write

  datatype Hook = AddRead | DelRead | AddWrite | DelWrite

  /** What hiredis has asked to be told about. */
  datatype Interest = Interest(read: bool, write: bool)

  const NOTHING := Interest(false, false)

  function Apply(i: Interest, h: Hook): Interest {
    match h
    case AddRead => i.(read := true)
    case DelRead => i.(read := false)
    case AddWrite => i.(write := true)
    case DelWrite => i.(write := false)
  }

  function ApplyAll(i: Interest, hooks: seq<Hook>): Interest {
    if hooks == [] then i
    else Apply(ApplyAll(i, hooks[..|hooks| - 1]), hooks[|hooks| - 1])
  }

  lemma ApplyAllSnoc(i: Interest, hooks: seq<Hook>, k: nat)
    requires k < |hooks|
    ensures ApplyAll(i, hooks[..k + 1]) == Apply(ApplyAll(i, hooks[..k]), hooks[k])
  {
    assert hooks[..k + 1][..k] == hooks[..k];
  }

  /** Direction d of the interest is the last hook that mentions d. */
  function LastWord(before: bool, hooks: seq<Hook>, add: Hook, del: Hook): bool {
    if hooks == [] then before
    else
      var h := hooks[|hooks| - 1];
      if h == add then true
      else if h == del then false
      else LastWord(before, hooks[..|hooks| - 1], add, del)
  }

  /** After any sequence of hooks only the last one per direction counts. */
  lemma {:induction false} OnlyLastHookCounts(i: Interest, hooks: seq<Hook>)
    ensures ApplyAll(i, hooks) ==
      Interest(LastWord(i.read, hooks, AddRead, DelRead), LastWord(i.write, hooks, AddWrite, DelWrite))
    decreases |hooks|
  {
    if hooks != [] {
      OnlyLastHookCounts(i, hooks[..|hooks| - 1]);
    }
  }

  /** Some hook adds, and none after it deletes. */
  predicate LastAdded(hooks: seq<Hook>, add: Hook, del: Hook) {
    exists k :: 0 <= k < |hooks| && hooks[k] == add && forall j :: k < j < |hooks| ==> hooks[j] != del
  }

  lemma {:induction false} LastWordIff(hooks: seq<Hook>, add: Hook, del: Hook)
    requires add != del
    ensures LastWord(false, hooks, add, del) <==> LastAdded(hooks, add, del)
  {
    if hooks != [] {
      var n := |hooks| - 1;
      LastWordIff(hooks[..n], add, del);
      if hooks[n] != add && hooks[n] != del {
        assert forall j :: 0 <= j < n ==> hooks[j] == hooks[..n][j];
        if LastAdded(hooks[..n], add, del) {
          var k :| 0 <= k < n && hooks[..n][k] == add && forall j :: k < j < n ==> hooks[..n][j] != del;
          assert hooks[k] == add && forall j :: k < j < |hooks| ==> hooks[j] != del;
        }
      }
    }
  }

  /** From nothing on, a direction is wanted exactly if it was added and not deleted since. */
  lemma WantedIff(hooks: seq<Hook>)
    ensures ApplyAll(NOTHING, hooks).read <==> LastAdded(hooks, AddRead, DelRead)
    ensures ApplyAll(NOTHING, hooks).write <==> LastAdded(hooks, AddWrite, DelWrite)
  {
    OnlyLastHookCounts(NOTHING, hooks);
    LastWordIff(hooks, AddRead, DelRead);
    LastWordIff(hooks, AddWrite, DelWrite);
  }

  // ----- ae.h and libev.h: two flags, and a library call whenever one of them changes

  /** aeCreateFileEvent / ev_io_start, aeDeleteFileEvent / ev_io_stop */
  datatype LibraryCall = Register(d: Direction) | Unregister(d: Direction)

  /** Is d registered after these calls?  Broken if they did not strictly alternate. */
  datatype Registration = Off | On | Broken

  function Replay(log: seq<LibraryCall>, d: Direction): Registration {
    if log == [] then Off
    else
      var r := Replay(log[..|log| - 1], d);
      match log[|log| - 1]
      case Register(e) => if e != d then r else if r == Off then On else Broken
      case Unregister(e) => if e != d then r else if r == On then Off else Broken
  }

  function RegistrationOf(b: bool): Registration {
    if b then On else Off
  }

  lemma ReplaySnoc(log: seq<LibraryCall>, c: LibraryCall, d: Direction)
    ensures Replay(log + [c], d) ==
      var r := Replay(log, d);
      match c
      case Register(e) => if e != d then r else if r == Off then On else Broken
      case Unregister(e) => if e != d then r else if r == On then Off else Broken
  {
  }

  function CountCalls(log: seq<LibraryCall>, c: LibraryCall): nat {
    if log == [] then 0
    else CountCalls(log[..|log| - 1], c) + (if log[|log| - 1] == c then 1 else 0)
  }

  /** Alternating calls balance: one more Register than Unregister exactly while the direction is on. */
  lemma {:induction false} AlternationBalances(log: seq<LibraryCall>, d: Direction)
    requires Replay(log, d) != Broken
    ensures CountCalls(log, Register(d)) == CountCalls(log, Unregister(d)) + (if Replay(log, d) == On then 1 else 0)
    decreases |log|
  {
    if log != [] {
      AlternationBalances(log[..|log| - 1], d);
    }
  }

  class FlagAdapter {
    var reading: bool
    var writing: bool
    var log: seq<LibraryCall>
    /** cleanup frees the adapter; no hook may follow */
    ghost var freed: bool

    ghost predicate Valid()
      reads this
    {
      !freed && Replay(log, Read) == RegistrationOf(reading) && Replay(log, Write) == RegistrationOf(writing)
    }

    function View(): Interest
      reads this
    {
      Interest(reading, writing)
    }

    constructor Attach()
      ensures Valid() && View() == NOTHING && log == []
    {
      reading, writing, log, freed := false, false, [], false;
    }

    method Call(c: LibraryCall)
      modifies this`log
      ensures log == old(log) + [c]
    {
      log := log + [c];
    }

    method AddReadHook()
      requires Valid()
      modifies this
      ensures Valid() && View() == Apply(old(View()), AddRead)
      ensures log == if old(reading) then old(log) else old(log) + [Register(Read)]
    {
      if !reading {
        reading := true;
        ReplaySnoc(log, Register(Read), Read);
        ReplaySnoc(log, Register(Read), Write);
        Call(Register(Read));
      }
    }

    method DelReadHook()
      requires Valid()
      modifies this
      ensures Valid() && View() == Apply(old(View()), DelRead)
      ensures log == if old(reading) then old(log) + [Unregister(Read)] else old(log)
    {
      if reading {
        reading := false;
        ReplaySnoc(log, Unregister(Read), Read);
        ReplaySnoc(log, Unregister(Read), Write);
        Call(Unregister(Read));
      }
    }

    method AddWriteHook()
      requires Valid()
      modifies this
      ensures Valid() && View() == Apply(old(View()), AddWrite)
      ensures log == if old(writing) then old(log) else old(log) + [Register(Write)]
    {
      if !writing {
        writing := true;
        ReplaySnoc(log, Register(Write), Read);
        ReplaySnoc(log, Register(Write), Write);
        Call(Register(Write));
      }
    }

    method DelWriteHook()
      requires Valid()
      modifies this
      ensures Valid() && View() == Apply(old(View()), DelWrite)
      ensures log == if old(writing) then old(log) + [Unregister(Write)] else old(log)
    {
      if writing {
        writing := false;
        ReplaySnoc(log, Unregister(Write), Read);
        ReplaySnoc(log, Unregister(Write), Write);
        Call(Unregister(Write));
      }
    }

    /** Any sequence of hooks hiredis may call. */
    method Drive(hooks: seq<Hook>)
      requires Valid()
      modifies this
      ensures Valid() && View() == ApplyAll(old(View()), hooks)
    {
      for k := 0 to |hooks|
        invariant Valid() && View() == ApplyAll(old(View()), hooks[..k])
      {
        ApplyAllSnoc(old(View()), hooks, k);
        match hooks[k] {
          case AddRead => AddReadHook();
          case DelRead => DelReadHook();
          case AddWrite => AddWriteHook();
          case DelWrite => DelWriteHook();
        }
      }
      assert hooks[..|hooks|] == hooks;
    }

    /** From every state, cleanup unregisters exactly what is registered, so the library's books balance, and frees the adapter. */
    method Cleanup()
      requires Valid()
      modifies this
      ensures freed && View() == NOTHING
      ensures Replay(log, Read) == Off && Replay(log, Write) == Off
      ensures log == old(log) + (if old(reading) then [Unregister(Read)] else [])
                              + (if old(writing) then [Unregister(Write)] else [])
    {
      DelReadHook();
      DelWriteHook();
      freed := true;
    }
  }

  lemma {:induction false} CountIsMultiplicity(log: seq<LibraryCall>, c: LibraryCall)
    ensures CountCalls(log, c) == multiset(log)[c]
  {
    if log != [] {
      var n := |log| - 1;
      CountIsMultiplicity(log[..n], c);
      assert log == log[..n] + [log[n]];
    }
  }

  /** A new adapter after any hooks: the flags follow the last hooks, and a flag is up exactly while one registration is outstanding. */
  method AttachAndDrive(hooks: seq<Hook>) returns (a: FlagAdapter)
    ensures fresh(a) && a.Valid()
    ensures a.reading <==> LastAdded(hooks, AddRead, DelRead)
    ensures a.writing <==> LastAdded(hooks, AddWrite, DelWrite)
    ensures multiset(a.log)[Register(Read)] == multiset(a.log)[Unregister(Read)] + (if a.reading then 1 else 0)
    ensures multiset(a.log)[Register(Write)] == multiset(a.log)[Unregister(Write)] + (if a.writing then 1 else 0)
  {
    a := new FlagAdapter.Attach();
    a.Drive(hooks);
    WantedIff(hooks);
    forall d: Direction
      ensures multiset(a.log)[Register(d)] == multiset(a.log)[Unregister(d)] + (if Replay(a.log, d) == On then 1 else 0)
    {
      if d == Read { assert Replay(a.log, Read) != Broken; } else { assert Replay(a.log, Write) != Broken; }
      AlternationBalances(a.log, d);
      CountIsMultiplicity(a.log, Register(d));
      CountIsMultiplicity(a.log, Unregister(d));
    }
  }

  // ----- qt.h: a direction is watched while its notifier exists

  class Notifier {
    const d: Direction

    constructor (d: Direction)
      ensures this.d == d
    {
      this.d := d;
    }
  }

  class QtAdapter {
    var read: Notifier?
    var write: Notifier?
    var created: nat
    var deleted: nat

    function Held(): nat
      reads this
    {
      (if read != null then 1 else 0) + (if write != null then 1 else 0)
    }

    ghost predicate Valid()
      reads this
    {
      && created == deleted + Held()
      && (read != null ==> read.d == Read)
      && (write != null ==> write.d == Write)
    }

    function View(): Interest
      reads this
    {
      Interest(read != null, write != null)
    }

    constructor ()
      ensures Valid() && View() == NOTHING && created == 0
    {
      read, write, created, deleted := null, null, 0, 0;
    }

    method AddReadHook()
      requires Valid()
      modifies this
      ensures Valid() && View() == Apply(old(View()), AddRead)
      ensures write == old(write) && (old(read) != null ==> read == old(read) && created == old(created))
      ensures deleted == old(deleted)
    {
      if read != null { return; }
      read := new Notifier(Read);
      created := created + 1;
    }

    method DelReadHook()
      requires Valid()
      modifies this
      ensures Valid() && View() == Apply(old(View()), DelRead)
      ensures write == old(write) && created == old(created)
    {
      if read == null { return; }
      deleted := deleted + 1;
      read := null;
    }

    method AddWriteHook()
      requires Valid()
      modifies this
      ensures Valid() && View() == Apply(old(View()), AddWrite)
      ensures read == old(read) && (old(write) != null ==> write == old(write) && created == old(created))
      ensures deleted == old(deleted)
    {
      if write != null { return; }
      write := new Notifier(Write);
      created := created + 1;
    }

    method DelWriteHook()
      requires Valid()
      modifies this
      ensures Valid() && View() == Apply(old(View()), DelWrite)
      ensures read == old(read) && created == old(created)
    {
      if write == null { return; }
      deleted := deleted + 1;
      write := null;
    }

    /** Any sequence of hooks. */
    method Drive(hooks: seq<Hook>)
      requires Valid()
      modifies this
      ensures Valid() && View() == ApplyAll(old(View()), hooks)
    {
      for k := 0 to |hooks|
        invariant Valid() && View() == ApplyAll(old(View()), hooks[..k])
      {
        ApplyAllSnoc(old(View()), hooks, k);
        match hooks[k] {
          case AddRead => AddReadHook();
          case DelRead => DelReadHook();
          case AddWrite => AddWriteHook();
          case DelWrite => DelWriteHook();
        }
      }
      assert hooks[..|hooks|] == hooks;
    }

    method Cleanup()
      requires Valid()
      modifies this
      ensures Valid() && View() == NOTHING && created == deleted == old(created)
    {
      DelReadHook();
      DelWriteHook();
    }
  }

  /** A new Qt adapter after any hooks holds a notifier for exactly the directions last added. */
  method AttachAndDriveQt(hooks: seq<Hook>) returns (a: QtAdapter)
    ensures fresh(a) && a.Valid()
    ensures a.read != null <==> LastAdded(hooks, AddRead, DelRead)
    ensures a.write != null <==> LastAdded(hooks, AddWrite, DelWrite)
    ensures a.created - a.deleted == (if a.read != null then 1 else 0) + (if a.write != null then 1 else 0)
  {
    a := new QtAdapter();
    a.Drive(hooks);
    WantedIff(hooks);
  }
}
