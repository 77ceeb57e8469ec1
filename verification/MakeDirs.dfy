/**
 * MKdirIsNotExist (include/fileutil.h): create every directory on a path that is
 * not there yet.
 *
 * The host is any set of existing entries together with any answer to every mkdir
 * call (grants); mkdir itself refuses an existing entry and an entry whose parent
 * is missing, whatever grants says.
 */
module MakeDirs {
  import opened Wrappers
  import opened PathSplitter

  // ----- the file system

  /** The entries that exist and the mkdir calls made so far. */
  datatype Disk = Disk(entries: set<string>, calls: seq<string>)

  function LastSlash(p: string): (n: int)
    ensures -1 <= n < |p|
    ensures n >= 0 ==> p[n] == '/'
    ensures forall k :: n < k < |p| ==> p[k] != '/'
  {
    if p == "" then -1
    else if p[|p| - 1] == '/' then |p| - 1
    else LastSlash(p[..|p| - 1])
  }

  /** The parent entry; None is the root or the working directory, which always exist. */
  function Parent(p: string): Option<string> {
    if LastSlash(p) <= 0 then None else Some(p[..LastSlash(p)])
  }

  predicate ParentExists(entries: set<string>, p: string) {
    Parent(p).Some? ==> Parent(p).value in entries
  }

  ghost predicate ParentClosed(entries: set<string>) {
    forall p :: p in entries ==> ParentExists(entries, p)
  }

  predicate MkdirSucceeds(d: Disk, grants: nat -> bool, p: string) {
    grants(|d.calls|) && p !in d.entries && ParentExists(d.entries, p)
  }

  function Mkdir(d: Disk, grants: nat -> bool, p: string): Disk {
    Disk(if MkdirSucceeds(d, grants, p) then d.entries + {p} else d.entries, d.calls + [p])
  }

  class FileSystem {
    const grants: nat -> bool
    var entries: set<string>
    var calls: seq<string>

    ghost function View(): Disk
      reads this
    {
      Disk(entries, calls)
    }

    constructor (grants: nat -> bool, entries: set<string>)
      ensures View() == Disk(entries, []) && this.grants == grants
    {
      this.grants := grants;
      this.entries := entries;
      calls := [];
    }

    /** access(path, 0) */
    method Access(path: string) returns (r: int)
      ensures r == if path in entries then 0 else -1
    {
      r := if path in entries then 0 else -1;
    }

    /** mkdir(path, 0777) */
    method MakeDir(path: string) returns (flag: int)
      modifies this
      ensures View() == Mkdir(old(View()), grants, path)
      ensures flag == if MkdirSucceeds(old(View()), grants, path) then 0 else -1
    {
      var ok := MkdirSucceeds(Disk(entries, calls), grants, path);
      entries := if ok then entries + {path} else entries;
      calls := calls + [path];
      flag := if ok then 0 else -1;
    }
  }

  // ----- the operation

  /** The path tested for component k: everything before it, joined, and the component itself. */
  function Prefix(cs: seq<string>, k: nat): string
    requires k < |cs|
  {
    Join(cs[..k]) + cs[k]
  }

  function MakeFrom(d: Disk, grants: nat -> bool, cs: seq<string>, k: nat): (Disk, int)
    requires k <= |cs|
    decreases |cs| - k
  {
    if k == |cs| then (d, 1)
    else if Prefix(cs, k) in d.entries then MakeFrom(d, grants, cs, k + 1)
    else if MkdirSucceeds(d, grants, Prefix(cs, k)) then
      MakeFrom(Mkdir(d, grants, Prefix(cs, k)), grants, cs, k + 1)
    else (Mkdir(d, grants, Prefix(cs, k)), 0)
  }

  function MakeAll(d: Disk, grants: nat -> bool, cs: seq<string>): (Disk, int) {
    MakeFrom(d, grants, cs, 0)
  }

  method MKdirIsNotExist(fs: FileSystem, fpath: string) returns (result: int)
    modifies fs
    ensures (fs.View(), result) == MakeAll(old(fs.View()), fs.grants, Split(CStr(fpath)))
  {
    result := 1;
    var temp := "";
    var q := SplitPath(Some(fpath));
    ghost var cs, k := q, 0;
    while q != []
      invariant k <= |cs| && q == cs[k..]
      invariant temp == Join(cs[..k])
      invariant MakeFrom(fs.View(), fs.grants, cs, k) == MakeAll(old(fs.View()), fs.grants, cs)
      decreases |q|
    {
      CStrOfComponent(fpath, k);
      temp := temp + CStr(q[0]);
      assert temp == Prefix(cs, k);
      var found := fs.Access(temp);
      if found == -1 {
        var flag := fs.MakeDir(temp);
        if flag != 0 {
          result := 0;
          return;
        }
      }
      temp := temp + "/";
      JoinSnoc(cs, k);
      q := q[1..];
      k := k + 1;
    }
  }

  lemma CStrOfComponent(fpath: string, k: nat)
    requires k < |Split(CStr(fpath))|
    ensures CStr(Split(CStr(fpath))[k]) == Split(CStr(fpath))[k]
  {
    var c := Split(CStr(fpath))[k];
    SplitIsPathList(fpath);
    assert k > 0 ==> c == Split(CStr(fpath))[1..][k - 1];
    if !IsName(c) {
      assert c == ['/'] + c[1..];
    }
    CStrIsNulFree(c);
  }

  lemma {:induction false} JoinAppend(a: seq<string>, b: seq<string>)
    ensures Join(a + b) == Join(a) + Join(b)
  {
    if a == [] {
      assert a + b == b;
    } else {
      JoinAppend(a[1..], b);
      assert (a + b)[1..] == a[1..] + b;
    }
  }

  lemma JoinSnoc(cs: seq<string>, k: nat)
    requires k < |cs|
    ensures Join(cs[..k + 1]) == Prefix(cs, k) + "/"
  {
    assert cs[..k + 1] == cs[..k] + [cs[k]];
    JoinAppend(cs[..k], [cs[k]]);
  }

  // ----- prefixes and parents

  lemma LastSlashAt(p: string, n: nat)
    requires n < |p| && p[n] == '/'
    requires forall k :: n < k < |p| ==> p[k] != '/'
    ensures LastSlash(p) == n
  {
  }

  lemma ComponentShape(cs: seq<string>, k: nat)
    requires IsPathList(cs) && k < |cs|
    ensures cs[k] != ""
    ensures forall i :: 0 < i < |cs[k]| ==> cs[k][i] != '/'
    ensures k > 0 ==> cs[k][0] != '/'
  {
  }

  /**
   * Each prefix is the one before it, a '/', and one component more; so its parent is the prefix before
   * it, and the first prefix hangs below a directory that always exists.
   */
  lemma ParentOfPrefix(cs: seq<string>, k: nat)
    requires IsPathList(cs) && k < |cs|
    ensures Prefix(cs, k) != ""
    ensures Prefix(cs, k) == if k == 0 then cs[0] else Prefix(cs, k - 1) + "/" + cs[k]
    ensures Parent(Prefix(cs, k)) == if k == 0 then None else Some(Prefix(cs, k - 1))
  {
    ComponentShape(cs, k);
    var p := Prefix(cs, k);
    if k == 0 {
      assert cs[..0] == [] && p == cs[0];
    } else {
      JoinSnoc(cs, k - 1);
      ComponentShape(cs, k - 1);
      var before := Prefix(cs, k - 1);
      assert p == before + "/" + cs[k];
      LastSlashAt(p, |before|);
      assert p[..|before|] == before;
    }
  }

  lemma {:induction false} PrefixLonger(cs: seq<string>, j: nat, k: nat)
    requires IsPathList(cs) && j < k < |cs|
    ensures |Prefix(cs, j)| < |Prefix(cs, k)|
    decreases k
  {
    JoinSnoc(cs, k - 1);
    if j < k - 1 {
      PrefixLonger(cs, j, k - 1);
    }
  }

  function PrefixSeq(cs: seq<string>, from: nat, to: nat): seq<string>
    requires from <= to <= |cs|
  {
    seq(to - from, i requires 0 <= i < to - from => Prefix(cs, from + i))
  }

  // ----- the law of one call

  /**
   * What a call does, by two numbers: prefixes below first were there already, and the
   * call stopped at prefix stop.  Every mkdir call is counted, so grants decides stop.
   */
  ghost predicate Outcome(d: Disk, grants: nat -> bool, cs: seq<string>, first: nat, stop: nat, d': Disk, result: int) {
    && first <= stop <= |cs|
    && (forall j :: 0 <= j < first ==> Prefix(cs, j) in d.entries)
    && (forall j :: first <= j < |cs| ==> Prefix(cs, j) !in d.entries)
    && (forall c: nat :: |d.calls| <= c < |d.calls| + (stop - first) ==> grants(c))
    && (stop < |cs| ==> !grants(|d.calls| + (stop - first)))
    && d'.entries == d.entries + PrefixRange(cs, 0, stop)
    && d'.calls == d.calls + PrefixSeq(cs, first, if stop < |cs| then stop + 1 else stop)
    && result == (if stop == |cs| then 1 else 0)
  }

  lemma {:induction false} MissingStaysMissing(entries: set<string>, cs: seq<string>, i: nat, j: nat)
    requires ParentClosed(entries) && IsPathList(cs)
    requires i <= j < |cs| && Prefix(cs, i) !in entries
    ensures Prefix(cs, j) !in entries
    decreases j
  {
    if i < j {
      MissingStaysMissing(entries, cs, i, j - 1);
      ParentOfPrefix(cs, j);
    }
  }

  /** The prefixes with numbers from "from" up to, not including, "to". */
  function PrefixRange(cs: seq<string>, from: nat, to: nat): set<string>
    requires from <= to <= |cs|
  {
    set j | from <= j < to :: Prefix(cs, j)
  }

  /** What the loop does from prefix k on, when k is the first prefix that is missing. */
  ghost predicate Created(d: Disk, grants: nat -> bool, cs: seq<string>, k: nat, stop: nat, d': Disk, result: int) {
    && k <= stop <= |cs|
    && (forall c: nat :: |d.calls| <= c < |d.calls| + (stop - k) ==> grants(c))
    && (stop < |cs| ==> !grants(|d.calls| + (stop - k)))
    && d'.entries == d.entries + PrefixRange(cs, k, stop)
    && d'.calls == d.calls + PrefixSeq(cs, k, if stop < |cs| then stop + 1 else stop)
    && result == (if stop == |cs| then 1 else 0)
  }

  lemma CreatedStep(d: Disk, grants: nat -> bool, cs: seq<string>, k: nat, stop: nat, d': Disk, result: int)
    requires k < |cs| && MkdirSucceeds(d, grants, Prefix(cs, k))
    requires Created(Mkdir(d, grants, Prefix(cs, k)), grants, cs, k + 1, stop, d', result)
    ensures Created(d, grants, cs, k, stop, d', result)
  {
  }

  lemma StillMissing(d: Disk, grants: nat -> bool, cs: seq<string>, k: nat)
    requires IsPathList(cs) && k < |cs|
    requires forall j :: k <= j < |cs| ==> Prefix(cs, j) !in d.entries
    ensures forall j :: k < j < |cs| ==> Prefix(cs, j) !in Mkdir(d, grants, Prefix(cs, k)).entries
  {
    forall j | k < j < |cs|
      ensures Prefix(cs, j) != Prefix(cs, k)
    {
      PrefixLonger(cs, k, j);
    }
  }

  /** From the first missing prefix on, every step is a mkdir call whose parent exists. */
  lemma {:induction false} CreateRun(d: Disk, grants: nat -> bool, cs: seq<string>, k: nat) returns (stop: nat)
    requires IsPathList(cs) && k <= |cs|
    requires k > 0 ==> Prefix(cs, k - 1) in d.entries
    requires forall j :: k <= j < |cs| ==> Prefix(cs, j) !in d.entries
    ensures var (d', result) := MakeFrom(d, grants, cs, k); Created(d, grants, cs, k, stop, d', result)
    decreases |cs| - k
  {
    stop := k;
    if k < |cs| {
      var p := Prefix(cs, k);
      ParentOfPrefix(cs, k);
      if MkdirSucceeds(d, grants, p) {
        StillMissing(d, grants, cs, k);
        stop := CreateRun(Mkdir(d, grants, p), grants, cs, k + 1);
        var (d', result) := MakeFrom(d, grants, cs, k);
        CreatedStep(d, grants, cs, k, stop, d', result);
      } else {
        assert PrefixSeq(cs, k, k + 1) == [p];
      }
    }
  }

  lemma {:induction false} SkipRun(d: Disk, grants: nat -> bool, cs: seq<string>, k: nat) returns (first: nat)
    requires ParentClosed(d.entries) && IsPathList(cs) && k <= |cs|
    requires forall j :: 0 <= j < k ==> Prefix(cs, j) in d.entries
    ensures k <= first <= |cs|
    ensures forall j :: 0 <= j < first ==> Prefix(cs, j) in d.entries
    ensures forall j :: first <= j < |cs| ==> Prefix(cs, j) !in d.entries
    ensures MakeFrom(d, grants, cs, k) == MakeFrom(d, grants, cs, first)
    decreases |cs| - k
  {
    first := k;
    if k < |cs| {
      if Prefix(cs, k) in d.entries {
        first := SkipRun(d, grants, cs, k + 1);
      } else {
        forall j | k <= j < |cs|
          ensures Prefix(cs, j) !in d.entries
        {
          MissingStaysMissing(d.entries, cs, k, j);
        }
      }
    }
  }

  /** Every call on a parent-closed file system has the outcome its first missing prefix and its grants determine. */
  lemma MakeAllOutcome(d: Disk, grants: nat -> bool, cs: seq<string>) returns (first: nat, stop: nat)
    requires ParentClosed(d.entries) && IsPathList(cs)
    ensures var (d', result) := MakeAll(d, grants, cs); Outcome(d, grants, cs, first, stop, d', result)
  {
    first := SkipRun(d, grants, cs, 0);
    stop := CreateRun(d, grants, cs, first);
    assert d.entries + PrefixRange(cs, first, stop) == d.entries + PrefixRange(cs, 0, stop);
  }

  lemma FirstMissingUnique(entries: set<string>, cs: seq<string>, f: nat, g: nat)
    requires f <= |cs| && g <= |cs|
    requires forall j :: 0 <= j < f ==> Prefix(cs, j) in entries
    requires forall j :: f <= j < |cs| ==> Prefix(cs, j) !in entries
    requires forall j :: 0 <= j < g ==> Prefix(cs, j) in entries
    requires forall j :: g <= j < |cs| ==> Prefix(cs, j) !in entries
    ensures f == g
  {
    var p := if f < |cs| then Prefix(cs, f) else "";
    var q := if g < |cs| then Prefix(cs, g) else "";
  }

  /** Outcome leaves no choice: it describes one final file system and one result. */
  lemma OutcomeUnique(d: Disk, grants: nat -> bool, cs: seq<string>,
                      f1: nat, s1: nat, d1: Disk, r1: int, f2: nat, s2: nat, d2: Disk, r2: int)
    requires Outcome(d, grants, cs, f1, s1, d1, r1) && Outcome(d, grants, cs, f2, s2, d2, r2)
    ensures f1 == f2 && s1 == s2 && d1 == d2 && r1 == r2
  {
    FirstMissingUnique(d.entries, cs, f1, f2);
    if s1 < s2 {
      assert false;
    } else if s2 < s1 {
      assert false;
    }
  }

  // ----- consequences

  /** The call returns 1 if and only if the host grants one mkdir call for each prefix that is missing. */
  lemma SucceedsIff(d: Disk, grants: nat -> bool, cs: seq<string>, first: nat)
    requires ParentClosed(d.entries) && IsPathList(cs) && first <= |cs|
    requires forall j :: 0 <= j < first ==> Prefix(cs, j) in d.entries
    requires forall j :: first <= j < |cs| ==> Prefix(cs, j) !in d.entries
    ensures MakeAll(d, grants, cs).1 == 1 <==>
      forall c: nat :: |d.calls| <= c < |d.calls| + (|cs| - first) ==> grants(c)
    ensures MakeAll(d, grants, cs).1 == 1 <==>
      forall j :: 0 <= j < |cs| ==> Prefix(cs, j) in MakeAll(d, grants, cs).0.entries
  {
    var f, stop := MakeAllOutcome(d, grants, cs);
    FirstMissingUnique(d.entries, cs, f, first);
    var d' := MakeAll(d, grants, cs).0;
    if stop < |cs| {
      forall j | 0 <= j < stop
        ensures Prefix(cs, j) != Prefix(cs, stop)
      {
        PrefixLonger(cs, j, stop);
      }
      assert Prefix(cs, stop) !in d'.entries;
    }
  }

  /** mkdir is called on missing entries only, each once, and always below an entry that exists by then. */
  lemma EveryCallIsNeeded(d: Disk, grants: nat -> bool, cs: seq<string>, i: nat)
    requires ParentClosed(d.entries) && IsPathList(cs)
    requires |d.calls| <= i < |MakeAll(d, grants, cs).0.calls|
    ensures var d' := MakeAll(d, grants, cs).0;
      var earlier := set c | c in d'.calls[|d.calls|..i];
      && d.calls <= d'.calls
      && d'.calls[i] !in d.entries + earlier
      && ParentExists(d.entries + earlier, d'.calls[i])
  {
    var first, stop := MakeAllOutcome(d, grants, cs);
    var d' := MakeAll(d, grants, cs).0;
    var made := d'.calls[|d.calls|..i];
    var k := first + (i - |d.calls|);
    assert d'.calls[i] == Prefix(cs, k);
    assert forall j :: 0 <= j < |made| ==> made[j] == Prefix(cs, first + j);
    forall j | 0 <= j < |made|
      ensures made[j] != Prefix(cs, k)
    {
      PrefixLonger(cs, first + j, k);
    }
    ParentOfPrefix(cs, k);
    if k > first {
      assert made[k - 1 - first] == Prefix(cs, k - 1);
    }
  }

  lemma StaysParentClosed(d: Disk, grants: nat -> bool, cs: seq<string>)
    requires ParentClosed(d.entries) && IsPathList(cs)
    ensures ParentClosed(MakeAll(d, grants, cs).0.entries)
  {
    var first, stop := MakeAllOutcome(d, grants, cs);
    var after := MakeAll(d, grants, cs).0.entries;
    forall p | p in after
      ensures ParentExists(after, p)
    {
      if p !in d.entries {
        var j :| 0 <= j < stop && p == Prefix(cs, j);
        ParentOfPrefix(cs, j);
      } else {
        assert ParentExists(d.entries, p);
      }
    }
  }

  lemma {:induction false} AllPresent(d: Disk, grants: nat -> bool, cs: seq<string>, k: nat)
    requires k <= |cs|
    requires forall j :: k <= j < |cs| ==> Prefix(cs, j) in d.entries
    ensures MakeFrom(d, grants, cs, k) == (d, 1)
    decreases |cs| - k
  {
    if k < |cs| {
      AllPresent(d, grants, cs, k + 1);
    }
  }

  /**
   * After a successful call, a call for any path whose components start the same way makes no
   * mkdir call, whatever the host would grant: the same path again, a directory on the way, or
   * the string the first call built.
   */
  lemma NothingLeftToDo(d: Disk, grants: nat -> bool, again: nat -> bool, fpath: string, other: string)
    requires ParentClosed(d.entries)
    requires MakeAll(d, grants, Split(CStr(fpath))).1 == 1
    requires Split(CStr(other)) <= Split(CStr(fpath)) || other == Join(Split(CStr(fpath)))
    ensures var d' := MakeAll(d, grants, Split(CStr(fpath))).0;
      MakeAll(d', again, Split(CStr(other))) == (d', 1)
  {
    var cs, part := Split(CStr(fpath)), Split(CStr(other));
    SplitIsPathList(fpath);
    SplitRoundTrip(fpath);
    assert part <= cs;
    var first, stop := MakeAllOutcome(d, grants, cs);
    var d' := MakeAll(d, grants, cs).0;
    forall j | 0 <= j < |part|
      ensures Prefix(part, j) in d'.entries
    {
      assert part[..j] == cs[..j];
      assert Prefix(part, j) == Prefix(cs, j);
    }
    AllPresent(d', again, part, 0);
  }

  /** The file system after n calls for the same path, whatever each of them returned. */
  function Attempts(d: Disk, grants: nat -> bool, cs: seq<string>, n: nat): Disk {
    if n == 0 then d else MakeAll(Attempts(d, grants, cs, n - 1), grants, cs).0
  }

  lemma {:induction false} AttemptsGrow(d: Disk, grants: nat -> bool, cs: seq<string>, n: nat) returns (done: nat)
    requires ParentClosed(d.entries) && IsPathList(cs)
    ensures ParentClosed(Attempts(d, grants, cs, n).entries)
    ensures done <= |cs| && Attempts(d, grants, cs, n).entries == d.entries + PrefixRange(cs, 0, done)
  {
    done := 0;
    if n > 0 {
      var before := AttemptsGrow(d, grants, cs, n - 1);
      var prev := Attempts(d, grants, cs, n - 1);
      StaysParentClosed(prev, grants, cs);
      var _, stop := MakeAllOutcome(prev, grants, cs);
      done := if before <= stop then stop else before;
      assert PrefixRange(cs, 0, before) + PrefixRange(cs, 0, stop) == PrefixRange(cs, 0, done);
    }
  }

  /** Failed attempts do no harm: when one succeeds at last, the entries are those of one call that was granted everything. */
  lemma RetryConverges(d: Disk, grants: nat -> bool, always: nat -> bool, cs: seq<string>, n: nat)
    requires ParentClosed(d.entries) && IsPathList(cs)
    requires forall c: nat :: always(c)
    requires MakeAll(Attempts(d, grants, cs, n), grants, cs).1 == 1
    ensures Attempts(d, grants, cs, n + 1).entries == MakeAll(d, always, cs).0.entries
    ensures MakeAll(d, always, cs).1 == 1
  {
    var before := AttemptsGrow(d, grants, cs, n);
    var _, s2 := MakeAllOutcome(Attempts(d, grants, cs, n), grants, cs);
    var _, s3 := MakeAllOutcome(d, always, cs);
    assert PrefixRange(cs, 0, before) <= PrefixRange(cs, 0, |cs|);
  }
}
