/**
 * SplitPath (include/fileutil.h): a path is cut at '/', '\' and ':' through a
 * fixed buffer of 261 characters.
 *
 * Tokens is the loop's own recursion, Scan("", s), over the text held so far and
 * cut at 260; the method SplitPath is the loop over the array and is proved equal to
 * it.  The reading without a buffer is given by the laws about Tokens: it splits at
 * every separator (TokensAtSeparator), cuts a separator-free run into Chunks
 * (TokensOfRun), and is the only function that does both (TokensDetermined).
 */
module PathSplitter {
  import opened Wrappers

  const MAX_FILESYS_NAME := 260

  predicate IsSeparator(c: char) {
    c == '/' || c == '\\' || c == ':'
  }

  /** What a C string function sees of a character buffer: the text before the first NUL. */
  function CStr(s: string): (r: string)
    ensures r <= s && '\0' !in r
    ensures r == s || s[|r|] == '\0'
  {
    if s == "" || s[0] == '\0' then "" else [s[0]] + CStr(s[1..])
  }

  predicate NulFree(s: string) {
    forall i :: 0 <= i < |s| ==> s[i] != '\0'
  }

  predicate SeparatorFree(s: string) {
    forall i :: 0 <= i < |s| ==> !IsSeparator(s[i])
  }

  // ----- specification

  /** What the buffer contributes when it is emptied. */
  function Flush(held: string): seq<string> {
    if held == "" then [] else [held]
  }

  /** The components still to come when held is in the buffer and s is unread. */
  function Scan(held: string, s: string): seq<string>
    decreases |s|
  {
    if s == "" then Flush(held)
    else if !IsSeparator(s[0]) && |held| < MAX_FILESYS_NAME then Scan(held + [s[0]], s[1..])
    else Flush(held) + Scan("", s[1..])
  }

  function Tokens(s: string): seq<string> {
    Scan("", s)
  }

  /** One run, cut by the buffer: 260 characters are kept, the character that finds it full is dropped. */
  function Chunks(run: string): seq<string> {
    if run == "" then []
    else if |run| <= MAX_FILESYS_NAME then [run]
    else [run[..MAX_FILESYS_NAME]] + Chunks(run[MAX_FILESYS_NAME + 1..])
  }

  predicate IsAbsolute(s: string) {
    s != "" && (s[0] == '/' || s[0] == ':')
  }

  /** '/' goes in front of the first component of an absolute path. */
  function Rooted(absolute: bool, t: seq<string>): seq<string> {
    if absolute && t != [] then [['/'] + t[0]] + t[1..] else t
  }

  function Split(s: string): seq<string> {
    Rooted(IsAbsolute(s), Tokens(s))
  }

  /** The string MKdirIsNotExist accumulates: every component followed by '/'. */
  function Join(cs: seq<string>): string {
    if cs == [] then "" else cs[0] + "/" + Join(cs[1..])
  }

  // ----- the buffer loop

  method SplitPath(path: Option<string>) returns (q: seq<string>)
    ensures q == if path.None? then [] else Split(CStr(path.value))
    ensures path.Some? ==> CutOut(CStr(path.value), q)
  {
    q := [];
    if path.None? {
      return;
    }
    var p := CStr(path.value);
    CStrIsNulFree(path.value);
    var ch := new char[MAX_FILESYS_NAME + 1](_ => '\0');
    var pos := 0;
    var absolute := p != "" && p[0] == '/';
    assert ch[..pos] == "" && p[0..] == p;

    for i := 0 to |p|
      invariant Holds(ch[..], pos)
      invariant Tokens(p) == q + Scan(ch[..pos], p[i..])
      invariant absolute == if i == 0 then p != "" && p[0] == '/' else IsAbsolute(p)
    {
      if p[0] == ':' {
        absolute := true;
      }
      assert p[i..] == [p[i]] + p[i + 1..];
      q, pos := Feed(ch, pos, p[i], q, p[i + 1..]);
    }
    HoldsText(ch[..], pos);

    if ch[0] != '\0' {
      q := q + [CStr(ch[..])];
    }
    if absolute && |q| > 0 {
      q := [['/'] + q[0]] + q[1..];
    }
    assert q == Split(p);
    SplitCutsOut(path.value, q);
  }

  /** The body of the loop: hold the character, or push what is held and drop the character. */
  method Feed(ch: array<char>, pos: int, c: char, q: seq<string>, ghost unread: string)
    returns (q': seq<string>, pos': int)
    requires Holds(ch[..], pos) && c != '\0'
    modifies ch
    ensures Holds(ch[..], pos')
    ensures
      if !IsSeparator(c) && pos < MAX_FILESYS_NAME then
        q' == q && ch[..pos'] == old(ch[..pos]) + [c]
      else
        q' == q + Flush(old(ch[..pos])) && ch[..pos'] == ""
    ensures q' + Scan(ch[..pos'], unread) == q + Scan(old(ch[..pos]), [c] + unread)
  {
    ScanStep(ch[..pos], c, unread);
    HoldsText(ch[..], pos);
    q', pos' := q, pos;
    if !IsSeparator(c) && pos < MAX_FILESYS_NAME {
      HoldsOneMore(ch[..], pos, c);
      ghost var next := ch[..][pos := c];
      ch[pos] := c;
      assert ch[..] == next;
      pos' := pos + 1;
    } else if ch[0] != '\0' {
      ghost var was := ch[..];
      ch[pos] := '\0';
      assert ch[..] == was;
      q' := q + [CStr(ch[..])];
      Clear(ch, pos);
      pos' := 0;
    }
  }

  /** memset(ch, 0, n) */
  method Clear(ch: array<char>, n: nat)
    requires Holds(ch[..], n)
    modifies ch
    ensures Holds(ch[..], 0)
  {
    forall k | 0 <= k < n {
      ch[k] := '\0';
    }
  }

  /** One character of the loop: it is held, or the buffer is emptied and it is dropped. */
  lemma ScanStep(held: string, c: char, unread: string)
    ensures Scan(held, [c] + unread) ==
      if !IsSeparator(c) && |held| < MAX_FILESYS_NAME then Scan(held + [c], unread)
      else Flush(held) + Scan("", unread)
  {
  }

  /** The loop's invariant on ch: text without NUL or separator before pos, zeros from pos on. */
  ghost predicate Holds(ch: string, pos: int) {
    && |ch| == MAX_FILESYS_NAME + 1
    && 0 <= pos <= MAX_FILESYS_NAME
    && SeparatorFree(ch[..pos]) && NulFree(ch[..pos])
    && forall k :: pos <= k < |ch| ==> ch[k] == '\0'
  }

  lemma HoldsOneMore(ch: string, pos: int, c: char)
    requires Holds(ch, pos) && pos < MAX_FILESYS_NAME && !IsSeparator(c) && c != '\0'
    ensures Holds(ch[pos := c], pos + 1)
    ensures ch[pos := c][..pos + 1] == ch[..pos] + [c]
  {
  }

  /** The test ch[0] tells whether anything is held, and pushing ch pushes the text held. */
  lemma HoldsText(ch: string, pos: int)
    requires Holds(ch, pos)
    ensures ch[0] != '\0' <==> pos > 0
    ensures CStr(ch) == ch[..pos]
    ensures Flush(ch[..pos]) == if pos > 0 then [CStr(ch)] else []
  {
    CStrOfBuffer(ch, pos);
    assert pos > 0 ==> ch[..pos][0] == ch[0];
  }

  lemma {:induction false} CStrIsNulFree(s: string)
    ensures NulFree(CStr(s)) && CStr(s) <= s
    ensures NulFree(s) ==> CStr(s) == s
  {
    if s != "" && s[0] != '\0' {
      CStrIsNulFree(s[1..]);
    }
  }

  lemma {:induction false} CStrOfBuffer(buffer: string, pos: nat)
    requires pos < |buffer| && NulFree(buffer[..pos]) && buffer[pos] == '\0'
    ensures CStr(buffer) == buffer[..pos]
  {
    if pos > 0 {
      assert buffer[0] == buffer[..pos][0];
      assert buffer[1..][..pos - 1] == buffer[..pos][1..];
      CStrOfBuffer(buffer[1..], pos - 1);
      assert buffer[..pos] == [buffer[0]] + buffer[1..][..pos - 1];
    }
  }

  // ----- what Tokens means

  lemma {:induction false} ScanAtSeparator(held: string, a: string, c: char, b: string)
    requires IsSeparator(c)
    ensures Scan(held, a + [c] + b) == Scan(held, a) + Scan("", b)
    decreases |a|
  {
    var s := a + [c] + b;
    if a == "" {
      assert s[1..] == b;
    } else {
      assert s[1..] == a[1..] + [c] + b;
      if !IsSeparator(a[0]) && |held| < MAX_FILESYS_NAME {
        ScanAtSeparator(held + [a[0]], a[1..], c, b);
      } else {
        ScanAtSeparator("", a[1..], c, b);
      }
    }
  }

  /** Splitting distributes over every separator. */
  lemma TokensAtSeparator(a: string, c: char, b: string)
    requires IsSeparator(c)
    ensures Tokens(a + [c] + b) == Tokens(a) + Tokens(b)
  {
    ScanAtSeparator("", a, c, b);
  }

  lemma {:induction false} ScanRun(held: string, run: string)
    requires SeparatorFree(run) && |held| <= MAX_FILESYS_NAME
    ensures Scan(held, run) == Chunks(held + run)
    decreases |run|
  {
    if run == "" {
      assert held + run == held;
    } else if |held| < MAX_FILESYS_NAME {
      ScanRun(held + [run[0]], run[1..]);
      assert held + [run[0]] + run[1..] == held + run;
    } else {
      ScanRun("", run[1..]);
      assert "" + run[1..] == run[1..];
      assert (held + run)[..MAX_FILESYS_NAME] == held;
      assert (held + run)[MAX_FILESYS_NAME + 1..] == run[1..];
    }
  }

  /** A run without separators is cut by the capacity of the buffer and by nothing else. */
  lemma TokensOfRun(run: string)
    requires SeparatorFree(run)
    ensures Tokens(run) == Chunks(run)
  {
    ScanRun("", run);
    assert "" + run == run;
  }

  /** The two laws above leave no freedom: every function that obeys them is Tokens. */
  lemma {:induction false} TokensDetermined(f: string -> seq<string>, s: string)
    requires forall run: string :: SeparatorFree(run) ==> f(run) == Chunks(run)
    requires forall a: string, c: char, b: string :: IsSeparator(c) ==> f(a + [c] + b) == f(a) + f(b)
    ensures f(s) == Tokens(s)
    decreases |s|
  {
    if SeparatorFree(s) {
      TokensOfRun(s);
    } else {
      var i :| 0 <= i < |s| && IsSeparator(s[i]);
      var a, b := s[..i], s[i + 1..];
      assert s == a + [s[i]] + b;
      TokensAtSeparator(a, s[i], b);
      TokensDetermined(f, a);
      TokensDetermined(f, b);
    }
  }

  /** A run of n characters becomes ceil(n / 261) pieces; piece k starts at 261 * k. */
  lemma {:induction false} ChunksShape(run: string)
    ensures |Chunks(run)| == (|run| + 260) / 261
    ensures forall k :: 0 <= k < |Chunks(run)| ==>
      261 * k < |run| && Chunks(run)[k] == run[261 * k..Min(261 * k + 260, |run|)]
  {
    if |run| > MAX_FILESYS_NAME {
      var tail := run[MAX_FILESYS_NAME + 1..];
      ChunksShape(tail);
      forall k | 0 <= k < |Chunks(run)|
        ensures 261 * k < |run| && Chunks(run)[k] == run[261 * k..Min(261 * k + 260, |run|)]
      {
        if k > 0 {
          assert Chunks(run)[k] == Chunks(tail)[k - 1];
        }
      }
    }
  }

  function Min(a: int, b: int): int {
    if a <= b then a else b
  }

  // ----- the components and the round trip

  /** A component as SplitPath makes it, before the leading '/' is put back. */
  predicate IsName(c: string) {
    0 < |c| <= 260 && SeparatorFree(c) && NulFree(c)
  }

  predicate AllNames(cs: seq<string>) {
    forall k :: 0 <= k < |cs| ==> IsName(cs[k])
  }

  predicate IsPathList(cs: seq<string>) {
    cs == [] || ((IsName(cs[0]) || (cs[0] != "" && cs[0][0] == '/' && IsName(cs[0][1..]))) && AllNames(cs[1..]))
  }

  lemma {:induction false} ScanGivesNames(held: string, s: string)
    requires NulFree(s) && (held == "" || IsName(held))
    ensures AllNames(Scan(held, s))
    decreases |s|
  {
    if s != "" {
      if !IsSeparator(s[0]) && |held| < MAX_FILESYS_NAME {
        ScanGivesNames(held + [s[0]], s[1..]);
      } else {
        ScanGivesNames("", s[1..]);
      }
    }
  }

  lemma {:induction false} TokensOfJoin(cs: seq<string>)
    requires AllNames(cs)
    ensures Tokens(Join(cs)) == cs && NulFree(Join(cs))
  {
    if cs != [] {
      var tail := Join(cs[1..]);
      TokensOfJoin(cs[1..]);
      TokensAtSeparator(cs[0], '/', tail);
      TokensOfRun(cs[0]);
      assert cs[0] + ['/'] + tail == Join(cs);
      assert cs == [cs[0]] + cs[1..];
    }
  }

  /** Join is a right inverse of Split on every list that Split could have made. */
  lemma SplitOfJoin(cs: seq<string>)
    requires IsPathList(cs)
    ensures NulFree(Join(cs)) && CStr(Join(cs)) == Join(cs)
    ensures Split(Join(cs)) == cs
  {
    if cs == [] || IsName(cs[0]) {
      SplitOfNames(cs);
    } else {
      var bare := [cs[0][1..]] + cs[1..];
      assert cs[0] == ['/'] + bare[0] && cs == [cs[0]] + cs[1..];
      assert Join(cs) == ['/'] + Join(bare);
      SplitOfNames(bare);
      SplitAtStart('/', Join(bare));
    }
    CStrIsNulFree(Join(cs));
  }

  lemma SplitOfNames(cs: seq<string>)
    requires AllNames(cs)
    ensures NulFree(Join(cs)) && Split(Join(cs)) == cs
    ensures cs != [] ==> !IsSeparator(Join(cs)[0])
  {
    TokensOfJoin(cs);
    assert cs != [] ==> IsName(cs[0]) && Join(cs)[0] == cs[0][0];
  }

  lemma TokensAfterSeparator(c: char, s: string)
    requires IsSeparator(c)
    ensures Tokens([c] + s) == Tokens(s)
  {
  }

  /** The lists SplitPath can return are exactly the path lists. */
  lemma SplitRange(cs: seq<string>)
    ensures IsPathList(cs) <==> exists p: string :: Split(CStr(p)) == cs
  {
    if IsPathList(cs) {
      SplitOfJoin(cs);
      assert Split(CStr(Join(cs))) == cs;
    }
    forall p: string | Split(CStr(p)) == cs
      ensures IsPathList(cs)
    {
      SplitIsPathList(p);
    }
  }

  lemma SplitIsPathList(p: string)
    ensures IsPathList(Split(CStr(p)))
  {
    CStrIsNulFree(p);
    ScanGivesNames("", CStr(p));
    var t := Tokens(CStr(p));
    if t != [] {
      assert IsName(t[0]);
      assert (['/'] + t[0])[1..] == t[0];
    }
  }

  /** Splitting what was joined gives the same components again, for every path. */
  lemma SplitRoundTrip(p: string)
    ensures Split(CStr(Join(Split(CStr(p))))) == Split(CStr(p))
  {
    SplitIsPathList(p);
    SplitOfJoin(Split(CStr(p)));
  }

  lemma {:induction false} ScanEmptyIff(held: string, s: string)
    ensures Scan(held, s) == [] <==> held == "" && forall i :: 0 <= i < |s| ==> IsSeparator(s[i])
    decreases |s|
  {
    if s != "" {
      if !IsSeparator(s[0]) && |held| < MAX_FILESYS_NAME {
        ScanEmptyIff(held + [s[0]], s[1..]);
      } else {
        ScanEmptyIff("", s[1..]);
      }
    }
  }

  /** There is no component exactly for separators only; otherwise the first one starts with '/' exactly for '/' and ':'. */
  lemma LeadingSlashIff(p: string)
    requires NulFree(p)
    ensures Split(p) == [] <==> forall i :: 0 <= i < |p| ==> IsSeparator(p[i])
    ensures Split(p) != [] ==> Split(p)[0] != "" && (Split(p)[0][0] == '/' <==> p[0] == '/' || p[0] == ':')
  {
    ScanEmptyIff("", p);
    ScanGivesNames("", p);
    if Tokens(p) != [] {
      assert IsName(Tokens(p)[0]) && !IsSeparator(Tokens(p)[0][0]);
    }
  }

  // ----- which characters survive

  function Concat(cs: seq<string>): string {
    if cs == [] then "" else cs[0] + Concat(cs[1..])
  }

  /** s without '/', '\' and ':'. */
  function StripSeparators(s: string): string {
    if s == "" then ""
    else (if s[0] == '/' || s[0] == '\\' || s[0] == ':' then "" else [s[0]]) + StripSeparators(s[1..])
  }

  /** 261 characters in a row, from position i on, without a separator. */
  predicate LongRunAt(s: string, i: nat) {
    i + 261 <= |s| && forall j :: i <= j < i + 261 ==> s[j] != '/' && s[j] != '\\' && s[j] != ':'
  }

  predicate RunsFit(s: string) {
    forall i: nat :: i < |s| ==> !LongRunAt(s, i)
  }

  lemma {:induction false} ConcatAppend(a: seq<string>, b: seq<string>)
    ensures Concat(a + b) == Concat(a) + Concat(b)
  {
    if a == [] {
      assert a + b == b;
    } else {
      ConcatAppend(a[1..], b);
      assert (a + b)[1..] == a[1..] + b;
    }
  }

  lemma {:induction false} StripAppend(a: string, b: string)
    ensures StripSeparators(a + b) == StripSeparators(a) + StripSeparators(b)
  {
    if a == "" {
      assert a + b == b;
    } else {
      assert (a + b)[1..] == a[1..] + b;
      StripAppend(a[1..], b);
    }
  }

  lemma {:induction false} StripRun(run: string)
    requires SeparatorFree(run)
    ensures StripSeparators(run) == run
  {
    if run != "" {
      StripRun(run[1..]);
    }
  }

  lemma {:induction false} ChunksLength(run: string)
    ensures |Concat(Chunks(run))| == |run| - |run| / (MAX_FILESYS_NAME + 1)
    ensures |run| <= MAX_FILESYS_NAME ==> Concat(Chunks(run)) == run
  {
    if |run| > MAX_FILESYS_NAME {
      ChunksLength(run[MAX_FILESYS_NAME + 1..]);
    }
  }

  /** No long run crosses a separator. */
  lemma RunsFitAtSeparator(a: string, c: char, b: string)
    requires IsSeparator(c)
    ensures RunsFit(a + [c] + b) <==> RunsFit(a) && RunsFit(b)
  {
    var s := a + [c] + b;
    assert s[|a|] == c;
    forall i: nat | i < |s|
      ensures i < |a| ==> (LongRunAt(s, i) <==> LongRunAt(a, i))
      ensures i == |a| ==> !LongRunAt(s, i)
      ensures i > |a| ==> (LongRunAt(s, i) <==> LongRunAt(b, i - |a| - 1))
    {
      assert forall j :: 0 <= j < |a| ==> s[j] == a[j];
      assert forall j :: 0 <= j < |b| ==> b[j] == s[|a| + 1 + j];
      assert forall j :: |a| < j < |s| ==> s[j] == b[j - |a| - 1];
    }
    if RunsFit(s) {
      forall i: nat | i < |b|
        ensures !LongRunAt(b, i)
      {
        assert !LongRunAt(s, |a| + 1 + i);
      }
    }
  }

  lemma {:induction false} Survivors(s: string)
    ensures |Concat(Tokens(s))| <= |StripSeparators(s)|
    ensures RunsFit(s) ==> Concat(Tokens(s)) == StripSeparators(s)
    ensures !RunsFit(s) ==> |Concat(Tokens(s))| < |StripSeparators(s)|
    decreases |s|
  {
    if SeparatorFree(s) {
      TokensOfRun(s);
      ChunksLength(s);
      StripRun(s);
      if |s| > MAX_FILESYS_NAME {
        assert LongRunAt(s, 0);
      }
    } else {
      var i :| 0 <= i < |s| && IsSeparator(s[i]);
      var a, c, b := s[..i], s[i], s[i + 1..];
      assert s == a + [c] + b;
      TokensAtSeparator(a, c, b);
      ConcatAppend(Tokens(a), Tokens(b));
      StripAppend(a + [c], b);
      StripAppend(a, [c]);
      RunsFitAtSeparator(a, c, b);
      Survivors(a);
      Survivors(b);
    }
  }

  /**
   * The components together are the path without its separators if and only if every 261
   * consecutive characters of the path contain a separator.
   */
  lemma NothingLostIff(s: string)
    ensures Concat(Tokens(s)) == StripSeparators(s) <==> RunsFit(s)
  {
    Survivors(s);
  }

  /** A concrete loss: in 261 equal letters the last letter is dropped. */
  lemma LongNameLosesACharacter()
    ensures var s := seq(261, _ => 'a');
      Split(s) == [s[..260]] && Concat(Split(s)) != StripSeparators(s)
  {
    var s := seq(261, _ => 'a');
    TokensOfRun(s);
    assert s[261..] == "";
    StripRun(s);
    assert |Concat([s[..260]])| == 260;
  }

  // ----- the result of SplitPath, in the characters and numbers of the source

  /** '/' is put in front exactly for a path that starts with '/' or ':' and has some other character. */
  function Front(p: string): string {
    if p != "" && (p[0] == '/' || p[0] == ':') && StripSeparators(p) != "" then "/" else ""
  }

  /**
   * No component is empty or holds a separator, apart from the '/' in front of the first one; and the
   * components together are the whole text of the path if and only if every 261 characters hold a separator.
   */
  ghost predicate CutOut(p: string, q: seq<string>) {
    && (forall k :: 0 <= k < |q| ==> q[k] != "")
    && (forall k, i :: 0 <= k < |q| && 0 <= i < |q[k]| && q[k][i] in "/\\:" ==> k == i == 0 && q[k][i] == '/' && Front(p) == "/")
    && (Concat(q) == Front(p) + StripSeparators(p) <==> RunsFit(p))
  }

  lemma {:induction false} StripEmptyIff(s: string)
    ensures StripSeparators(s) == "" <==> forall i :: 0 <= i < |s| ==> IsSeparator(s[i])
  {
    if s != "" {
      StripEmptyIff(s[1..]);
    }
  }

  lemma ConcatRooted(absolute: bool, t: seq<string>)
    ensures Concat(Rooted(absolute, t)) == (if absolute && t != [] then "/" else "") + Concat(t)
  {
    if absolute && t != [] {
      assert Rooted(absolute, t)[1..] == t[1..];
      assert ['/'] + t[0] + Concat(t[1..]) == "/" + (t[0] + Concat(t[1..]));
    } else {
      assert "" + Concat(t) == Concat(t);
    }
  }

  lemma FrontIff(p: string)
    ensures Front(p) == if IsAbsolute(p) && Tokens(p) != [] then "/" else ""
  {
    ScanEmptyIff("", p);
    StripEmptyIff(p);
  }

  lemma SplitConcat(p: string)
    ensures Concat(Split(p)) == Front(p) + StripSeparators(p) <==> RunsFit(p)
  {
    FrontIff(p);
    ConcatRooted(IsAbsolute(p), Tokens(p));
    NothingLostIff(p);
    var x, y := Concat(Tokens(p)), StripSeparators(p);
    assert (Front(p) + x)[|Front(p)|..] == x && (Front(p) + y)[|Front(p)|..] == y;
  }

  lemma SplitCutsOut(path: string, q: seq<string>)
    requires q == Split(CStr(path))
    ensures CutOut(CStr(path), q)
  {
    var p := CStr(path);
    SplitConcat(p);
    CStrIsNulFree(path);
    ScanGivesNames("", p);
    FrontIff(p);
    var t := Tokens(p);
    assert forall k :: 0 < k < |q| ==> q[k] == t[k];
    forall k, i | 0 <= k < |q| && 0 <= i < |q[k]| && q[k][i] in "/\\:"
      ensures k == i == 0 && q[k][i] == '/' && Front(p) == "/"
    {
      assert IsName(t[k]);
      assert IsSeparator(q[k][i]);
      if q[k] != t[k] {
        assert k == 0 && q[0] == ['/'] + t[0];
      }
    }
  }

  /** After the first component a separator only starts a new one: what follows is split as after a '\'. */
  lemma SplitAtSeparator(a: string, c: char, b: string)
    requires (c == '/' || c == '\\' || c == ':') && Split(a) != []
    ensures Split(a + [c] + b) == Split(a) + Tokens(b) == Split(a) + Split("\\" + b)
  {
    TokensAtSeparator(a, c, b);
    SplitAfterBackslash(b);
    RootedAppend(IsAbsolute(a), Tokens(a), Tokens(b));
    assert IsAbsolute(a + [c] + b) == IsAbsolute(a);
  }

  lemma RootedAppend(absolute: bool, t: seq<string>, u: seq<string>)
    requires t != []
    ensures Rooted(absolute, t + u) == Rooted(absolute, t) + u
  {
    assert (t + u)[1..] == t[1..] + u;
  }

  lemma SplitAfterBackslash(b: string)
    ensures Split("\\" + b) == Tokens(b)
  {
    TokensAfterSeparator('\\', b);
    assert "\\" + b == ['\\'] + b;
  }

  /** At the start of a path: of several separators the first counts, and '/' and ':' put '/' before the first component. */
  lemma SplitAtStart(c: char, b: string)
    requires IsSeparator(c)
    ensures forall d: char :: IsSeparator(d) ==> Split([c] + [d] + b) == Split([c] + b)
    ensures b == "" || !IsSeparator(b[0]) ==>
      Split([c] + b) == Rooted(c != '\\', Split(b))
  {
    TokensAfterSeparator(c, b);
    forall d: char | IsSeparator(d)
      ensures Split([c] + [d] + b) == Split([c] + b)
    {
      TokensAfterSeparator(d, b);
      TokensAfterSeparator(c, [d] + b);
      assert [c] + [d] + b == [c] + ([d] + b);
    }
  }

  lemma SplitOfRun(run: string)
    requires '/' !in run && '\\' !in run && ':' !in run
    ensures Split(run) == Chunks(run)
  {
    TokensOfRun(run);
  }

  // The three laws as laws of any function from paths to components.

  ghost predicate CutsRuns(f: string -> seq<string>) {
    forall run: string :: '/' !in run && '\\' !in run && ':' !in run ==> f(run) == Chunks(run)
  }

  ghost predicate CutsInside(f: string -> seq<string>) {
    forall a: string, c: char, b: string {:trigger f(a + [c] + b)} ::
      (c == '/' || c == '\\' || c == ':') && f(a) != [] ==> f(a + [c] + b) == f(a) + f("\\" + b)
  }

  ghost predicate StartsAtFirst(f: string -> seq<string>) {
    && (forall c: char, d: char, b: string {:trigger f([c] + [d] + b)} ::
          IsSeparator(c) && IsSeparator(d) ==> f([c] + [d] + b) == f([c] + b))
    && (forall c: char, b: string {:trigger f([c] + b)} :: IsSeparator(c) && (b == "" || !IsSeparator(b[0])) ==>
          f([c] + b) == Rooted(c != '\\', f(b)))
  }

  lemma InsideAt(f: string -> seq<string>, s: string, i: nat)
    requires CutsInside(f) && i < |s| && IsSeparator(s[i]) && f(s[..i]) == Split(s[..i]) != []
    requires f("\\" + s[i + 1..]) == Split("\\" + s[i + 1..])
    ensures f(s) == Split(s)
  {
    assert s == s[..i] + [s[i]] + s[i + 1..];
    SplitAtSeparator(s[..i], s[i], s[i + 1..]);
  }

  lemma StartTwice(f: string -> seq<string>, s: string)
    requires StartsAtFirst(f) && |s| > 1 && IsSeparator(s[0]) && IsSeparator(s[1])
    requires f([s[0]] + s[2..]) == Split([s[0]] + s[2..])
    ensures f(s) == Split(s)
  {
    assert s == [s[0]] + [s[1]] + s[2..];
    SplitAtStart(s[0], s[2..]);
  }

  lemma StartOnce(f: string -> seq<string>, s: string)
    requires StartsAtFirst(f) && s != "" && IsSeparator(s[0]) && (|s| == 1 || !IsSeparator(s[1]))
    requires f(s[1..]) == Split(s[1..])
    ensures f(s) == Split(s)
  {
    assert s == [s[0]] + s[1..];
    SplitAtStart(s[0], s[1..]);
  }

  /** The three laws, which name the separators, have one solution. */
  lemma {:induction false} SplitDetermined(f: string -> seq<string>, s: string)
    requires CutsRuns(f) && CutsInside(f) && StartsAtFirst(f)
    ensures f(s) == Split(s)
    decreases |s|
  {
    var i := FirstSeparator(s);
    if i == |s| {
      SplitOfRun(s);
    } else if i > 0 {
      SplitOfRun(s[..i]);
      SplitDetermined(f, "\\" + s[i + 1..]);
      InsideAt(f, s, i);
    } else if |s| > 1 && IsSeparator(s[1]) {
      SplitDetermined(f, [s[0]] + s[2..]);
      StartTwice(f, s);
    } else {
      SplitDetermined(f, s[1..]);
      StartOnce(f, s);
    }
  }

  lemma SplitObeys()
    ensures CutsRuns(Split) && CutsInside(Split) && StartsAtFirst(Split)
  {
    forall run: string | '/' !in run && '\\' !in run && ':' !in run
      ensures Split(run) == Chunks(run)
    {
      SplitOfRun(run);
    }
    forall a: string, c: char, b: string | (c == '/' || c == '\\' || c == ':') && Split(a) != []
      ensures Split(a + [c] + b) == Split(a) + Split("\\" + b)
    {
      SplitAtSeparator(a, c, b);
    }
    forall c: char, b: string | IsSeparator(c)
      ensures forall d: char :: IsSeparator(d) ==> Split([c] + [d] + b) == Split([c] + b)
      ensures b == "" || !IsSeparator(b[0]) ==> Split([c] + b) == Rooted(c != '\\', Split(b))
    {
      SplitAtStart(c, b);
    }
  }

  lemma {:induction false} FirstSeparator(s: string) returns (i: nat)
    ensures i <= |s| && (i < |s| ==> IsSeparator(s[i]))
    ensures forall j :: 0 <= j < i ==> !IsSeparator(s[j])
  {
    i := 0;
    if s != "" && !IsSeparator(s[0]) {
      i := FirstSeparator(s[1..]);
      i := i + 1;
    }
  }
}
