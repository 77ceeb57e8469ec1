/**
 * The header accessors of include/hiredis/sds.h.
 *
 * An sds is a position s in memory: the payload starts at s, the byte before it
 * carries the type tag, and the type decides how wide the two fields before that
 * byte are.  Memory is an array of bytes, multi-byte fields are little-endian.
 */
module SdsHeader {
  type byte = x: int | 0 <= x < 256
  type size_t = x: int | 0 <= x < 0x1_0000_0000_0000_0000

  const SIZE_MOD := 0x1_0000_0000_0000_0000

  const SDS_TYPE_5 := 0
  const SDS_TYPE_8 := 1
  const SDS_TYPE_16 := 2
  const SDS_TYPE_32 := 3
  const SDS_TYPE_64 := 4
  const SDS_TYPE_MASK := 7

  // ----- integers in memory

  function Pow256(n: nat): (r: nat)
    ensures r > 0
  {
    if n == 0 then 1 else 256 * Pow256(n - 1)
  }

  function Encode(v: nat, n: nat): (b: seq<byte>)
    ensures |b| == n
  {
    if n == 0 then [] else [v % 256] + Encode(v / 256, n - 1)
  }

  function Decode(b: seq<byte>): nat {
    if b == [] then 0 else b[0] + 256 * Decode(b[1..])
  }

  lemma {:induction false} DecodeBound(b: seq<byte>)
    ensures Decode(b) < Pow256(|b|)
  {
    if b != [] {
      DecodeBound(b[1..]);
    }
  }

  lemma ModStep(v: nat, m: nat)
    requires m > 0
    ensures v % (256 * m) == v % 256 + 256 * ((v / 256) % m)
  {
    var q, r := (v / 256) / m, (v / 256) % m;
    assert v / 256 == m * q + r;
    assert v == 256 * (m * q + r) + v % 256;
    assert 256 * (m * q) == (256 * m) * q;
    var low := v % 256 + 256 * r;
    assert v == (256 * m) * q + low && 0 <= low < 256 * m;
    ModUnique(v, 256 * m, q, low);
  }

  lemma ModUnique(v: int, m: nat, q: int, r: nat)
    requires m > 0 && r < m && v == m * q + r
    ensures v % m == r
  {
    var k := q - v / m;
    assert m * k == m * q - m * (v / m);
    SmallMultiple(m, k);
  }

  lemma SmallMultiple(m: nat, k: int)
    ensures k >= 1 ==> m * k >= m
    ensures k <= -1 ==> m * k <= -1 * m
  {
  }

  /** Writing n bytes and reading them back keeps the value modulo 256^n. */
  lemma {:induction false} DecodeEncode(v: nat, n: nat)
    ensures Decode(Encode(v, n)) == v % Pow256(n)
  {
    if n > 0 {
      DecodeEncode(v / 256, n - 1);
      ModStep(v, Pow256(n - 1));
    }
  }

  /** Bytes are determined by their value, so writing a field back changes nothing. */
  lemma {:induction false} EncodeDecode(b: seq<byte>)
    ensures Encode(Decode(b), |b|) == b
  {
    if b != [] {
      EncodeDecode(b[1..]);
      assert (b[0] + 256 * Decode(b[1..])) / 256 == Decode(b[1..]);
    }
  }

  lemma EncodeMod(v: nat, n: nat)
    ensures Encode(v % Pow256(n), n) == Encode(v, n)
  {
    DecodeEncode(v, n);
    EncodeDecode(Encode(v, n));
  }

  lemma PowerValues()
    ensures Pow256(1) == 0x100 && Pow256(2) == 0x1_0000
    ensures Pow256(4) == 0x1_0000_0000 && Pow256(8) == SIZE_MOD
  {
  }

  // ----- layout

  function Tag(flags: byte): nat {
    flags % (SDS_TYPE_MASK + 1)
  }

  /** Bytes of each of the fields len and alloc; type 5 and the unused tags have none. */
  function Width(tag: nat): nat {
    match tag
    case 1 => 1
    case 2 => 2
    case 3 => 4
    case 4 => 8
    case _ => 0
  }

  predicate InMemory(m: seq<byte>, s: nat) {
    1 <= s <= |m| && 1 + 2 * Width(Tag(m[s - 1])) <= s
  }

  function LenAt(s: nat, tag: nat): int { s - 1 - 2 * Width(tag) }

  function AllocAt(s: nat, tag: nat): int { s - 1 - Width(tag) }

  function Field(m: seq<byte>, at: int, n: nat): (v: nat)
    requires 0 <= at && at + n <= |m|
    ensures v < Pow256(n)
  {
    DecodeBound(m[at..at + n]);
    Decode(m[at..at + n])
  }

  function Put(m: seq<byte>, at: int, b: seq<byte>): (m': seq<byte>)
    requires 0 <= at && at + |b| <= |m|
    ensures |m'| == |m|
  {
    m[..at] + b + m[at + |b|..]
  }

  // ----- what the header means

  datatype Header = Header(tag: nat, len: nat, alloc: nat)

  function View(m: seq<byte>, s: nat): Header
    requires InMemory(m, s)
  {
    var tag := Tag(m[s - 1]);
    if tag == SDS_TYPE_5 then Header(tag, m[s - 1] / 8, m[s - 1] / 8)
    else Header(tag, Field(m, LenAt(s, tag), Width(tag)), Field(m, AllocAt(s, tag), Width(tag)))
  }

  /** The lengths a header type can hold are those below its modulus. */
  function Modulus(tag: nat): (r: nat)
    ensures r > 0
  {
    if tag == SDS_TYPE_5 then 32 else Pow256(Width(tag))
  }

  datatype Op = SetLen(n: size_t) | IncLen(n: size_t) | SetAlloc(n: size_t)

  function Apply(h: Header, op: Op): Header {
    match op
    case SetLen(n) => WithLen(h, n % Modulus(h.tag))
    case IncLen(n) => WithLen(h, (h.len + n) % Modulus(h.tag))
    case SetAlloc(n) => if h.tag == SDS_TYPE_5 then h else h.(alloc := n % Modulus(h.tag))
  }

  /** Type 5 has one number for both. */
  function WithLen(h: Header, len: nat): Header {
    if h.tag == SDS_TYPE_5 then Header(h.tag, len, len) else h.(len := len)
  }

  function ApplyAll(h: Header, ops: seq<Op>): Header
    decreases |ops|
  {
    if ops == [] then h else ApplyAll(Apply(h, ops[0]), ops[1..])
  }

  // ----- the accessors

  /** SDS_TYPE_5 | (len << SDS_TYPE_BITS), stored in one byte. */
  function FiveFlags(len: nat): byte {
    (SDS_TYPE_5 + len * 8) % 256
  }

  function SdsLen(m: seq<byte>, s: nat): (r: size_t)
    requires InMemory(m, s)
    ensures r == View(m, s).len
  {
    PowerValues();
    var flags := m[s - 1];
    match flags % 8
    case 0 => flags / 8
    case 1 => Field(m, s - 3, 1)
    case 2 => Field(m, s - 5, 2)
    case 3 => Field(m, s - 9, 4)
    case 4 => Field(m, s - 17, 8)
    case _ => 0
  }

  function SdsAlloc(m: seq<byte>, s: nat): (r: size_t)
    requires InMemory(m, s)
    ensures r == View(m, s).alloc
  {
    PowerValues();
    var flags := m[s - 1];
    match flags % 8
    case 0 => flags / 8
    case 1 => Field(m, s - 2, 1)
    case 2 => Field(m, s - 3, 2)
    case 3 => Field(m, s - 5, 4)
    case 4 => Field(m, s - 9, 8)
    case _ => 0
  }

  /** uint8_t and uint16_t subtract as int and are then converted; uint32_t wraps at 2^32 before it is widened. */
  function SdsAvail(m: seq<byte>, s: nat): (r: size_t)
    requires InMemory(m, s)
    ensures var h := View(m, s);
      r == if h.len <= h.alloc then h.alloc - h.len else h.alloc - h.len + AvailWrap(h.tag)
  {
    PowerValues();
    match m[s - 1] % 8
    case 1 => Minus(Field(m, s - 2, 1), Field(m, s - 3, 1), SIZE_MOD)
    case 2 => Minus(Field(m, s - 3, 2), Field(m, s - 5, 2), SIZE_MOD)
    case 3 => Minus(Field(m, s - 5, 4), Field(m, s - 9, 4), 0x1_0000_0000)
    case 4 => Minus(Field(m, s - 9, 8), Field(m, s - 17, 8), SIZE_MOD)
    case _ => 0
  }

  /** Unsigned subtraction that wraps at m. */
  function Minus(a: nat, b: nat, m: nat): (r: nat)
    requires a < m && b < m
    ensures r == if b <= a then a - b else a - b + m
  {
    ModUnique(a - b, m, if b <= a then 0 else -1, if b <= a then a - b else a - b + m);
    (a - b) % m
  }

  function AvailWrap(tag: nat): nat {
    if tag == SDS_TYPE_32 then 0x1_0000_0000 else SIZE_MOD
  }

  /** An assignment to a header field of n bytes. */
  method Store(mem: array<byte>, at: nat, n: nat, v: nat)
    requires at + n <= mem.Length
    modifies mem
    ensures mem[..] == Put(old(mem[..]), at, Encode(v, n))
  {
    var b := Encode(v, n);
    forall i | at <= i < at + n {
      mem[i] := b[i - at];
    }
  }

  /** The bytes after one operation: only the field written changes, and it holds the new record. */
  function Written(m: seq<byte>, s: nat, op: Op): (m': seq<byte>)
    requires InMemory(m, s)
    ensures |m'| == |m|
  {
    var h := Apply(View(m, s), op);
    if h.tag == SDS_TYPE_5 then m[s - 1 := FiveFlags(h.len)]
    else if op.SetAlloc? then Put(m, AllocAt(s, h.tag), Encode(h.alloc, Width(h.tag)))
    else Put(m, LenAt(s, h.tag), Encode(h.len, Width(h.tag)))
  }

  function Added(m: seq<byte>, at: int, n: nat, inc: size_t): seq<byte>
    requires 0 <= at && at + n <= |m|
  {
    Put(m, at, Encode((Field(m, at, n) + inc) % SIZE_MOD, n))
  }

  /** field += inc, added as size_t and cut to the field. */
  method AddTo(mem: array<byte>, at: nat, n: nat, inc: size_t)
    requires at + n <= mem.Length
    modifies mem
    ensures mem[..] == Added(old(mem[..]), at, n, inc)
  {
    Store(mem, at, n, (Field(mem[..], at, n) + inc) % SIZE_MOD);
  }

  method SdsSetLen(mem: array<byte>, s: nat, newlen: size_t)
    requires InMemory(mem[..], s)
    modifies mem
    ensures mem[..] == Written(old(mem[..]), s, SetLen(newlen))
  {
    var flags := mem[s - 1];
    WrittenLen(mem[..], s, SetLen(newlen), newlen);
    match flags % 8 {
      case 0 => SetFlags(mem, s, FiveFlags(newlen));
      case 1 => Store(mem, s - 3, 1, newlen);
      case 2 => Store(mem, s - 5, 2, newlen);
      case 3 => Store(mem, s - 9, 4, newlen);
      case 4 => Store(mem, s - 17, 8, newlen);
      case _ =>
    }
  }

  method SdsIncLen(mem: array<byte>, s: nat, inc: size_t)
    requires InMemory(mem[..], s)
    modifies mem
    ensures mem[..] == Written(old(mem[..]), s, IncLen(inc))
  {
    WrittenInc(mem[..], s, inc);
    Increment(mem, s, inc);
  }

  method Increment(mem: array<byte>, s: nat, inc: size_t)
    requires InMemory(mem[..], s)
    modifies mem
    ensures mem[..] == Incremented(old(mem[..]), s, inc)
  {
    var flags := mem[s - 1];
    match flags % 8 {
      case 0 =>
        var newlen := (flags / 8 + inc) % 256;
        SetFlags(mem, s, FiveFlags(newlen));
      case 1 => AddTo(mem, s - 3, 1, inc);
      case 2 => AddTo(mem, s - 5, 2, inc);
      case 3 => AddTo(mem, s - 9, 4, inc);
      case 4 => AddTo(mem, s - 17, 8, inc);
      case _ =>
    }
  }

  /** The write through fp in the type 5 branches. */
  method SetFlags(mem: array<byte>, s: nat, flags: byte)
    requires 1 <= s <= mem.Length
    modifies mem
    ensures mem[..] == old(mem[..])[s - 1 := flags]
  {
    mem[s - 1] := flags;
  }

  method SdsSetAlloc(mem: array<byte>, s: nat, newlen: size_t)
    requires InMemory(mem[..], s)
    modifies mem
    ensures mem[..] == Written(old(mem[..]), s, SetAlloc(newlen))
  {
    var flags := mem[s - 1];
    WrittenAlloc(mem[..], s, newlen);
    match flags % 8 {
      case 0 =>
      case 1 => Store(mem, s - 2, 1, newlen);
      case 2 => Store(mem, s - 3, 2, newlen);
      case 3 => Store(mem, s - 5, 4, newlen);
      case 4 => Store(mem, s - 9, 8, newlen);
      case _ =>
    }
  }

  lemma ModOfMod(x: nat, a: nat, k: nat)
    requires a > 0 && k > 0
    ensures a * k > 0 && x % (a * k) % a == x % a
  {
    SmallMultiple(a, k);
    var q, r := x / (a * k), x % (a * k);
    assert r == a * (r / a) + r % a;
    assert (a * k) * q == a * (k * q);
    assert x == a * (k * q + r / a) + r % a;
    ModUnique(x, a, k * q + r / a, r % a);
  }

  lemma SizeModFirst(x: nat, tag: nat)
    ensures x % SIZE_MOD % Modulus(tag) == x % Modulus(tag)
  {
    PowerValues();
    assert Pow256(0) == 1;
    ModOfMod(x, Modulus(tag), SIZE_MOD / Modulus(tag));
  }

  lemma FiveBits(v: nat)
    ensures FiveFlags(v % 32) == FiveFlags(v)
    ensures v % 256 % 32 == v % 32
  {
    assert v * 8 == 256 * (v / 32) + v % 32 * 8;
    ModUnique(v * 8, 256, v / 32, v % 32 * 8);
    ModTwice(v % 32 * 8, 256);
    ModOfMod(v, 32, 8);
  }

  lemma WrittenLen(m: seq<byte>, s: nat, op: Op, v: nat)
    requires InMemory(m, s) && !op.SetAlloc?
    requires Apply(View(m, s), op).len == v % Modulus(Tag(m[s - 1]))
    ensures var tag := Tag(m[s - 1]);
      Written(m, s, op) ==
      if tag == SDS_TYPE_5 then m[s - 1 := FiveFlags(v)] else Put(m, LenAt(s, tag), Encode(v, Width(tag)))
  {
    if Tag(m[s - 1]) == SDS_TYPE_5 {
      FiveBits(v);
    } else {
      EncodeMod(v, Width(Tag(m[s - 1])));
    }
  }

  /** The bytes after sdsinclen, with the arithmetic of the C statements. */
  function Incremented(m: seq<byte>, s: nat, inc: size_t): seq<byte>
    requires InMemory(m, s)
  {
    match m[s - 1] % 8
    case 0 => m[s - 1 := FiveFlags((m[s - 1] / 8 + inc) % 256)]
    case 1 => Added(m, s - 3, 1, inc)
    case 2 => Added(m, s - 5, 2, inc)
    case 3 => Added(m, s - 9, 4, inc)
    case 4 => Added(m, s - 17, 8, inc)
    case _ => m
  }

  lemma WrittenInc(m: seq<byte>, s: nat, inc: size_t)
    requires InMemory(m, s)
    ensures Written(m, s, IncLen(inc)) == Incremented(m, s, inc)
  {
    if Tag(m[s - 1]) == SDS_TYPE_5 {
      WrittenIncFive(m, s, inc);
    } else {
      WrittenIncWide(m, s, inc);
      IncrementedWide(m, s, inc);
    }
  }

  lemma WrittenIncFive(m: seq<byte>, s: nat, inc: size_t)
    requires InMemory(m, s) && Tag(m[s - 1]) == SDS_TYPE_5
    ensures Written(m, s, IncLen(inc)) == m[s - 1 := FiveFlags((m[s - 1] / 8 + inc) % 256)]
  {
    FiveBits(View(m, s).len + inc);
    WrittenLen(m, s, IncLen(inc), (View(m, s).len + inc) % 256);
  }

  lemma WrittenIncWide(m: seq<byte>, s: nat, inc: size_t)
    requires InMemory(m, s) && Tag(m[s - 1]) != SDS_TYPE_5
    ensures Written(m, s, IncLen(inc)) == Added(m, LenAt(s, Tag(m[s - 1])), Width(Tag(m[s - 1])), inc)
  {
    SizeModFirst(View(m, s).len + inc, Tag(m[s - 1]));
    WrittenLen(m, s, IncLen(inc), (View(m, s).len + inc) % SIZE_MOD);
  }

  lemma IncrementedWide(m: seq<byte>, s: nat, inc: size_t)
    requires InMemory(m, s) && Tag(m[s - 1]) != SDS_TYPE_5
    ensures Incremented(m, s, inc) == Added(m, LenAt(s, Tag(m[s - 1])), Width(Tag(m[s - 1])), inc)
  {
  }

  lemma WrittenAlloc(m: seq<byte>, s: nat, n: size_t)
    requires InMemory(m, s)
    ensures var tag := Tag(m[s - 1]);
      Written(m, s, SetAlloc(n)) ==
      if tag == SDS_TYPE_5 then m else Put(m, AllocAt(s, tag), Encode(n, Width(tag)))
  {
    if Tag(m[s - 1]) == SDS_TYPE_5 {
      FiveFlagsBack(m[s - 1]);
    } else {
      EncodeMod(n, Width(Tag(m[s - 1])));
    }
  }

  lemma FiveFlagsBack(flags: byte)
    requires Tag(flags) == SDS_TYPE_5
    ensures FiveFlags(flags / 8) == flags
  {
  }

  // ----- the bytes refine the record

  /** The bytes an operation may touch: the flags byte for type 5, otherwise one field. */
  predicate Touches(s: nat, tag: nat, op: Op, i: int) {
    if tag == SDS_TYPE_5 then i == s - 1
    else
      var at := if op.SetAlloc? then AllocAt(s, tag) else LenAt(s, tag);
      at <= i < at + Width(tag)
  }

  lemma FieldWritten(m: seq<byte>, at: int, v: nat, n: nat)
    requires 0 <= at && at + n <= |m|
    ensures Field(Put(m, at, Encode(v, n)), at, n) == v % Pow256(n)
  {
    assert Put(m, at, Encode(v, n))[at..at + n] == Encode(v, n);
    DecodeEncode(v, n);
  }

  lemma FieldKept(m: seq<byte>, at: int, b: seq<byte>, other: int, n: nat)
    requires 0 <= at && at + |b| <= |m| && 0 <= other && other + n <= |m|
    requires other + n <= at || at + |b| <= other
    ensures Field(Put(m, at, b), other, n) == Field(m, other, n)
  {
    assert Put(m, at, b)[other..other + n] == m[other..other + n];
  }

  /** One operation does to the record exactly what Apply says. */
  lemma OpRefines(m: seq<byte>, s: nat, op: Op)
    requires InMemory(m, s)
    ensures InMemory(Written(m, s, op), s)
    ensures View(Written(m, s, op), s) == Apply(View(m, s), op)
  {
    var tag := Tag(m[s - 1]);
    if tag == SDS_TYPE_5 {
      FiveFlagsMean(Apply(View(m, s), op).len);
    } else if op.SetAlloc? {
      var v := op.n % Pow256(Width(tag));
      ModTwice(op.n, Pow256(Width(tag)));
      AllocWritten(m, s, v);
    } else {
      var x := if op.SetLen? then op.n else View(m, s).len + op.n;
      ModTwice(x, Pow256(Width(tag)));
      LenWritten(m, s, x % Pow256(Width(tag)));
    }
  }

  lemma FiveFlagsMean(len: nat)
    requires len < 32
    ensures Tag(FiveFlags(len)) == SDS_TYPE_5 && FiveFlags(len) / 8 == len
  {
  }

  lemma AllocWritten(m: seq<byte>, s: nat, v: nat)
    requires InMemory(m, s) && Tag(m[s - 1]) != SDS_TYPE_5
    requires v % Pow256(Width(Tag(m[s - 1]))) == v
    ensures var w := Width(Tag(m[s - 1]));
      var m' := Put(m, AllocAt(s, Tag(m[s - 1])), Encode(v, w));
      m'[s - 1] == m[s - 1] && View(m', s) == View(m, s).(alloc := v)
  {
    var w := Width(Tag(m[s - 1]));
    FieldWritten(m, s - 1 - w, v, w);
    FieldKept(m, s - 1 - w, Encode(v, w), s - 1 - 2 * w, w);
  }

  lemma LenWritten(m: seq<byte>, s: nat, v: nat)
    requires InMemory(m, s) && Tag(m[s - 1]) != SDS_TYPE_5
    requires v % Pow256(Width(Tag(m[s - 1]))) == v
    ensures var w := Width(Tag(m[s - 1]));
      var m' := Put(m, LenAt(s, Tag(m[s - 1])), Encode(v, w));
      m'[s - 1] == m[s - 1] && View(m', s) == View(m, s).(len := v)
  {
    var w := Width(Tag(m[s - 1]));
    FieldWritten(m, s - 1 - 2 * w, v, w);
    FieldKept(m, s - 1 - 2 * w, Encode(v, w), s - 1 - w, w);
  }

  lemma ModTwice(v: nat, m: nat)
    requires m > 0
    ensures v % m % m == v % m
  {
  }

  /** One operation changes no byte outside its field. */
  lemma OpFrame(m: seq<byte>, s: nat, op: Op, i: nat)
    requires InMemory(m, s) && i < |m| && !Touches(s, Tag(m[s - 1]), op, i)
    ensures Written(m, s, op)[i] == m[i]
  {
  }

  function RunOps(m: seq<byte>, s: nat, ops: seq<Op>): (m': seq<byte>)
    requires InMemory(m, s)
    ensures |m'| == |m| && InMemory(m', s)
    decreases |ops|
  {
    if ops == [] then m
    else
      OpRefines(m, s, ops[0]);
      RunOps(Written(m, s, ops[0]), s, ops[1..])
  }

  /** The header type and every byte outside the header survive any sequence of operations. */
  predicate SameOutside(m: seq<byte>, m': seq<byte>, s: nat)
    requires InMemory(m, s)
  {
    && |m'| == |m|
    && Tag(m'[s - 1]) == Tag(m[s - 1])
    && (Tag(m[s - 1]) != SDS_TYPE_5 ==> m'[s - 1] == m[s - 1])
    && forall i :: 0 <= i < |m| && !(s - 1 - 2 * Width(Tag(m[s - 1])) <= i < s) ==> m'[i] == m[i]
  }

  /** Any run on the bytes refines the run on the record; payload, neighbours and type tag are untouched. */
  lemma {:induction false} RunRefines(m: seq<byte>, s: nat, ops: seq<Op>)
    requires InMemory(m, s)
    ensures View(RunOps(m, s, ops), s) == ApplyAll(View(m, s), ops)
    ensures SameOutside(m, RunOps(m, s, ops), s)
    decreases |ops|
  {
    if ops != [] {
      OpRefines(m, s, ops[0]);
      forall i: nat | i < |m| && !Touches(s, Tag(m[s - 1]), ops[0], i)
        ensures Written(m, s, ops[0])[i] == m[i]
      {
        OpFrame(m, s, ops[0], i);
      }
      RunRefines(Written(m, s, ops[0]), s, ops[1..]);
    }
  }

  /** Sequences of writes compose, and one write is what the accessor does. */
  lemma {:induction false} RunsCompose(m: seq<byte>, s: nat, a: seq<Op>, b: seq<Op>)
    requires InMemory(m, s)
    ensures RunOps(m, s, a + b) == RunOps(RunOps(m, s, a), s, b)
    ensures |a| == 1 ==> RunOps(m, s, a) == Written(m, s, a[0])
    decreases |a|
  {
    if a == [] {
      assert a + b == b;
    } else {
      OpRefines(m, s, a[0]);
      assert (a + b)[1..] == a[1..] + b;
      RunsCompose(Written(m, s, a[0]), s, a[1..], b);
    }
  }

  lemma FieldInjective(m1: seq<byte>, m2: seq<byte>, at: int, n: nat)
    requires 0 <= at && at + n <= |m1| && |m1| == |m2|
    requires Field(m1, at, n) == Field(m2, at, n)
    ensures forall i :: at <= i < at + n ==> m1[i] == m2[i]
  {
    var b1, b2 := m1[at..at + n], m2[at..at + n];
    EncodeDecode(b1);
    EncodeDecode(b2);
    assert b1 == b2;
    forall i | at <= i < at + n
      ensures m1[i] == m2[i]
    {
      assert m1[i] == b1[i - at] && m2[i] == b2[i - at];
    }
  }

  /** The bytes of a header are determined by the record they mean. */
  lemma ViewInjective(m: seq<byte>, m1: seq<byte>, m2: seq<byte>, s: nat)
    requires InMemory(m, s) && SameOutside(m, m1, s) && SameOutside(m, m2, s)
    requires View(m1, s) == View(m2, s)
    ensures m1 == m2
  {
    var tag := Tag(m[s - 1]);
    if tag == SDS_TYPE_5 {
      assert m1[s - 1] == m2[s - 1];
    } else {
      FieldInjective(m1, m2, LenAt(s, tag), Width(tag));
      FieldInjective(m1, m2, AllocAt(s, tag), Width(tag));
      assert forall i :: 0 <= i < |m| ==> m1[i] == m2[i];
    }
  }

  /** Two runs leave the same memory, byte for byte, if and only if they do the same to the record. */
  lemma RunsAgreeIff(m: seq<byte>, s: nat, ops1: seq<Op>, ops2: seq<Op>)
    requires InMemory(m, s)
    ensures RunOps(m, s, ops1) == RunOps(m, s, ops2) <==> ApplyAll(View(m, s), ops1) == ApplyAll(View(m, s), ops2)
  {
    RunRefines(m, s, ops1);
    RunRefines(m, s, ops2);
    if ApplyAll(View(m, s), ops1) == ApplyAll(View(m, s), ops2) {
      ViewInjective(m, RunOps(m, s, ops1), RunOps(m, s, ops2), s);
    }
  }

  // ----- laws of the accessors

  lemma ModulusDividesSize(tag: nat) returns (k: nat)
    ensures k > 0 && Modulus(tag) * k == SIZE_MOD
  {
    PowerValues();
    assert Pow256(0) == 1;
    k := SIZE_MOD / Modulus(tag);
  }

  lemma AddMod(a: nat, b: nat, m: nat)
    requires m > 0
    ensures (a % m + b) % m == (a + b) % m
  {
    assert a + b == m * (a / m) + (a % m + b);
    var r := a % m + b;
    assert r == m * (r / m) + r % m;
    assert m * (a / m) + m * (r / m) == m * (a / m + r / m);
    ModUnique(a + b, m, a / m + r / m, r % m);
  }

  lemma ViewInRange(m: seq<byte>, s: nat)
    requires InMemory(m, s)
    ensures View(m, s).len < Modulus(View(m, s).tag) && View(m, s).alloc < Modulus(View(m, s).tag)
  {
  }

  lemma OneOp(h: Header, op: Op)
    ensures ApplyAll(h, [op]) == Apply(h, op)
  {
  }

  lemma TwoOps(h: Header, op1: Op, op2: Op)
    ensures ApplyAll(h, [op1, op2]) == Apply(Apply(h, op1), op2)
  {
    assert [op1, op2][1..] == [op2];
    OneOp(Apply(h, op1), op2);
  }

  lemma IncrementMod(l: nat, a: size_t, b: size_t, d: nat, k: nat)
    requires d > 0 && k > 0 && d * k == SIZE_MOD
    ensures ((l + a) % d + b) % d == (l + (a + b) % SIZE_MOD) % d
  {
    calc {
      ((l + a) % d + b) % d;
      { AddMod(l + a, b, d); }
      (a + b + l) % d;
      { AddMod(a + b, l, d); }
      ((a + b) % d + l) % d;
      { ModOfMod(a + b, d, k); }
      ((a + b) % SIZE_MOD % d + l) % d;
      { AddMod((a + b) % SIZE_MOD, l, d); }
      ((a + b) % SIZE_MOD + l) % d;
    }
  }

  lemma RecordIncrementsAdd(h: Header, a: size_t, b: size_t)
    ensures ApplyAll(h, [IncLen(a), IncLen(b)]) == ApplyAll(h, [IncLen((a + b) % SIZE_MOD)])
  {
    var k := ModulusDividesSize(h.tag);
    IncrementMod(h.len, a, b, Modulus(h.tag), k);
    TwoOps(h, IncLen(a), IncLen(b));
    OneOp(h, IncLen((a + b) % SIZE_MOD));
  }

  /** Two increments are one increment by their size_t sum, on every byte of memory. */
  lemma IncrementsAdd(m: seq<byte>, s: nat, a: size_t, b: size_t)
    requires InMemory(m, s)
    ensures RunOps(m, s, [IncLen(a), IncLen(b)]) == RunOps(m, s, [IncLen((a + b) % SIZE_MOD)])
  {
    RecordIncrementsAdd(View(m, s), a, b);
    RunsAgreeIff(m, s, [IncLen(a), IncLen(b)], [IncLen((a + b) % SIZE_MOD)]);
  }

  lemma RecordIncrementZero(h: Header)
    requires h.len < Modulus(h.tag)
    requires h.tag == SDS_TYPE_5 ==> h.alloc == h.len
    ensures ApplyAll(h, [IncLen(0)]) == h
  {
    OneOp(h, IncLen(0));
    ModUnique(h.len, Modulus(h.tag), 0, h.len);
  }

  /** -a as a size_t */
  function Complement(a: size_t): (b: size_t)
    ensures (a + b) % SIZE_MOD == 0
  {
    if a == 0 then 0 else SIZE_MOD - a
  }

  /** Adding the two's complement of an increment takes it back and restores the memory. */
  lemma IncrementUndone(m: seq<byte>, s: nat, a: size_t)
    requires InMemory(m, s)
    ensures RunOps(m, s, [IncLen(a), IncLen(Complement(a))]) == m
  {
    var b := Complement(a);
    ViewInRange(m, s);
    RecordIncrementsAdd(View(m, s), a, b);
    RecordIncrementZero(View(m, s));
    RunsAgreeIff(m, s, [IncLen(a), IncLen(b)], []);
  }

  lemma RecordFieldsIndependent(h: Header, n: size_t, op: Op)
    requires !op.SetAlloc?
    ensures ApplyAll(h, [SetAlloc(n), op]) == ApplyAll(h, [op, SetAlloc(n)])
  {
  }

  /** Writes of the length and of the allocation commute, on every byte of memory. */
  lemma FieldsIndependent(m: seq<byte>, s: nat, n: size_t, op: Op)
    requires InMemory(m, s) && !op.SetAlloc?
    ensures RunOps(m, s, [SetAlloc(n), op]) == RunOps(m, s, [op, SetAlloc(n)])
  {
    RecordFieldsIndependent(View(m, s), n, op);
    RunsAgreeIff(m, s, [SetAlloc(n), op], [op, SetAlloc(n)]);
  }

  /** sdslen gives back what sdssetlen was given if and only if the type has room for it. */
  lemma SetLenExactIff(m: seq<byte>, s: nat, n: size_t)
    requires InMemory(m, s)
    ensures InMemory(Written(m, s, SetLen(n)), s)
    ensures SdsLen(Written(m, s, SetLen(n)), s) == n <==> n < Modulus(Tag(m[s - 1]))
  {
    OpRefines(m, s, SetLen(n));
    if n < Modulus(Tag(m[s - 1])) {
      ModUnique(n, Modulus(Tag(m[s - 1])), 0, n);
    }
  }

  /**
   * The header's comment promises sdsalloc() = sdsavail() + sdslen().  As numbers this holds
   * exactly when the length does not exceed the allocation (which type 5 cannot break).
   */
  lemma AllocLawIff(m: seq<byte>, s: nat)
    requires InMemory(m, s)
    ensures SdsAlloc(m, s) == SdsAvail(m, s) + SdsLen(m, s) <==> View(m, s).len <= View(m, s).alloc
  {
  }

  /** Computed in size_t the law also survives len > alloc, except for type 32, whose difference wraps at 2^32. */
  lemma AllocLawInSizeTIff(m: seq<byte>, s: nat)
    requires InMemory(m, s)
    ensures SdsAlloc(m, s) == (SdsAvail(m, s) + SdsLen(m, s)) % SIZE_MOD <==>
      Tag(m[s - 1]) != SDS_TYPE_32 || View(m, s).len <= View(m, s).alloc
  {
  }

  /** A type 32 header with length 1 and allocation 0: 0 is not 4294967295 + 1. */
  lemma AllocLawFails()
    ensures var m := [1, 0, 0, 0, 0, 0, 0, 0, SDS_TYPE_32];
      && InMemory(m, 9) && SdsAlloc(m, 9) == 0
      && SdsAvail(m, 9) + SdsLen(m, 9) == 0x1_0000_0000
  {
    var m: seq<byte> := [1, 0, 0, 0, 0, 0, 0, 0, SDS_TYPE_32];
    assert m[0..4] == [1, 0, 0, 0] && m[4..8] == [0, 0, 0, 0];
    assert Decode([0, 0, 0]) == 0 by {
      assert Decode([0, 0, 0][1..]) == 0;
    }
    assert [1, 0, 0, 0][1..] == [0, 0, 0] && [0, 0, 0, 0][1..] == [0, 0, 0];
  }

  /** Growing by at most sdsavail: the length stays within the allocation and sdsavail drops by exactly the increment. */
  lemma GrowWithinAvail(m: seq<byte>, s: nat, inc: size_t)
    requires InMemory(m, s) && View(m, s).len <= View(m, s).alloc
    requires inc <= SdsAvail(m, s)
    ensures var m' := Written(m, s, IncLen(inc));
      && InMemory(m', s)
      && SdsLen(m', s) == SdsLen(m, s) + inc <= SdsAlloc(m', s)
      && SdsAlloc(m', s) == SdsAlloc(m, s)
      && SdsAvail(m', s) == SdsAvail(m, s) - inc
  {
    var h := View(m, s);
    OpRefines(m, s, IncLen(inc));
    ViewInRange(m, s);
    ModUnique(h.len + inc, Modulus(h.tag), 0, h.len + inc);
  }

  function Total(incs: seq<size_t>): nat {
    if incs == [] then 0 else incs[0] + Total(incs[1..])
  }

  function Increments(incs: seq<size_t>): seq<Op> {
    if incs == [] then [] else [IncLen(incs[0])] + Increments(incs[1..])
  }

  /** Any number of increments that together fit sdsavail add up exactly and leave the allocation alone. */
  lemma {:induction false} GrowRepeatedly(m: seq<byte>, s: nat, incs: seq<size_t>)
    requires InMemory(m, s) && View(m, s).len <= View(m, s).alloc
    requires Total(incs) <= SdsAvail(m, s)
    ensures var m' := RunOps(m, s, Increments(incs));
      && SdsLen(m', s) == SdsLen(m, s) + Total(incs)
      && SdsAlloc(m', s) == SdsAlloc(m, s)
      && SdsAvail(m', s) == SdsAvail(m, s) - Total(incs)
    decreases |incs|
  {
    if incs != [] {
      GrowWithinAvail(m, s, incs[0]);
      GrowRepeatedly(Written(m, s, IncLen(incs[0])), s, incs[1..]);
      assert Increments(incs)[1..] == Increments(incs[1..]);
    }
  }

  // ----- the bytes themselves

  /** A byte is its own value, and later bytes count 256 times more for each byte before them. */
  lemma {:induction false} DecodeAppend(a: seq<byte>, b: seq<byte>)
    ensures |a| == 1 ==> Decode(a) == a[0]
    ensures Decode(a + b) == Decode(a) + Pow256(|a|) * Decode(b)
  {
    if a == [] {
      assert a + b == b;
    } else {
      DecodeAppend(a[1..], b);
      assert (a + b)[1..] == a[1..] + b;
      var p, d := Pow256(|a| - 1), Decode(b);
      assert 256 * (p * d) == (256 * p) * d;
    }
  }

  lemma DecodeShort(b: seq<byte>)
    ensures |b| == 1 ==> Decode(b) == b[0]
    ensures |b| == 2 ==> Decode(b) == b[0] + 0x100 * (b[1] as int)
    ensures |b| == 4 ==> Decode(b) == b[0] + 0x100 * (b[1] as int) + 0x1_0000 * (b[2] as int) + 0x100_0000 * (b[3] as int)
  {
    PowerValues();
    if |b| == 2 {
      DecodeAppend(b[..1], b[1..]);
      assert b[..1] + b[1..] == b;
    } else if |b| == 4 {
      DecodeAppend(b[..2], b[2..]);
      assert b[..2] + b[2..] == b;
      DecodeShort(b[..2]);
      DecodeShort(b[2..]);
    }
  }

  lemma DecodeLong(b: seq<byte>)
    requires |b| == 8
    ensures Decode(b) ==
      b[0] + 0x100 * (b[1] as int) + 0x1_0000 * (b[2] as int) + 0x100_0000 * (b[3] as int) + 0x1_0000_0000 * (b[4] as int) +
      0x100_0000_0000 * (b[5] as int) + 0x1_0000_0000_0000 * (b[6] as int) + 0x100_0000_0000_0000 * (b[7] as int)
  {
    DecodeAppend(b[..4], b[4..]);
    assert b[..4] + b[4..] == b;
    DecodeShort(b[..4]);
    DecodeShort(b[4..]);
    PowerValues();
  }

  /** Where the length is, and how its bytes are read. */
  lemma LenBytes(m: seq<byte>, s: nat)
    requires InMemory(m, s)
    ensures m[s - 1] % 8 == 0 ==> SdsLen(m, s) == m[s - 1] / 8
    ensures m[s - 1] % 8 == 1 ==> SdsLen(m, s) == m[s - 3]
    ensures m[s - 1] % 8 == 2 ==> SdsLen(m, s) == m[s - 5] + 0x100 * (m[s - 4] as int)
    ensures m[s - 1] % 8 == 3 ==>
      SdsLen(m, s) == m[s - 9] + 0x100 * (m[s - 8] as int) + 0x1_0000 * (m[s - 7] as int) + 0x100_0000 * (m[s - 6] as int)
    ensures m[s - 1] % 8 == 4 ==>
      SdsLen(m, s) == m[s - 17] + 0x100 * (m[s - 16] as int) + 0x1_0000 * (m[s - 15] as int) + 0x100_0000 * (m[s - 14] as int) + 0x1_0000_0000 * (m[s - 13] as int) +
      0x100_0000_0000 * (m[s - 12] as int) + 0x1_0000_0000_0000 * (m[s - 11] as int) + 0x100_0000_0000_0000 * (m[s - 10] as int)
    ensures m[s - 1] % 8 > 4 ==> SdsLen(m, s) == 0
  {
    match m[s - 1] % 8 {
      case 1 => DecodeShort(m[s - 3..s - 2]);
      case 2 => DecodeShort(m[s - 5..s - 3]);
      case 3 => DecodeShort(m[s - 9..s - 5]);
      case 4 => DecodeLong(m[s - 17..s - 9]);
      case _ =>
    }
  }

  /** Where the allocation is, and how its bytes are read. */
  lemma AllocBytes(m: seq<byte>, s: nat)
    requires InMemory(m, s)
    ensures m[s - 1] % 8 == 0 ==> SdsAlloc(m, s) == m[s - 1] / 8
    ensures m[s - 1] % 8 == 1 ==> SdsAlloc(m, s) == m[s - 2]
    ensures m[s - 1] % 8 == 2 ==> SdsAlloc(m, s) == m[s - 3] + 0x100 * (m[s - 2] as int)
    ensures m[s - 1] % 8 == 3 ==>
      SdsAlloc(m, s) == m[s - 5] + 0x100 * (m[s - 4] as int) + 0x1_0000 * (m[s - 3] as int) + 0x100_0000 * (m[s - 2] as int)
    ensures m[s - 1] % 8 == 4 ==>
      SdsAlloc(m, s) == m[s - 9] + 0x100 * (m[s - 8] as int) + 0x1_0000 * (m[s - 7] as int) + 0x100_0000 * (m[s - 6] as int) + 0x1_0000_0000 * (m[s - 5] as int) +
      0x100_0000_0000 * (m[s - 4] as int) + 0x1_0000_0000_0000 * (m[s - 3] as int) + 0x100_0000_0000_0000 * (m[s - 2] as int)
    ensures m[s - 1] % 8 > 4 ==> SdsAlloc(m, s) == 0
  {
    match m[s - 1] % 8 {
      case 1 => DecodeShort(m[s - 2..s - 1]);
      case 2 => DecodeShort(m[s - 3..s - 1]);
      case 3 => DecodeShort(m[s - 5..s - 1]);
      case 4 => DecodeLong(m[s - 9..s - 1]);
      case _ =>
    }
  }

  /** sdsavail in terms of the two numbers above: a difference that would be negative wraps at 2^32 or 2^64. */
  lemma AvailValue(m: seq<byte>, s: nat)
    requires InMemory(m, s)
    ensures m[s - 1] % 8 == 0 || m[s - 1] % 8 > 4 ==> SdsAvail(m, s) == 0
    ensures SdsLen(m, s) <= SdsAlloc(m, s) ==> SdsAvail(m, s) == SdsAlloc(m, s) - SdsLen(m, s)
    ensures SdsLen(m, s) > SdsAlloc(m, s) ==>
      SdsAvail(m, s) == SdsAlloc(m, s) - SdsLen(m, s) + (if m[s - 1] % 8 == 3 then 0x1_0000_0000 else 0x1_0000_0000_0000_0000)
  {
  }

  /** The number of lengths a header type has room for, by its tag. */
  function Room(tag: nat): nat {
    match tag
    case 0 => 0x20
    case 1 => 0x100
    case 2 => 0x1_0000
    case 3 => 0x1_0000_0000
    case 4 => 0x1_0000_0000_0000_0000
    case _ => 1
  }

  lemma RoomIsModulus(tag: nat)
    requires tag < 8
    ensures Modulus(tag) == Room(tag)
  {
    PowerValues();
    assert Pow256(0) == 1;
  }

  /**
   * What each write leaves to be read: the number, cut to the type's room, in its field; the other
   * field, the tag and, for all types but 5, the whole flags byte as they were.
   */
  lemma WritesInNumbers(m: seq<byte>, s: nat, op: Op)
    requires InMemory(m, s)
    ensures InMemory(Written(m, s, op), s)
    ensures
      var tag, m' := m[s - 1] % 8, Written(m, s, op);
      && m'[s - 1] % 8 == tag && (tag != 0 ==> m'[s - 1] == m[s - 1])
      && SdsLen(m', s) == (match op
                           case SetLen(n) => n % Room(tag)
                           case IncLen(n) => (SdsLen(m, s) + n) % Room(tag)
                           case SetAlloc(_) => SdsLen(m, s))
      && SdsAlloc(m', s) ==
         if tag == 0 then SdsLen(m', s) else if op.SetAlloc? then op.n % Room(tag) else SdsAlloc(m, s)
  {
    RoomIsModulus(m[s - 1] % 8);
    OpRefines(m, s, op);
  }

  /** The byte of a short header after sdssetlen. */
  lemma SetLenShort(m: seq<byte>, s: nat, n: size_t)
    requires InMemory(m, s) && m[s - 1] % 8 <= 1
    ensures var m' := Written(m, s, SetLen(n));
      if m[s - 1] % 8 == 1 then m'[s - 3] == n % 0x100 else m'[s - 1] == n % 0x20 * 8
  {
    var m' := Written(m, s, SetLen(n));
    WritesInNumbers(m, s, SetLen(n));
    LenBytes(m', s);
  }
}
