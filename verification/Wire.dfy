/** The Protocol Buffers wire format: base 128 varints, records, and the laws of
    parsers that apply one record at a time to a message. */
module Wire {
  import opened Common

  type byte = x: int | 0 <= x < 256

  type int32 = x: int | -0x8000_0000 <= x < 0x8000_0000
  type int64 = x: int | -0x8000_0000_0000_0000 <= x < 0x8000_0000_0000_0000

  const TWO_31: nat := 0x8000_0000
  const TWO_32: nat := 0x1_0000_0000
  const TWO_64: nat := 0x1_0000_0000_0000_0000

  // ---------------------------------------------------------------- varints

  function WriteVarint(v: nat): (r: seq<byte>)
    ensures |r| >= 1
  {
    if v < 128 then [v] else [v % 128 + 128] + WriteVarint(v / 128)
  }

  /** The size of a varint by the magnitude of the number, without writing it. */
  function VarintSize(v: nat): nat {
    if v < 0x80 then 1
    else if v < 0x4000 then 2
    else if v < 0x20_0000 then 3
    else if v < 0x1000_0000 then 4
    else if v < 0x8_0000_0000 then 5
    else if v < 0x400_0000_0000 then 6
    else if v < 0x2_0000_0000_0000 then 7
    else if v < 0x100_0000_0000_0000 then 8
    else if v < 0x8000_0000_0000_0000 then 9
    else 10
  }

  lemma {:induction false} VarintSizeIsExact(v: nat)
    requires v < TWO_64
    ensures |WriteVarint(v)| == VarintSize(v)
  {
    if v < 128 {
    } else {
      VarintSizeIsExact(v / 128);
    }
  }

  datatype Read = Fail | Got(value: nat, used: nat)

  /** Reads a varint of at most `limit` bytes. */
  function ReadVarint(d: seq<byte>, limit: nat): (r: Read)
    ensures r.Got? ==> 1 <= r.used <= |d| && r.used <= limit
  {
    if d == [] || limit == 0 then Fail
    else if d[0] < 128 then Got(d[0], 1)
    else
      match ReadVarint(d[1..], limit - 1)
      case Fail => Fail
      case Got(v, k) => Got(d[0] - 128 + 128 * v, k + 1)
  }

  lemma {:induction false} ReadUndoesWrite(v: nat, limit: nat, rest: seq<byte>)
    requires |WriteVarint(v)| <= limit
    ensures ReadVarint(WriteVarint(v) + rest, limit) == Got(v, |WriteVarint(v)|)
  {
    var d := WriteVarint(v) + rest;
    if v < 128 {
    } else {
      ReadUndoesWrite(v / 128, limit - 1, rest);
      assert d[1..] == WriteVarint(v / 128) + rest;
    }
  }

  lemma {:induction false} ReadVarintOfPrefix(x: seq<byte>, y: seq<byte>, limit: nat)
    requires ReadVarint(x, limit).Got?
    ensures ReadVarint(x + y, limit) == ReadVarint(x, limit)
  {
    if x[0] >= 128 {
      ReadVarintOfPrefix(x[1..], y, limit - 1);
      assert (x + y)[1..] == x[1..] + y;
    }
  }

  function Pow128(n: nat): (r: int)
    ensures r > 0
  {
    if n == 0 then 1 else 128 * Pow128(n - 1)
  }

  /** Base 128, least significant group first; every byte but the last has its top bit
      set. */
  lemma {:induction false} VarintBytes(v: nat, i: nat)
    requires i < |WriteVarint(v)|
    ensures WriteVarint(v)[i] == (v / Pow128(i)) % 128 + if i + 1 < |WriteVarint(v)| then 128 else 0
    decreases i
  {
    if i > 0 {
      VarintBytes(v / 128, i - 1);
      DivDiv(v, 128, Pow128(i - 1));
    }
  }

  /** The first byte without its top bit is byte `k`, counting from one. */
  predicate VarintAt(d: seq<byte>, k: nat) {
    1 <= k <= |d| && d[k - 1] < 128 && forall i | 0 <= i < k - 1 :: d[i] >= 128
  }

  /** The low seven bits of each byte, least significant group first. */
  function VarintValue(d: seq<byte>): nat {
    if d == [] then 0 else d[0] % 128 + 128 * VarintValue(d[1..])
  }

  /** What is read of any bytes, needless continuation bytes included. */
  lemma {:induction false} ReadVarintIs(d: seq<byte>, limit: nat)
    ensures forall k: nat | VarintAt(d, k) ::
              ReadVarint(d, limit) == if k <= limit then Got(VarintValue(d[..k]), k) else Fail
    ensures (forall k: nat :: !VarintAt(d, k)) ==> ReadVarint(d, limit) == Fail
    decreases |d|
  {
    if d != [] && d[0] >= 128 {
      if limit > 0 {
        ReadVarintIs(d[1..], limit - 1);
      }
      forall k: nat | VarintAt(d, k)
        ensures k > 1 && VarintAt(d[1..], k - 1) && VarintValue(d[..k]) == d[0] - 128 + 128 * VarintValue(d[1..][..k - 1])
      {
        assert d[..k][1..] == d[1..][..k - 1];
      }
      forall k: nat | VarintAt(d[1..], k) ensures VarintAt(d, k + 1) {
      }
    } else if d != [] {
      assert VarintAt(d, 1) && d[..1] == [d[0]];
      assert VarintValue([d[0]]) == d[0] by {
        assert [d[0]][1..] == [];
      }
    }
  }

  /** A tag is a varint of at most five bytes, kept modulo 2^32. */
  function ReadTag(d: seq<byte>): (r: Read)
    ensures r.Got? ==> 1 <= r.used <= |d| && r.value < TWO_32
  {
    match ReadVarint(d, 5)
    case Fail => Fail
    case Got(v, k) => Got(v % TWO_32, k)
  }

  /** A scalar is a varint of at most ten bytes, kept modulo 2^64. */
  function ReadScalar(d: seq<byte>): (r: Read)
    ensures r.Got? ==> 1 <= r.used <= |d| && r.value < TWO_64
  {
    match ReadVarint(d, 10)
    case Fail => Fail
    case Got(v, k) => Got(v % TWO_64, k)
  }

  /** A length prefix together with the bytes it announces; `value` is the length of
      the payload and `used` covers prefix and payload. */
  function ReadLength(d: seq<byte>): (r: Read)
    ensures r.Got? ==> 1 <= r.used <= |d| && r.value < r.used && r.value < TWO_31
  {
    match ReadVarint(d, 5)
    case Fail => Fail
    case Got(v, k) => if v < TWO_31 && v <= |d| - k then Got(v, k + v) else Fail
  }

  function Payload(d: seq<byte>): seq<byte>
    requires ReadLength(d).Got?
  {
    var r := ReadLength(d);
    d[r.used - r.value..r.used]
  }

  /** The three readers on any bytes: how long a varint may be, to what width it is cut,
      and which lengths are refused. */
  lemma ReadersAre(d: seq<byte>, k: nat)
    requires VarintAt(d, k)
    ensures var v := VarintValue(d[..k]);
            && ReadTag(d) == (if k <= 5 then Got(v % 0x1_0000_0000, k) else Fail)
            && ReadScalar(d) == (if k <= 10 then Got(v % 0x1_0000_0000_0000_0000, k) else Fail)
            && ReadLength(d) == (if k <= 5 && v <= 0x7fff_ffff && k + v <= |d| then Got(v, k + v) else Fail)
            && (ReadLength(d).Got? ==> Payload(d) == d[k..k + v])
  {
    ReadVarintIs(d, 5);
    ReadVarintIs(d, 10);
    assert TWO_32 == 0x1_0000_0000 && TWO_64 == 0x1_0000_0000_0000_0000 && TWO_31 == 0x8000_0000;
  }

  // Two's complement: how the runtime widens a field to 64 bits and narrows it back.

  function ToUnsigned(v: int64): (u: nat)
    ensures u < TWO_64
  {
    if v < 0 then v + TWO_64 else v
  }

  function ToInt32(u: nat): int32 {
    var w := u % TWO_32;
    if w < TWO_31 then w else w - TWO_32
  }

  function ToInt64(u: nat): int64 {
    var w := u % TWO_64;
    if w < TWO_64 / 2 then w else w - TWO_64
  }

  lemma NarrowUndoesWiden(a: int32, b: int64)
    ensures ToInt32(ToUnsigned(a)) == a
    ensures ToInt64(ToUnsigned(b)) == b
    ensures a != 0 ==> ToUnsigned(a) != 0
  {
    if a < 0 {
      assert (a + TWO_64) % TWO_32 == a + TWO_32;
    }
  }

  /** Widening and narrowing change a number by a multiple of the width only. */
  lemma WidthsAreModular(v: int64, u: nat)
    ensures (ToUnsigned(v) - v) % 0x1_0000_0000_0000_0000 == 0
    ensures (u - ToInt32(u)) % 0x1_0000_0000 == 0
    ensures (u - ToInt64(u)) % 0x1_0000_0000_0000_0000 == 0
  {
    assert u == TWO_32 * (u / TWO_32) + u % TWO_32;
    assert u == TWO_64 * (u / TWO_64) + u % TWO_64;
    MultipleIsZero(u - ToInt32(u), TWO_32, u / TWO_32 + if ToInt32(u) < 0 then 1 else 0);
    MultipleIsZero(u - ToInt64(u), TWO_64, u / TWO_64 + if ToInt64(u) < 0 then 1 else 0);
    MultipleIsZero(ToUnsigned(v) - v, TWO_64, if v < 0 then 1 else 0);
  }

  lemma MultipleIsZero(x: int, d: int, q: int)
    requires d > 0 && x == d * q
    ensures x % d == 0
  {
    DivIs(x, d, q, 0);
  }

  // ------------------------------------------------------------------ UTF-8

  predicate Tail(b: byte) { 0x80 <= b < 0xC0 }

  /** Well-formed UTF-8, by Table 3-7 of the Unicode Standard. */
  predicate Utf8(s: seq<byte>) {
    if s == [] then true
    else if s[0] < 0x80 then Utf8(s[1..])
    else if 0xC2 <= s[0] < 0xE0 then |s| >= 2 && Tail(s[1]) && Utf8(s[2..])
    else if 0xE0 <= s[0] < 0xF0 then
      && |s| >= 3 && Tail(s[1]) && Tail(s[2])
      && (s[0] == 0xE0 ==> s[1] >= 0xA0)
      && (s[0] == 0xED ==> s[1] < 0xA0)
      && Utf8(s[3..])
    else if 0xF0 <= s[0] < 0xF5 then
      && |s| >= 4 && Tail(s[1]) && Tail(s[2]) && Tail(s[3])
      && (s[0] == 0xF0 ==> s[1] >= 0x90)
      && (s[0] == 0xF4 ==> s[1] < 0x90)
      && Utf8(s[4..])
    else false
  }

  /** The length of the first character of a text, by its first byte. */
  function CharLength(b: byte): nat {
    if b < 0x80 then 1 else if b < 0xE0 then 2 else if b < 0xF0 then 3 else 4
  }

  lemma Utf8First(a: seq<byte>, b: seq<byte>)
    requires Utf8(a) && a != []
    ensures CharLength(a[0]) <= |a| && Utf8(a[CharLength(a[0])..])
    ensures Utf8(a + b) <==> Utf8((a + b)[CharLength(a[0])..])
  {
    assert forall i | 0 <= i < |a| :: (a + b)[i] == a[i];
  }

  lemma {:induction false} Utf8Concat(a: seq<byte>, b: seq<byte>)
    requires Utf8(a) && Utf8(b)
    ensures Utf8(a + b)
    decreases |a|
  {
    hide Utf8;
    if a == [] {
      assert a + b == b;
    } else {
      var n := CharLength(a[0]);
      Utf8First(a, b);
      assert (a + b)[n..] == a[n..] + b;
      Utf8Concat(a[n..], b);
    }
  }

  predicate IsScalar(c: nat) { c < 0x11_0000 && !(0xD800 <= c < 0xE000) }

  /** The encoding of a Unicode scalar value, by its bits. */
  function EncodeScalar(c: nat): (s: seq<byte>)
    requires IsScalar(c)
    ensures s != []
  {
    if c < 0x80 then [c]
    else if c < 0x800 then [0xC0 + c / 0x40, 0x80 + c % 0x40]
    else if c < 0x1_0000 then [0xE0 + c / 0x1000, 0x80 + c / 0x40 % 0x40, 0x80 + c % 0x40]
    else [0xF0 + c / 0x4_0000, 0x80 + c / 0x1000 % 0x40, 0x80 + c / 0x40 % 0x40, 0x80 + c % 0x40]
  }

  predicate AllScalars(cs: seq<int>) { forall i | 0 <= i < |cs| :: cs[i] >= 0 && IsScalar(cs[i]) }

  function EncodeScalars(cs: seq<int>): seq<byte>
    requires AllScalars(cs)
  {
    if cs == [] then [] else EncodeScalar(cs[0]) + EncodeScalars(cs[1..])
  }

  lemma OneByte(a: byte, rest: seq<byte>)
    requires a < 0x80
    ensures Utf8([a] + rest) <==> Utf8(rest)
  {
    assert ([a] + rest)[1..] == rest;
  }

  lemma TwoBytes(a: byte, b: byte, rest: seq<byte>)
    requires 0xC2 <= a < 0xE0 && Tail(b)
    ensures Utf8([a, b] + rest) <==> Utf8(rest)
  {
    assert ([a, b] + rest)[2..] == rest;
  }

  lemma ThreeBytes(a: byte, b: byte, c: byte, rest: seq<byte>)
    requires 0xE0 <= a < 0xF0 && Tail(b) && Tail(c) && (a == 0xE0 ==> b >= 0xA0) && (a == 0xED ==> b < 0xA0)
    ensures Utf8([a, b, c] + rest) <==> Utf8(rest)
  {
    assert ([a, b, c] + rest)[3..] == rest;
  }

  lemma FourBytes(a: byte, b: byte, c: byte, d: byte, rest: seq<byte>)
    requires 0xF0 <= a < 0xF5 && Tail(b) && Tail(c) && Tail(d) && (a == 0xF0 ==> b >= 0x90) && (a == 0xF4 ==> b < 0x90)
    ensures Utf8([a, b, c, d] + rest) <==> Utf8(rest)
  {
    assert ([a, b, c, d] + rest)[4..] == rest;
  }

  lemma TwoByteScalar(c: nat)
    requires 0x80 <= c < 0x800
    ensures var s := EncodeScalar(c); |s| == 2 && 0xC2 <= s[0] < 0xE0 && Tail(s[1])
  {
  }

  lemma ThreeByteScalar(c: nat)
    requires 0x800 <= c < 0x1_0000 && IsScalar(c)
    ensures var s := EncodeScalar(c);
            && |s| == 3 && 0xE0 <= s[0] < 0xF0 && Tail(s[1]) && Tail(s[2])
            && (s[0] == 0xE0 ==> s[1] >= 0xA0) && (s[0] == 0xED ==> s[1] < 0xA0)
  {
  }

  lemma FourByteScalar(c: nat)
    requires 0x1_0000 <= c < 0x11_0000
    ensures var s := EncodeScalar(c);
            && |s| == 4 && 0xF0 <= s[0] < 0xF5 && Tail(s[1]) && Tail(s[2]) && Tail(s[3])
            && (s[0] == 0xF0 ==> s[1] >= 0x90) && (s[0] == 0xF4 ==> s[1] < 0x90)
  {
  }

  lemma OneByteScalar(c: nat)
    requires c < 0x80
    ensures EncodeScalar(c) == [c]
  {
  }

  lemma ScalarIsUtf8(c: nat, rest: seq<byte>)
    requires IsScalar(c)
    ensures Utf8(EncodeScalar(c) + rest) <==> Utf8(rest)
  {
    hide Utf8, EncodeScalar, Tail;
    var s := EncodeScalar(c);
    if c < 0x80 {
      OneByteScalar(c);
      OneByte(c, rest);
    } else if c < 0x800 {
      TwoByteScalar(c);
      assert s == [s[0], s[1]];
      TwoBytes(s[0], s[1], rest);
    } else if c < 0x1_0000 {
      ThreeByteScalar(c);
      assert s == [s[0], s[1], s[2]];
      ThreeBytes(s[0], s[1], s[2], rest);
    } else {
      FourByteScalar(c);
      assert s == [s[0], s[1], s[2], s[3]];
      FourBytes(s[0], s[1], s[2], s[3], rest);
    }
  }

  lemma {:induction false} ScalarsAreUtf8(cs: seq<int>)
    requires AllScalars(cs)
    ensures Utf8(EncodeScalars(cs))
  {
    hide Utf8, EncodeScalar;
    if cs == [] {
      EmptyIsUtf8();
    } else {
      ScalarsAreUtf8(cs[1..]);
      ScalarIsUtf8(cs[0], EncodeScalars(cs[1..]));
    }
  }

  lemma EmptyIsUtf8()
    ensures Utf8([])
  {
  }

  lemma ScalarOfOne(a: byte) returns (c: nat)
    requires a < 0x80
    ensures IsScalar(c) && EncodeScalar(c) == [a]
  {
    c := a;
  }

  lemma ScalarOfTwo(a: byte, b: byte) returns (c: nat)
    requires 0xC2 <= a < 0xE0 && Tail(b)
    ensures IsScalar(c) && EncodeScalar(c) == [a, b]
  {
    var h: int, l: int := a - 0xC0, b - 0x80;
    c := h * 0x40 + l;
    DivIs(c, 0x40, h, l);
  }

  lemma ScalarOfThree(a: byte, b: byte, d: byte) returns (c: nat)
    requires 0xE0 <= a < 0xF0 && Tail(b) && Tail(d) && (a == 0xE0 ==> b >= 0xA0) && (a == 0xED ==> b < 0xA0)
    ensures IsScalar(c) && EncodeScalar(c) == [a, b, d]
  {
    var h: int, m: int, l: int := a - 0xE0, b - 0x80, d - 0x80;
    c := h * 0x1000 + m * 0x40 + l;
    DivIs(c, 0x40, h * 0x40 + m, l);
    DivIs(h * 0x40 + m, 0x40, h, m);
    DivIs(c, 0x1000, h, m * 0x40 + l);
  }

  lemma ScalarOfFour(a: byte, b: byte, d: byte, e: byte) returns (c: nat)
    requires 0xF0 <= a < 0xF5 && Tail(b) && Tail(d) && Tail(e)
    requires (a == 0xF0 ==> b >= 0x90) && (a == 0xF4 ==> b < 0x90)
    ensures IsScalar(c) && EncodeScalar(c) == [a, b, d, e]
  {
    var g: int, h: int, m: int, l: int := a - 0xF0, b - 0x80, d - 0x80, e - 0x80;
    c := g * 0x4_0000 + h * 0x1000 + m * 0x40 + l;
    DivIs(c, 0x40, g * 0x1000 + h * 0x40 + m, l);
    DivIs(g * 0x1000 + h * 0x40 + m, 0x40, g * 0x40 + h, m);
    DivIs(c, 0x1000, g * 0x40 + h, m * 0x40 + l);
    DivIs(g * 0x40 + h, 0x40, g, h);
    DivIs(c, 0x4_0000, g, h * 0x1000 + m * 0x40 + l);
  }

  lemma FirstScalar(s: seq<byte>) returns (c: nat, n: nat)
    requires Utf8(s) && s != []
    ensures IsScalar(c) && 1 <= n <= |s| && Utf8(s[n..])
    ensures s == EncodeScalar(c) + s[n..]
  {
    hide EncodeScalar, IsScalar;
    if s[0] < 0x80 {
      c := ScalarOfOne(s[0]);
      n := 1;
    } else if s[0] < 0xE0 {
      c := ScalarOfTwo(s[0], s[1]);
      n := 2;
    } else if s[0] < 0xF0 {
      c := ScalarOfThree(s[0], s[1], s[2]);
      n := 3;
    } else {
      c := ScalarOfFour(s[0], s[1], s[2], s[3]);
      n := 4;
    }
    assert EncodeScalar(c) == s[..n];
  }

  lemma {:induction false} Utf8HasScalars(s: seq<byte>) returns (cs: seq<int>)
    requires Utf8(s)
    ensures AllScalars(cs) && s == EncodeScalars(cs)
    decreases |s|
  {
    hide Utf8, EncodeScalar;
    if s == [] {
      cs := [];
    } else {
      var c, n := FirstScalar(s);
      var more := Utf8HasScalars(s[n..]);
      cs := [c] + more;
      assert cs[1..] == more;
    }
  }

  /** A byte string is UTF-8 exactly when it is the encoding of some Unicode scalar
      values: no surrogate, nothing beyond U+10FFFF, no overlong form. */
  lemma Utf8IffScalars(s: seq<byte>)
    ensures Utf8(s) <==> exists cs: seq<int> :: AllScalars(cs) && s == EncodeScalars(cs)
  {
    hide Utf8, EncodeScalar;
    if Utf8(s) {
      var cs := Utf8HasScalars(s);
    }
    forall cs: seq<int> | AllScalars(cs) && s == EncodeScalars(cs) ensures Utf8(s) {
      ScalarsAreUtf8(cs);
    }
  }

  // ---------------------------------------------------------------- records

  /** One field on the wire. Fixed-width fields and groups occur in no message of
      this system: their extent is found and they are skipped. */
  datatype Record =
    | VarintRecord(field: nat, value: nat)
    | BytesRecord(field: nat, payload: seq<byte>)
    | SkippedRecord(field: nat)

  /** The length of what follows a tag, or None if it is malformed. */
  function PayloadExtent(tag: nat, d: seq<byte>): (r: Option<nat>)
    ensures r.Some? ==> r.value <= |d|
  {
    if tag % 8 == 3 then GroupsExtent([tag / 8], d) else PlainExtent(tag, d)
  }

  /** The length of what remains of the open groups, innermost first, up to and
      including the tag that closes the last of them. */
  function GroupsExtent(open: seq<int>, d: seq<byte>): (r: Option<nat>)
    ensures r.Some? ==> r.value <= |d|
    decreases |d|
  {
    if open == [] then Some(0)
    else
      match GroupMember(open, d)
      case None => None
      case Some((open', n)) =>
        match GroupsExtent(open', d[n..])
        case None => None
        case Some(m) => Some(n + m)
  }

  /** One member of the innermost open group: the groups open after it, and its length. */
  function GroupMember(open: seq<int>, d: seq<byte>): (r: Option<(seq<int>, nat)>)
    requires open != []
    ensures r.Some? ==> 1 <= r.value.1 <= |d|
  {
    match ReadTag(d)
    case Fail => None
    case Got(tag, k) =>
      if tag / 8 == 0 then None
      else if tag % 8 == 4 then (if tag / 8 == open[0] then Some((open[1..], k)) else None)
      else if tag % 8 == 3 then Some(([tag / 8] + open, k))
      else
        match PlainExtent(tag, d[k..])
        case None => None
        case Some(n) => Some((open, k + n))
  }

  function PlainExtent(tag: nat, d: seq<byte>): (r: Option<nat>)
    ensures r.Some? ==> r.value <= |d|
  {
    match tag % 8
    case 0 => if ReadScalar(d).Got? then Some(ReadScalar(d).used) else None
    case 1 => if |d| >= 8 then Some(8) else None
    case 2 => if ReadLength(d).Got? then Some(ReadLength(d).used) else None
    case 5 => if |d| >= 4 then Some(4) else None
    case _ => None
  }

  lemma PlainExtentOfPrefix(tag: nat, x: seq<byte>, y: seq<byte>)
    requires PlainExtent(tag, x).Some?
    ensures PlainExtent(tag, x + y) == PlainExtent(tag, x)
    ensures tag % 8 == 0 ==> ReadScalar(x + y) == ReadScalar(x)
    ensures tag % 8 == 2 ==> ReadLength(x + y) == ReadLength(x) && Payload(x + y) == Payload(x)
  {
    if tag % 8 == 0 {
      ReadVarintOfPrefix(x, y, 10);
    } else if tag % 8 == 2 {
      ReadVarintOfPrefix(x, y, 5);
    }
  }

  lemma GroupMemberOfPrefix(open: seq<int>, x: seq<byte>, y: seq<byte>)
    requires open != [] && GroupMember(open, x).Some?
    ensures GroupMember(open, x + y) == GroupMember(open, x)
  {
    ReadVarintOfPrefix(x, y, 5);
    var tag, k := ReadTag(x).value, ReadTag(x).used;
    assert (x + y)[k..] == x[k..] + y;
    if tag % 8 != 4 && tag % 8 != 3 {
      PlainExtentOfPrefix(tag, x[k..], y);
    }
  }

  lemma {:induction false} GroupsExtentOfPrefix(open: seq<int>, x: seq<byte>, y: seq<byte>)
    requires GroupsExtent(open, x).Some?
    ensures GroupsExtent(open, x + y) == GroupsExtent(open, x)
    decreases |x|
  {
    hide GroupMember;
    if open != [] {
      GroupMemberOfPrefix(open, x, y);
      var (open', n) := GroupMember(open, x).value;
      assert (x + y)[n..] == x[n..] + y;
      GroupsExtentOfPrefix(open', x[n..], y);
    }
  }

  /** A record and the number of bytes it takes. The tag 0, the field number 0 and a
      closing group tag end a message early, which the callers of the parsers report
      as a failure. */
  function ReadRecord(d: seq<byte>): (r: Option<(Record, nat)>)
    ensures r.Some? ==> 1 <= r.value.1 <= |d|
  {
    match ReadTag(d)
    case Fail => None
    case Got(tag, k) =>
      if tag / 8 == 0 then None
      else
        match PayloadExtent(tag, d[k..])
        case None => None
        case Some(n) => Some((RecordOf(tag, d[k..]), k + n))
  }

  function RecordOf(tag: nat, d: seq<byte>): Record
    requires PayloadExtent(tag, d).Some?
  {
    if tag % 8 == 0 then VarintRecord(tag / 8, ReadScalar(d).value)
    else if tag % 8 == 2 then BytesRecord(tag / 8, Payload(d))
    else SkippedRecord(tag / 8)
  }

  lemma PayloadOfPrefix(tag: nat, x: seq<byte>, y: seq<byte>)
    requires PayloadExtent(tag, x).Some?
    ensures PayloadExtent(tag, x + y) == PayloadExtent(tag, x)
    ensures RecordOf(tag, x + y) == RecordOf(tag, x)
  {
    if tag % 8 == 3 {
      GroupsExtentOfPrefix([tag / 8], x, y);
    } else {
      PlainExtentOfPrefix(tag, x, y);
    }
  }

  lemma ReadRecordOfPrefix(x: seq<byte>, y: seq<byte>)
    requires ReadRecord(x).Some?
    ensures ReadRecord(x + y) == ReadRecord(x)
  {
    hide PayloadExtent, RecordOf, ReadVarint;
    ReadVarintOfPrefix(x, y, 5);
    var r := ReadTag(x);
    assert ReadTag(x + y) == r;
    PayloadOfPrefix(r.value, x[r.used..], y);
    assert (x + y)[r.used..] == x[r.used..] + y;
  }

  // ----------------------------------------------- fields of any other sender

  /** A field with any number and any wire type, groups included. */
  datatype Item =
    | Varint(field: nat, value: nat)
    | Fixed64(field: nat, bytes: seq<byte>)
    | Delimited(field: nat, payload: seq<byte>)
    | Group(field: nat, items: seq<Item>)
    | Fixed32(field: nat, bytes: seq<byte>)

  predicate ValidItem(x: Item)
    decreases x
  {
    && 1 <= x.field < 0x2000_0000
    && match x
       case Varint(_, v) => v < 0x1_0000_0000_0000_0000
       case Fixed64(_, b) => |b| == 8
       case Delimited(_, p) => |p| <= 0x7fff_ffff
       case Group(_, xs) => forall i | 0 <= i < |xs| :: ValidItem(xs[i])
       case Fixed32(_, b) => |b| == 4
  }

  function EncodeItem(x: Item): seq<byte>
    decreases x
  {
    match x
    case Varint(f, v) => WriteVarint(8 * f) + WriteVarint(v)
    case Fixed64(f, b) => WriteVarint(8 * f + 1) + b
    case Delimited(f, p) => WriteVarint(8 * f + 2) + (WriteVarint(|p|) + p)
    case Group(f, xs) => WriteVarint(8 * f + 3) + (EncodeItems(xs) + WriteVarint(8 * f + 4))
    case Fixed32(f, b) => WriteVarint(8 * f + 5) + b
  }

  function EncodeItems(xs: seq<Item>): seq<byte>
    decreases xs
  {
    if xs == [] then [] else EncodeItem(xs[0]) + EncodeItems(xs[1..])
  }

  function RecordOfItem(x: Item): Record {
    match x
    case Varint(f, v) => VarintRecord(f, v)
    case Delimited(f, p) => BytesRecord(f, p)
    case _ => SkippedRecord(x.field)
  }

  /** What stands behind the tag of an item. */
  function ItemBody(x: Item): seq<byte> {
    match x
    case Varint(_, v) => WriteVarint(v)
    case Fixed64(_, b) => b
    case Delimited(_, p) => WriteVarint(|p|) + p
    case Group(f, xs) => EncodeItems(xs) + WriteVarint(8 * f + 4)
    case Fixed32(_, b) => b
  }

  function ItemTag(x: Item): nat {
    8 * x.field + match x { case Varint(_, _) => 0 case Fixed64(_, _) => 1 case Delimited(_, _) => 2
                            case Group(_, _) => 3 case Fixed32(_, _) => 5 }
  }

  lemma ItemParts(x: Item)
    ensures EncodeItem(x) == WriteVarint(ItemTag(x)) + ItemBody(x)
    ensures ItemTag(x) / 8 == x.field
    ensures ItemTag(x) % 8 == match x { case Varint(_, _) => 0 case Fixed64(_, _) => 1 case Delimited(_, _) => 2
                                        case Group(_, _) => 3 case Fixed32(_, _) => 5 }
  {
    hide WriteVarint, EncodeItems;
  }

  lemma TagUndoesWrite(tag: nat, rest: seq<byte>)
    requires tag < TWO_32
    ensures var w := WriteVarint(tag);
            ReadTag(w + rest) == Got(tag, |w|) && (w + rest)[|w|..] == rest
  {
    VarintSizeIsExact(tag);
    ReadUndoesWrite(tag, 5, rest);
  }

  lemma PlainItem(x: Item, rest: seq<byte>)
    requires ValidItem(x) && !x.Group?
    ensures PlainExtent(ItemTag(x), ItemBody(x) + rest) == Some(|ItemBody(x)|)
    ensures RecordOf(ItemTag(x), ItemBody(x) + rest) == RecordOfItem(x)
  {
    hide WriteVarint, ReadScalar, ReadLength, Payload;
    ItemParts(x);
    match x
    case Varint(f, v) => ScalarUndoesWrite(v, rest);
    case Delimited(f, p) => LengthUndoesWrite(p, rest);
    case Fixed64(_, _) =>
    case Fixed32(_, _) =>
  }

  function Plus(r: Option<nat>, n: nat): Option<nat> {
    match r case None => None case Some(m) => Some(n + m)
  }

  lemma OneMember(open: seq<int>, d: seq<byte>, open': seq<int>, n: nat)
    requires open != [] && GroupMember(open, d) == Some((open', n))
    ensures GroupsExtent(open, d) == Plus(GroupsExtent(open', d[n..]), n)
  {
    hide GroupMember;
  }

  /** Inside open groups, an item takes its own bytes, nested groups and all. */
  lemma {:induction false} ItemInGroup(x: Item, open: seq<int>, rest: seq<byte>)
    requires ValidItem(x) && open != []
    ensures GroupsExtent(open, EncodeItem(x) + rest) == Plus(GroupsExtent(open, rest), |EncodeItem(x)|)
    decreases x
  {
    hide WriteVarint, GroupsExtent, EncodeItem, EncodeItems, PlainExtent, ReadTag;
    ItemParts(x);
    var w, b := WriteVarint(ItemTag(x)), ItemBody(x);
    var d := EncodeItem(x) + rest;
    Associative(w, b, rest);
    TagUndoesWrite(ItemTag(x), b + rest);
    if x.Group? {
      var f := x.field;
      var end := WriteVarint(8 * f + 4);
      assert GroupMember(open, d) == Some(([f] + open, |w|));
      OneMember(open, d, [f] + open, |w|);
      Associative(EncodeItems(x.items), end, rest);
      ItemsInGroup(x.items, [f] + open, end + rest);
      TagUndoesWrite(8 * f + 4, rest);
      assert ([f] + open)[1..] == open;
      assert GroupMember([f] + open, end + rest) == Some((open, |end|));
      OneMember([f] + open, end + rest, open, |end|);
    } else {
      PlainItem(x, rest);
      assert GroupMember(open, d) == Some((open, |w| + |b|));
      assert d[|w| + |b|..] == rest;
      OneMember(open, d, open, |w| + |b|);
    }
  }

  lemma {:induction false} ItemsInGroup(xs: seq<Item>, open: seq<int>, rest: seq<byte>)
    requires (forall i | 0 <= i < |xs| :: ValidItem(xs[i])) && open != []
    ensures GroupsExtent(open, EncodeItems(xs) + rest) == Plus(GroupsExtent(open, rest), |EncodeItems(xs)|)
    decreases xs
  {
    hide GroupsExtent, EncodeItem, ValidItem;
    if xs == [] {
      assert EncodeItems(xs) + rest == rest;
    } else {
      Associative(EncodeItem(xs[0]), EncodeItems(xs[1..]), rest);
      ItemInGroup(xs[0], open, EncodeItems(xs[1..]) + rest);
      ItemsInGroup(xs[1..], open, rest);
    }
  }

  /** Every field is read whole, whatever its number and wire type, and whatever follows:
      integers and byte strings with their value, all others as something to skip. */
  lemma ItemIsRead(x: Item, rest: seq<byte>)
    requires ValidItem(x)
    ensures ReadRecord(EncodeItem(x) + rest) == Some((RecordOfItem(x), |EncodeItem(x)|))
  {
    hide WriteVarint, GroupsExtent, EncodeItem, EncodeItems, PlainExtent, ReadTag;
    ItemParts(x);
    var w, b := WriteVarint(ItemTag(x)), ItemBody(x);
    Associative(w, b, rest);
    TagUndoesWrite(ItemTag(x), b + rest);
    if x.Group? {
      var end := WriteVarint(8 * x.field + 4);
      Associative(EncodeItems(x.items), end, rest);
      ItemsInGroup(x.items, [x.field], end + rest);
      TagUndoesWrite(8 * x.field + 4, rest);
      assert [x.field][1..] == [];
      assert GroupMember([x.field], end + rest) == Some(([], |end|));
      OneMember([x.field], end + rest, [], |end|);
      NoGroups(rest);
    } else {
      PlainItem(x, rest);
    }
  }

  lemma NoGroups(rest: seq<byte>)
    ensures GroupsExtent([], rest) == Some(0)
  {
  }

  /** Wire types that do not exist, an end of group, and the field number zero fail. */
  lemma BadTagFails(tag: nat, rest: seq<byte>)
    requires tag < TWO_32 && (tag % 8 in {4, 6, 7} || tag / 8 == 0)
    ensures ReadRecord(WriteVarint(tag) + rest).None?
  {
    hide WriteVarint, ReadTag;
    TagUndoesWrite(tag, rest);
  }

  /** A group must be closed by its own number. */
  lemma GroupMustMatch(f: nat, g: nat, rest: seq<byte>)
    requires 1 <= f < 0x2000_0000 && 1 <= g < 0x2000_0000 && f != g
    ensures ReadRecord(WriteVarint(8 * f + 3) + (WriteVarint(8 * g + 4) + rest)).None?
  {
    hide WriteVarint, ReadTag;
    TagUndoesWrite(8 * f + 3, WriteVarint(8 * g + 4) + rest);
    TagUndoesWrite(8 * g + 4, rest);
    assert GroupMember([f], WriteVarint(8 * g + 4) + rest).None?;
  }

  /** What the writer can put on the wire under a tag of one byte. */
  predicate Writable(r: Record) {
    match r
    case VarintRecord(f, v) => 1 <= f < 16 && v < TWO_64
    case BytesRecord(f, _) => 1 <= f < 16
    case SkippedRecord(_) => false
  }

  predicate Encodable(r: Record) {
    Writable(r) && (r.BytesRecord? ==> |r.payload| < TWO_31)
  }

  function EncodeRecord(r: Record): (d: seq<byte>)
    requires Writable(r)
    ensures |d| >= 2
    ensures r.BytesRecord? ==> |d| == 1 + |WriteVarint(|r.payload|)| + |r.payload|
  {
    match r
    case VarintRecord(f, v) => [f * 8] + WriteVarint(v)
    case BytesRecord(f, p) => [f * 8 + 2] + WriteVarint(|p|) + p
  }

  lemma ReadUndoesEncode(r: Record, rest: seq<byte>)
    requires Encodable(r)
    ensures ReadRecord(EncodeRecord(r) + rest) == Some((r, |EncodeRecord(r)|))
  {
    match r
    case VarintRecord(f, v) => ReadVarintRecord(f, v, rest);
    case BytesRecord(f, p) => ReadBytesRecord(f, p, rest);
  }

  lemma ReadVarintRecord(f: nat, v: nat, rest: seq<byte>)
    requires Encodable(VarintRecord(f, v))
    ensures var d := EncodeRecord(VarintRecord(f, v));
            ReadRecord(d + rest) == Some((VarintRecord(f, v), |d|))
  {
    hide WriteVarint, ReadScalar, ReadRecord;
    var w := WriteVarint(v);
    ScalarUndoesWrite(v, rest);
    assert (f * 8) % 8 == 0 && (f * 8) / 8 == f;
    ReadAfterTag(f * 8, w + rest);
    assert [f * 8] + w + rest == [f * 8] + (w + rest);
  }

  lemma ReadBytesRecord(f: nat, p: seq<byte>, rest: seq<byte>)
    requires Encodable(BytesRecord(f, p))
    ensures var d := EncodeRecord(BytesRecord(f, p));
            ReadRecord(d + rest) == Some((BytesRecord(f, p), |d|))
  {
    hide WriteVarint, ReadLength, Payload, ReadRecord;
    var w := WriteVarint(|p|);
    LengthUndoesWrite(p, rest);
    assert (f * 8 + 2) % 8 == 2 && (f * 8 + 2) / 8 == f;
    ReadAfterTag(f * 8 + 2, w + p + rest);
    assert [f * 8 + 2] + w + p + rest == [f * 8 + 2] + (w + p + rest);
  }

  /** A tag of one byte is followed at once by its payload. */
  lemma ReadAfterTag(tag: byte, d: seq<byte>)
    requires 8 <= tag < 128
    requires PayloadExtent(tag, d).Some?
    ensures ReadRecord([tag] + d) == Some((RecordOf(tag, d), 1 + PayloadExtent(tag, d).value))
  {
    hide PayloadExtent, RecordOf, ReadVarint;
    TagOfOneByte(tag, d);
  }

  lemma TagOfOneByte(tag: byte, d: seq<byte>)
    requires tag < 128
    ensures ReadTag([tag] + d) == Got(tag, 1) && ([tag] + d)[1..] == d
  {
    assert ReadVarint([tag] + d, 5) == Got(tag, 1);
  }

  lemma ScalarUndoesWrite(v: nat, rest: seq<byte>)
    requires v < TWO_64
    ensures ReadScalar(WriteVarint(v) + rest) == Got(v, |WriteVarint(v)|)
  {
    VarintSizeIsExact(v);
    ReadUndoesWrite(v, 10, rest);
  }

  lemma LengthUndoesWrite(p: seq<byte>, rest: seq<byte>)
    requires |p| < TWO_31
    ensures var w := WriteVarint(|p|);
            ReadLength(w + p + rest) == Got(|p|, |w| + |p|) && Payload(w + p + rest) == p
  {
    var w := WriteVarint(|p|);
    VarintSizeIsExact(|p|);
    ReadUndoesWrite(|p|, 5, p + rest);
    assert w + p + rest == w + (p + rest);
    assert (w + p + rest)[|w|..|w| + |p|] == p;
  }

  predicate AllWritable(rs: seq<Record>) {
    forall i | 0 <= i < |rs| :: Writable(rs[i])
  }

  predicate AllEncodable(rs: seq<Record>) {
    forall i | 0 <= i < |rs| :: Encodable(rs[i])
  }

  function EncodeAll(rs: seq<Record>): seq<byte>
    requires AllWritable(rs)
  {
    if rs == [] then [] else EncodeRecord(rs[0]) + EncodeAll(rs[1..])
  }

  lemma {:induction false} EncodeAllAppend(a: seq<Record>, b: seq<Record>)
    requires AllWritable(a) && AllWritable(b)
    ensures EncodeAll(a + b) == EncodeAll(a) + EncodeAll(b)
  {
    if a == [] {
      assert a + b == b;
    } else {
      assert (a + b)[1..] == a[1..] + b;
      EncodeAllAppend(a[1..], b);
    }
  }

  lemma {:induction false} SmallEnoughToRead(rs: seq<Record>)
    requires AllWritable(rs)
    requires |EncodeAll(rs)| < TWO_31
    ensures AllEncodable(rs)
  {
    if rs != [] {
      SmallEnoughToRead(rs[1..]);
      assert forall i | 0 < i < |rs| :: rs[i] == rs[1..][i - 1];
    }
  }

  // Fields as the writer emits them: a scalar or string with the default value is
  // left out, a repeated field is written element by element.

  function StringField(f: nat, s: seq<byte>): (rs: seq<Record>)
    requires 1 <= f < 16
    ensures AllWritable(rs)
  {
    if s == [] then [] else [BytesRecord(f, s)]
  }

  function IntField(f: nat, v: int64): (rs: seq<Record>)
    requires 1 <= f < 16
    ensures AllWritable(rs)
  {
    if v == 0 then [] else [VarintRecord(f, ToUnsigned(v))]
  }

  function RepeatedField(f: nat, ss: seq<seq<byte>>): (rs: seq<Record>)
    requires 1 <= f < 16
    ensures AllWritable(rs)
  {
    if ss == [] then [] else [BytesRecord(f, ss[0])] + RepeatedField(f, ss[1..])
  }

  method WriteStringField(f: nat, s: seq<byte>, target: seq<byte>) returns (written: seq<byte>)
    requires 1 <= f < 16
    ensures written == target + EncodeAll(StringField(f, s))
  {
    written := target;
    if |s| > 0 {
      written := written + EncodeRecord(BytesRecord(f, s));
      EncodeSingle(BytesRecord(f, s));
    }
  }

  method WriteIntField(f: nat, v: int64, target: seq<byte>) returns (written: seq<byte>)
    requires 1 <= f < 16
    ensures written == target + EncodeAll(IntField(f, v))
  {
    written := target;
    if v != 0 {
      written := written + EncodeRecord(VarintRecord(f, ToUnsigned(v)));
      EncodeSingle(VarintRecord(f, ToUnsigned(v)));
    }
  }

  /** Writing some records and then the rest is writing them all. */
  lemma WriteOn(target: seq<byte>, a: seq<Record>, b: seq<Record>)
    requires AllWritable(a) && AllWritable(b)
    ensures target + EncodeAll(a) + EncodeAll(b) == target + EncodeAll(a + b)
  {
    EncodeAllAppend(a, b);
  }

  /** Writing the next element of a repeated field. */
  lemma WriteNext(target: seq<byte>, f: nat, ss: seq<seq<byte>>, i: nat)
    requires 1 <= f < 16 && i < |ss|
    ensures target + EncodeAll(RepeatedField(f, ss[i..])) ==
            target + EncodeRecord(BytesRecord(f, ss[i])) + EncodeAll(RepeatedField(f, ss[i + 1..]))
  {
    assert ss[i..][1..] == ss[i + 1..];
    WriteOn(target, [BytesRecord(f, ss[i])], RepeatedField(f, ss[i + 1..]));
    EncodeSingle(BytesRecord(f, ss[i]));
  }

  // The bytes of a field, behind a tag of one byte.

  function StringPart(tag: byte, s: seq<byte>): seq<byte> {
    if s == [] then [] else [tag] + (WriteVarint(|s|) + s)
  }

  function NumberPart(tag: byte, v: int64): seq<byte> {
    if v == 0 then [] else [tag] + WriteVarint(if v < 0 then v + 0x1_0000_0000_0000_0000 else v)
  }

  function RepeatedPart(tag: byte, ss: seq<seq<byte>>): seq<byte> {
    if ss == [] then [] else [tag] + (WriteVarint(|ss[0]|) + ss[0]) + RepeatedPart(tag, ss[1..])
  }

  lemma PartsAre(f: nat, s: seq<byte>, v: int64)
    requires 1 <= f < 16
    ensures EncodeAll(StringField(f, s)) == StringPart(8 * f + 2, s)
    ensures EncodeAll(IntField(f, v)) == NumberPart(8 * f, v)
  {
    hide WriteVarint;
    if s != [] {
      EncodeSingle(BytesRecord(f, s));
      Associative([8 * f + 2], WriteVarint(|s|), s);
    }
    if v != 0 {
      EncodeSingle(VarintRecord(f, ToUnsigned(v)));
    }
  }

  lemma BytesRecordIs(f: nat, p: seq<byte>)
    requires 1 <= f < 16
    ensures EncodeRecord(BytesRecord(f, p)) == [8 * f + 2] + (WriteVarint(|p|) + p)
  {
    hide WriteVarint;
    Associative([8 * f + 2], WriteVarint(|p|), p);
  }

  lemma {:induction false} RepeatedPartIs(f: nat, ss: seq<seq<byte>>)
    requires 1 <= f < 16
    ensures EncodeAll(RepeatedField(f, ss)) == RepeatedPart(8 * f + 2, ss)
  {
    hide WriteVarint, EncodeAll, EncodeRecord;
    if ss == [] {
      NothingEncoded();
    } else {
      RepeatedPartIs(f, ss[1..]);
      EncodeAllAppend([BytesRecord(f, ss[0])], RepeatedField(f, ss[1..]));
      EncodeSingle(BytesRecord(f, ss[0]));
      BytesRecordIs(f, ss[0]);
    }
  }

  lemma NothingEncoded()
    ensures EncodeAll([]) == []
  {
  }

  // ------------------------------------------------------------------ sizes

  /** The size of a length-delimited value; the runtime casts the length to 32 bits. */
  function LengthDelimitedSize(n: nat): nat {
    n + VarintSize(n % TWO_32)
  }

  /** A computed size agrees with the bytes written when both are equal or both are
      beyond the 2 GiB a message may have. */
  predicate Agrees(size: nat, written: nat) {
    size == written || (size >= TWO_31 && written >= TWO_31)
  }

  lemma DelimitedSizeAgrees(f: nat, p: seq<byte>, n: nat)
    requires 1 <= f < 16 && Agrees(n, |p|)
    ensures Agrees(1 + LengthDelimitedSize(n), |EncodeRecord(BytesRecord(f, p))|)
  {
    if n < TWO_31 {
      VarintSizeIsExact(n);
    }
  }

  lemma {:induction false} EncodeSingle(r: Record)
    requires Writable(r)
    ensures AllWritable([r]) && EncodeAll([r]) == EncodeRecord(r)
  {
    assert [r][1..] == [];
  }

  function StringFieldSize(s: seq<byte>): nat {
    if |s| > 0 then 1 + LengthDelimitedSize(|s|) else 0
  }

  function IntFieldSize(v: int64): nat {
    if v != 0 then 1 + VarintSize(ToUnsigned(v)) else 0
  }

  lemma StringFieldSizeAgrees(f: nat, s: seq<byte>)
    requires 1 <= f < 16
    ensures Agrees(StringFieldSize(s), |EncodeAll(StringField(f, s))|)
  {
    if s != [] {
      DelimitedSizeAgrees(f, s, |s|);
      EncodeSingle(BytesRecord(f, s));
    }
  }

  lemma IntFieldSizeExact(f: nat, v: int64)
    requires 1 <= f < 16
    ensures IntFieldSize(v) == |EncodeAll(IntField(f, v))|
  {
    if v != 0 {
      VarintSizeIsExact(ToUnsigned(v));
      EncodeSingle(VarintRecord(f, ToUnsigned(v)));
    }
  }

  // ---------------------------------------------------------------- parsers

  /** Applies records to a message in order; `apply` yields None for a value the
      message rejects. */
  function Fold<M>(apply: (M, Record) -> Option<M>, m: M, rs: seq<Record>): Option<M> {
    if rs == [] then Some(m)
    else
      match apply(m, rs[0])
      case None => None
      case Some(m') => Fold(apply, m', rs[1..])
  }

  /** Reads records until the input is used up, applying each to the message. */
  function Parse<M>(apply: (M, Record) -> Option<M>, m: M, d: seq<byte>): Option<M>
    decreases |d|
  {
    if d == [] then Some(m)
    else
      match ReadRecord(d)
      case None => None
      case Some((r, k)) =>
        match apply(m, r)
        case None => None
        case Some(m') => Parse(apply, m', d[k..])
  }

  /** The records on the wire, if the input consists of whole records. */
  function WireRecords(d: seq<byte>): Option<seq<Record>>
    decreases |d|
  {
    if d == [] then Some([])
    else
      match ReadRecord(d)
      case None => None
      case Some((r, k)) =>
        match WireRecords(d[k..])
        case None => None
        case Some(rs) => Some([r] + rs)
  }

  /** Reading and applying by turns is reading everything first. */
  lemma {:induction false} ParseIsFold<M>(apply: (M, Record) -> Option<M>, m: M, d: seq<byte>)
    ensures Parse(apply, m, d) ==
            match WireRecords(d) { case None => None case Some(rs) => Fold(apply, m, rs) }
    decreases |d|
  {
    if d != [] && ReadRecord(d).Some? {
      var (r, k) := ReadRecord(d).value;
      match apply(m, r)
      case None =>
      case Some(m') =>
        ParseIsFold(apply, m', d[k..]);
        if WireRecords(d[k..]).Some? {
          FoldOptional(apply, m, r, WireRecords(d[k..]).value);
        }
    }
  }

  // What records say of a field: the value of its last record, and all its payloads.

  function LastVarint(rs: seq<Record>, f: nat): Option<nat> {
    if rs == [] then None
    else
      var r := rs[|rs| - 1];
      if r.VarintRecord? && r.field == f then Some(r.value) else LastVarint(rs[..|rs| - 1], f)
  }

  function LastBytes(rs: seq<Record>, f: nat): Option<seq<byte>> {
    if rs == [] then None
    else
      var r := rs[|rs| - 1];
      if r.BytesRecord? && r.field == f then Some(r.payload) else LastBytes(rs[..|rs| - 1], f)
  }

  function AllBytes(rs: seq<Record>, f: nat): seq<seq<byte>> {
    if rs == [] then []
    else
      var r := rs[|rs| - 1];
      AllBytes(rs[..|rs| - 1], f) + if r.BytesRecord? && r.field == f then [r.payload] else []
  }

  function StringOr(rs: seq<Record>, f: nat, before: seq<byte>): seq<byte> {
    match LastBytes(rs, f) case None => before case Some(s) => s
  }

  function Int32Or(rs: seq<Record>, f: nat, before: int32): int32 {
    match LastVarint(rs, f) case None => before case Some(v) => ToInt32(v)
  }

  function Int64Or(rs: seq<Record>, f: nat, before: int64): int64 {
    match LastVarint(rs, f) case None => before case Some(v) => ToInt64(v)
  }

  /** Every string of the given fields is UTF-8. */
  predicate Utf8Fields(rs: seq<Record>, fields: set<int>) {
    forall i | 0 <= i < |rs| :: rs[i].BytesRecord? && rs[i].field in fields ==> Utf8(rs[i].payload)
  }

  lemma FoldLast<M>(apply: (M, Record) -> Option<M>, m: M, rs: seq<Record>)
    requires rs != []
    ensures Fold(apply, m, rs) ==
            match Fold(apply, m, rs[..|rs| - 1]) { case None => None case Some(m') => apply(m', rs[|rs| - 1]) }
  {
    var n := |rs| - 1;
    assert rs == rs[..n] + [rs[n]];
    FoldAppend(apply, m, rs[..n], [rs[n]]);
    if Fold(apply, m, rs[..n]).Some? {
      FoldOptional(apply, Fold(apply, m, rs[..n]).value, rs[n], []);
      assert [rs[n]] + [] == [rs[n]];
    }
  }

  lemma Utf8FieldsLast(rs: seq<Record>, fields: set<int>)
    requires rs != []
    ensures var r := rs[|rs| - 1];
            Utf8Fields(rs, fields) <==>
            Utf8Fields(rs[..|rs| - 1], fields) && (r.BytesRecord? && r.field in fields ==> Utf8(r.payload))
  {
    hide Utf8;
    var front := rs[..|rs| - 1];
    assert forall i | 0 <= i < |front| :: front[i] == rs[i];
  }

  lemma {:induction false} FoldAppend<M>(apply: (M, Record) -> Option<M>, m: M, a: seq<Record>, b: seq<Record>)
    ensures Fold(apply, m, a + b) ==
            match Fold(apply, m, a) { case None => None case Some(m') => Fold(apply, m', b) }
  {
    if a == [] {
      assert a + b == b;
    } else {
      assert (a + b)[1..] == a[1..] + b;
      match apply(m, a[0])
      case None =>
      case Some(m') => FoldAppend(apply, m', a[1..], b);
    }
  }

  /** The outcome of parsing `rest` after `m`, if there is one. */
  function Then<M>(apply: (M, Record) -> Option<M>, m: Option<M>, rest: seq<byte>): Option<M> {
    match m case None => None case Some(m') => Parse(apply, m', rest)
  }

  lemma ParseStep<M>(apply: (M, Record) -> Option<M>, m: M, r: Record, rest: seq<byte>)
    requires Encodable(r)
    ensures Parse(apply, m, EncodeRecord(r) + rest) == Then(apply, apply(m, r), rest)
  {
    var d := EncodeRecord(r) + rest;
    ReadUndoesEncode(r, rest);
    assert d[|EncodeRecord(r)|..] == rest;
  }

  /** Encoded records parse to the fold of those records, whatever follows them. */
  lemma {:induction false} ParseEncoded<M>(apply: (M, Record) -> Option<M>, m: M, rs: seq<Record>, rest: seq<byte>)
    requires AllEncodable(rs)
    ensures Parse(apply, m, EncodeAll(rs) + rest) == Then(apply, Fold(apply, m, rs), rest)
  {
    if rs == [] {
      assert EncodeAll(rs) + rest == rest;
    } else {
      var tail := EncodeAll(rs[1..]) + rest;
      EncodeAllHead(rs, rest);
      ParseStep(apply, m, rs[0], tail);
      match apply(m, rs[0])
      case None =>
      case Some(m') => ParseEncoded(apply, m', rs[1..], rest);
    }
  }

  lemma ParseItem<M>(apply: (M, Record) -> Option<M>, m: M, x: Item, rest: seq<byte>)
    requires ValidItem(x)
    ensures Parse(apply, m, EncodeItem(x) + rest) == Then(apply, apply(m, RecordOfItem(x)), rest)
  {
    hide EncodeItem, ValidItem, ReadRecord, RecordOfItem;
    ItemIsRead(x, rest);
    var d := EncodeItem(x) + rest;
    assert d[|EncodeItem(x)|..] == rest;
  }

  /** Fields that leave a message as it is can stand anywhere. */
  lemma {:induction false} SkipItems<M>(apply: (M, Record) -> Option<M>, m: M, xs: seq<Item>, rest: seq<byte>)
    requires forall x <- xs :: ValidItem(x) && apply(m, RecordOfItem(x)) == Some(m)
    ensures Parse(apply, m, EncodeItems(xs) + rest) == Parse(apply, m, rest)
    decreases |xs|
  {
    hide EncodeItem, ValidItem, RecordOfItem, Parse;
    if xs == [] {
      assert EncodeItems(xs) + rest == rest;
    } else {
      Associative(EncodeItem(xs[0]), EncodeItems(xs[1..]), rest);
      assert xs[0] in xs;
      ParseItem(apply, m, xs[0], EncodeItems(xs[1..]) + rest);
      SkipItems(apply, m, xs[1..], rest);
    }
  }

  lemma EncodeAllHead(rs: seq<Record>, rest: seq<byte>)
    requires rs != [] && AllWritable(rs)
    ensures AllWritable(rs[1..])
    ensures EncodeAll(rs) + rest == EncodeRecord(rs[0]) + (EncodeAll(rs[1..]) + rest)
  {
  }

  /** Parsing a concatenation continues where parsing the first part ended, for every
      well-formed first part and not only for what the writer produces. */
  lemma {:induction false} ParseConcat<M>(apply: (M, Record) -> Option<M>, m: M, x: seq<byte>, y: seq<byte>)
    requires Parse(apply, m, x).Some?
    ensures Parse(apply, m, x + y) == Parse(apply, Parse(apply, m, x).value, y)
    decreases |x|
  {
    if x == [] {
      assert x + y == y;
    } else {
      ReadRecordOfPrefix(x, y);
      var (r, k) := ReadRecord(x).value;
      assert (x + y)[k..] == x[k..] + y;
      ParseConcat(apply, apply(m, r).value, x[k..], y);
    }
  }

  /** One iteration of a parser's loop, at a position of the input: `tag` is read from
      `k` bytes there, and `rest` follows it. */
  lemma ParseAt<M>(apply: (M, Record) -> Option<M>, m: M, data: seq<byte>, ptr: nat,
                   tag: nat, k: nat, rest: seq<byte>, n: nat, m': M)
    requires ptr < |data| && ReadTag(data[ptr..]) == Got(tag, k)
    requires rest == data[ptr + k..] && tag / 8 != 0
    requires PayloadExtent(tag, rest) == Some(n)
    requires apply(m, RecordOf(tag, rest)) == Some(m')
    ensures ptr + k + n <= |data|
    ensures Parse(apply, m, data[ptr..]) == Parse(apply, m', data[ptr + k + n..])
  {
    DropDrop(data, ptr, k);
    DropDrop(data, ptr, k + n);
    ParseFirst(apply, m, data[ptr..], tag, k, rest, n, m');
  }

  lemma DropDrop(s: seq<byte>, i: nat, j: nat)
    requires i + j <= |s|
    ensures s[i..][j..] == s[i + j..]
  {
  }

  lemma ParseFirst<M>(apply: (M, Record) -> Option<M>, m: M, d: seq<byte>,
                      tag: nat, k: nat, rest: seq<byte>, n: nat, m': M)
    requires ReadTag(d) == Got(tag, k) && rest == d[k..] && tag / 8 != 0
    requires PayloadExtent(tag, rest) == Some(n)
    requires apply(m, RecordOf(tag, rest)) == Some(m')
    ensures Parse(apply, m, d) == Parse(apply, m', d[k + n..])
  {
    hide ReadTag, PayloadExtent, RecordOf;
    assert ReadRecord(d) == Some((RecordOf(tag, rest), k + n));
  }

  /** A tag below 128 is read from one byte. */
  lemma ExpectedTag(data: seq<byte>, ptr: nat)
    requires ptr < |data| && data[ptr] < 128
    ensures ReadTag(data[ptr..]) == Got(data[ptr], 1)
  {
    assert ReadVarint(data[ptr..], 5) == Got(data[ptr], 1);
  }

  lemma ParseFailsAt<M>(apply: (M, Record) -> Option<M>, m: M, data: seq<byte>, ptr: nat,
                        tag: nat, k: nat, rest: seq<byte>)
    requires ptr < |data| && ReadTag(data[ptr..]) == Got(tag, k)
    requires rest == data[ptr + k..]
    requires tag / 8 == 0 || PayloadExtent(tag, rest).None? || apply(m, RecordOf(tag, rest)).None?
    ensures Parse(apply, m, data[ptr..]).None?
  {
    DropDrop(data, ptr, k);
  }

  lemma FoldOptional<M>(apply: (M, Record) -> Option<M>, m: M, r: Record, rest: seq<Record>)
    ensures Fold(apply, m, [] + rest) == Fold(apply, m, rest)
    ensures Fold(apply, m, [r] + rest) ==
            match apply(m, r) { case None => None case Some(m') => Fold(apply, m', rest) }
  {
    assert [] + rest == rest;
    assert ([r] + rest)[1..] == rest;
  }

  /** A repeated field folds element by element, through the states `ms`. */
  lemma {:induction false} FoldRepeated<M>(
    apply: (M, Record) -> Option<M>, f: nat, ss: seq<seq<byte>>, ms: seq<M>)
    requires 1 <= f < 16 && 1 <= |ms| <= |ss| + 1
    requires forall i | 0 <= i < |ms| - 1 :: apply(ms[i], BytesRecord(f, ss[i])) == Some(ms[i + 1])
    ensures Fold(apply, ms[0], RepeatedField(f, ss)) ==
            Fold(apply, ms[|ms| - 1], RepeatedField(f, ss[|ms| - 1..]))
    decreases |ss|
  {
    if |ms| == 1 {
      assert ss[0..] == ss;
    } else {
      FoldOptional(apply, ms[0], BytesRecord(f, ss[0]), RepeatedField(f, ss[1..]));
      FoldRepeated(apply, f, ss[1..], ms[1..]);
      assert ss[1..][|ms| - 2..] == ss[|ms| - 1..];
    }
  }

  lemma FoldRepeatedHead<M>(apply: (M, Record) -> Option<M>, m: M, f: nat, ss: seq<seq<byte>>)
    requires 1 <= f < 16
    ensures Fold(apply, m, RepeatedField(f, [])) == Some(m)
    ensures ss != [] && apply(m, BytesRecord(f, ss[0])).None? ==> Fold(apply, m, RepeatedField(f, ss)).None?
  {
  }
}
