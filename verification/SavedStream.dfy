/** The saved-environment stream: strings and numbers written as text, and read back. */
module SavedStream {
  import opened Common

  /** The largest `unsigned long` and `size_type`. */
  const MAX_LONG: nat := 0xFFFF_FFFF_FFFF_FFFF

  /** The largest size of a string or a `vector<char>`. */
  const MAX_SIZE: nat := 0x7FFF_FFFF_FFFF_FFFF

  datatype Value = Text(s: string) | Number(n: nat)
  datatype Kind = AText | ANumber

  /** An input stream: what is left of it, and whether no read has failed yet. */
  datatype In = In(rest: string, good: bool)

  /** What a read gives: nothing when it throws. */
  datatype Result<T> = Ok(value: T) | Thrown

  /** What the C++ types can hold. */
  predicate Fits(v: Value) {
    match v
    case Text(s) => |s| <= MAX_SIZE
    case Number(n) => n <= MAX_LONG
  }

  // ------------------------------------------------------------ decimal numbers

  predicate IsDigit(c: char) { '0' <= c <= '9' }

  predicate AllDigits(s: string) { forall i | 0 <= i < |s| :: IsDigit(s[i]) }

  function Digits(n: nat): (s: string)
    ensures s != "" && AllDigits(s)
  {
    (if n < 10 then "" else Digits(n / 10)) + ['0' + (n % 10) as char]
  }

  function ValueOf(s: string): nat
    requires AllDigits(s)
  {
    if s == "" then 0 else 10 * ValueOf(s[..|s| - 1]) + (s[|s| - 1] - '0') as nat
  }

  /** The length of the run of digits at the front. */
  function Leading(s: string): (n: nat)
    ensures n <= |s| && AllDigits(s[..n])
  {
    if s == "" || !IsDigit(s[0]) then 0
    else
      var n := Leading(s[1..]);
      assert s[..n + 1] == [s[0]] + s[1..][..n];
      n + 1
  }

  function SkipSpaces(s: string): string { s[LeadingSpace(s)..] }

  /** A formatted read of an unsigned number: spaces, a sign, digits. A number that does
      not fit, or that is not there, fails; a minus sign negates in the word. */
  function Extract(i: In): (nat, In) {
    if !i.good then (0, i)
    else
      var t := SkipSpaces(i.rest);
      if t != "" && (t[0] == '-' || t[0] == '+') then Convert(t[1..], t[0] == '-') else Convert(t, false)
  }

  function Convert(u: string, minus: bool): (nat, In) {
    var k := Leading(u);
    if k == 0 then (0, In(u, false))
    else
      var v := ValueOf(u[..k]);
      if v > MAX_LONG then (MAX_LONG, In(u[k..], false))
      else (if minus && v > 0 then MAX_LONG + 1 - v else v, In(u[k..], true))
  }

  /** One character taken, whatever it is. */
  function Get(i: In): In {
    if i.good && i.rest != "" then In(i.rest[1..], true) else In(i.rest, false)
  }

  // --------------------------------------------------------------------- values

  function WriteValue(v: Value): string {
    match v
    case Text(s) => Digits(|s|) + ([' '] + s)
    case Number(n) => Digits(n) + [' ']
  }

  function WriteAll(vs: seq<Value>): string {
    if vs == [] then "" else WriteValue(vs[0]) + WriteAll(vs[1..])
  }

  /** A length that no vector can have throws before anything behind it is read. */
  function ReadText(i: In): (Result<string>, In) {
    var (n, j) := Extract(i);
    var k := Get(j);
    if n == 0 then (Ok(""), k)
    else if n > MAX_SIZE then (Thrown, k)
    else if !k.good then (Thrown, k)
    else if |k.rest| < n then (Thrown, In("", false))
    else (Ok(k.rest[..n]), In(k.rest[n..], true))
  }

  function ReadNumber(i: In): (nat, In) {
    var (n, j) := Extract(i);
    (n, Get(j))
  }

  function KindOf(v: Value): Kind { if v.Text? then AText else ANumber }

  function Kinds(vs: seq<Value>): (ks: seq<Kind>)
    ensures |ks| == |vs|
  {
    if vs == [] then [] else [KindOf(vs[0])] + Kinds(vs[1..])
  }

  function ReadValue(k: Kind, i: In): (Result<Value>, In) {
    match k
    case AText =>
      var (r, j) := ReadText(i);
      (if r.Ok? then Ok(Text(r.value)) else Thrown, j)
    case ANumber =>
      var (n, j) := ReadNumber(i);
      (if j.good then Ok(Number(n)) else Thrown, j)
  }

  function ReadAll(ks: seq<Kind>, i: In): (Result<seq<Value>>, In) {
    if ks == [] then (Ok([]), i)
    else
      var (r, j) := ReadValue(ks[0], i);
      if r.Thrown? then (Thrown, j)
      else
        var (q, k) := ReadAll(ks[1..], j);
        (if q.Ok? then Ok([r.value] + q.value) else Thrown, k)
  }

  // ----------------------------------------------------------------- round trip

  lemma {:induction false} ValueOfDigits(n: nat)
    ensures ValueOf(Digits(n)) == n
  {
    var s := Digits(n);
    assert s[|s| - 1] == '0' + (n % 10) as char;
    if n < 10 {
      assert s[..|s| - 1] == "";
    } else {
      assert s[..|s| - 1] == Digits(n / 10);
      ValueOfDigits(n / 10);
    }
  }

  lemma {:induction false} LeadingIs(d: string, t: string)
    requires AllDigits(d) && (t == "" || !IsDigit(t[0]))
    ensures Leading(d + t) == |d|
  {
    if d == "" {
      assert d + t == t;
    } else {
      assert (d + t)[1..] == d[1..] + t;
      LeadingIs(d[1..], t);
    }
  }

  /** A number is read back as it was printed, and reading stops right behind it. */
  lemma ExtractUndoesDigits(n: nat, t: string)
    requires n <= MAX_LONG && (t == "" || !IsDigit(t[0]))
    ensures Extract(In(Digits(n) + t, true)) == (n, In(t, true))
  {
    hide Digits, ValueOf, Leading;
    var d := Digits(n);
    var s := d + t;
    assert IsDigit(s[0]) && s[0] == d[0];
    LeadingIs(d, t);
    ValueOfDigits(n);
    assert s[..|d|] == d && s[|d|..] == t;
  }

  function Pow10(n: nat): (r: int)
    ensures r > 0
  {
    if n == 0 then 1 else 10 * Pow10(n - 1)
  }

  lemma {:induction false} NoLeadingZero(n: nat)
    requires n > 0
    ensures Digits(n)[0] != '0'
    decreases n
  {
    if n >= 10 {
      NoLeadingZero(n / 10);
    }
  }

  lemma DigitsLast(n: nat)
    ensures var s, k := Digits(n), |Digits(n)| - 1;
            && s[k] as int == '0' as int + n % 10
            && (n < 10 ==> k == 0)
            && (n >= 10 ==> s[..k] == Digits(n / 10))
  {
  }

  /** Decimal digits, most significant first. */
  lemma {:induction false} DigitsAre(n: nat, i: nat)
    requires i < |Digits(n)|
    ensures Digits(n)[i] as int == '0' as int + (n / Pow10(|Digits(n)| - 1 - i)) % 10
    decreases n
  {
    hide Digits, Pow10;
    var s, k := Digits(n), |Digits(n)| - 1;
    DigitsLast(n);
    if i == k {
      Pow10Zero();
    } else {
      assert s[i] == s[..k][i];
      DigitsAre(n / 10, i);
      Pow10Next(k - 1 - i);
      DivDiv(n, 10, Pow10(k - 1 - i));
    }
  }

  lemma Pow10Zero()
    ensures Pow10(0) == 1
  {
  }

  lemma Pow10Next(n: nat)
    ensures Pow10(n + 1) == 10 * Pow10(n)
  {
  }

  lemma ConvertIs(n: nat, t: string, minus: bool)
    requires t == "" || !IsDigit(t[0])
    ensures Convert(Digits(n) + t, minus) ==
            if n > 0xFFFF_FFFF_FFFF_FFFF then (0xFFFF_FFFF_FFFF_FFFF, In(t, false))
            else (if minus && n > 0 then 0x1_0000_0000_0000_0000 - n else n, In(t, true))
  {
    hide Digits, ValueOf, Leading;
    LeadingIs(Digits(n), t);
    ValueOfDigits(n);
    DigitsCut(Digits(n), t);
  }

  lemma SkipIs(space: string, v: string)
    requires forall i | 0 <= i < |space| :: IsSpace(space[i])
    requires v != "" && !IsSpace(v[0])
    ensures SkipSpaces(space + v) == v
  {
    assert (space + v)[|space|] == v[0];
    LeadingSpaceIs(space + v, |space|);
  }

  lemma SignIs(sign: string, u: string)
    requires sign in {"", "+", "-"} && u != "" && IsDigit(u[0])
    ensures var v := sign + u;
            && v != "" && !IsSpace(v[0])
            && (v[0] == '-' <==> sign == "-")
            && (if v[0] == '-' || v[0] == '+' then v[1..] else v) == u
  {
  }

  lemma DigitsCut(d: string, t: string)
    requires d != "" && AllDigits(d)
    ensures var u := d + t; u != "" && IsDigit(u[0]) && u[..|d|] == d && u[|d|..] == t
  {
  }

  /** What a number is read as: white space of the six kinds before it is skipped, a minus
      sign negates in the 64-bit word, and a number beyond that word fails. */
  lemma ExtractIs(space: string, sign: string, n: nat, t: string)
    requires forall i | 0 <= i < |space| :: space[i] in {' ', '\t', '\n', '\r', '\U{0B}', '\U{0C}'}
    requires sign in {"", "+", "-"} && (t == "" || !('0' <= t[0] <= '9'))
    ensures Extract(In(space + (sign + (Digits(n) + t)), true)) ==
            if n > 0xFFFF_FFFF_FFFF_FFFF then (0xFFFF_FFFF_FFFF_FFFF, In(t, false))
            else (if sign == "-" && n > 0 then 0x1_0000_0000_0000_0000 - n else n, In(t, true))
  {
    var d := Digits(n);
    assert forall i | 0 <= i < |space| :: IsSpace(space[i]);
    ConvertIs(n, t, sign == "-");
    hide Digits, Convert, SkipSpaces, IsSpace, IsDigit, AllDigits;
    DigitsCut(d, t);
    SignIs(sign, d + t);
    SkipIs(space, sign + (d + t));
  }

  /** Without a digit nothing is read, and the stream fails. */
  lemma ExtractNeedsDigit(space: string, t: string)
    requires forall i | 0 <= i < |space| :: space[i] in {' ', '\t', '\n', '\r', '\U{0B}', '\U{0C}'}
    requires t != "" && !IsSpace(t[0]) && t[0] !in {'+', '-'} && !('0' <= t[0] <= '9')
    ensures Extract(In(space + t, true)) == (0, In(t, false))
  {
    assert (space + t)[|space|] == t[0];
    LeadingSpaceIs(space + t, |space|);
    assert (space + t)[|space|..] == t;
  }

  lemma ReadUndoesWrite(v: Value, t: string)
    requires Fits(v)
    ensures ReadValue(KindOf(v), In(WriteValue(v) + t, true)) == (Ok(v), In(t, true))
  {
    hide Digits, Extract;
    match v
    case Text(s) =>
      var u := [' '] + (s + t);
      assert WriteValue(v) + t == Digits(|s|) + u;
      ExtractUndoesDigits(|s|, u);
      assert u[1..] == s + t;
      assert (s + t)[..|s|] == s && (s + t)[|s|..] == t;
    case Number(n) =>
      var u := [' '] + t;
      assert WriteValue(v) + t == Digits(n) + u;
      ExtractUndoesDigits(n, u);
      assert u[1..] == t;
  }

  /** Any run of writes, whatever the strings hold and whatever follows, is read back
      value by value, and what follows is left. */
  lemma {:induction false} ReadAllUndoesWriteAll(vs: seq<Value>, t: string)
    requires forall v | v in vs :: Fits(v)
    ensures ReadAll(Kinds(vs), In(WriteAll(vs) + t, true)) == (Ok(vs), In(t, true))
  {
    hide ReadValue, WriteValue, KindOf;
    if vs == [] {
      assert WriteAll(vs) + t == t;
    } else {
      var rest := WriteAll(vs[1..]) + t;
      assert WriteAll(vs) + t == WriteValue(vs[0]) + rest;
      ReadUndoesWrite(vs[0], rest);
      ReadAllUndoesWriteAll(vs[1..], t);
      assert Kinds(vs)[1..] == Kinds(vs[1..]) && [vs[0]] + vs[1..] == vs;
    }
  }

  /** So two runs of writes of the same kinds that start a stream alike are the same. */
  lemma WritesAreDistinct(vs: seq<Value>, ws: seq<Value>, t: string, u: string)
    requires (forall v | v in vs :: Fits(v)) && (forall w | w in ws :: Fits(w))
    requires Kinds(vs) == Kinds(ws) && WriteAll(vs) + t == WriteAll(ws) + u
    ensures vs == ws && t == u
  {
    ReadAllUndoesWriteAll(vs, t);
    ReadAllUndoesWriteAll(ws, u);
  }

  predicate IsSuffix(t: string, s: string) { |t| <= |s| && t == s[|s| - |t|..] }

  lemma SuffixOfSuffix(s: string, m: nat, n: nat)
    requires m <= |s| && n <= |s| - m
    ensures s[m..][n..] == s[m + n..]
  {
  }

  lemma SuffixIsTransitive(a: string, b: string, c: string)
    requires IsSuffix(a, b) && IsSuffix(b, c)
    ensures IsSuffix(a, c)
  {
    SuffixOfSuffix(c, |c| - |b|, |b| - |a|);
  }

  lemma ConvertLeavesSuffix(u: string, minus: bool)
    ensures IsSuffix(Convert(u, minus).1.rest, u)
    ensures Convert(u, minus).0 > 0 ==> |Convert(u, minus).1.rest| < |u|
  {
    hide ValueOf, Leading, IsSuffix;
    DropIsSuffix(u, Leading(u));
    DropIsSuffix(u, 0);
  }

  lemma ExtractLeavesSuffix(i: In)
    ensures IsSuffix(Extract(i).1.rest, i.rest)
    ensures Extract(i).0 > 0 ==> i.good && |Extract(i).1.rest| < |i.rest|
  {
    hide Convert, LeadingSpace, IsSuffix;
    var t := SkipSpaces(i.rest);
    DropIsSuffix(i.rest, LeadingSpace(i.rest));
    DropIsSuffix(i.rest, 0);
    if t != "" && (t[0] == '-' || t[0] == '+') {
      DropIsSuffix(t, 1);
      ConvertLeavesSuffix(t[1..], t[0] == '-');
      SuffixIsTransitive(t[1..], t, i.rest);
      SuffixIsTransitive(Convert(t[1..], t[0] == '-').1.rest, t[1..], i.rest);
    } else {
      ConvertLeavesSuffix(t, false);
      SuffixIsTransitive(Convert(t, false).1.rest, t, i.rest);
    }
  }

  lemma DropIsSuffix(s: string, n: nat)
    requires n <= |s|
    ensures IsSuffix(s[n..], s) && s[0..] == s
  {
  }

  /** On any stream, a text that is read and what is left behind it stand next to each
      other in the input, behind a length and one more character: reading invents nothing
      and skips nothing. A stream that a read threw on has failed, unless the length was
      one that no string can have: then what stands behind it is still there. */
  lemma TextIsInInput(i: In)
    ensures var (r, j) := ReadText(i);
            && (r.Ok? ==> IsSuffix(r.value + j.rest, i.rest))
            && (r.Ok? && r.value != "" ==> i.good && j.good && |r.value| < |i.rest| - |j.rest| - 1)
            && (r.Thrown? && Extract(i).0 <= MAX_SIZE ==> !j.good)
            && (r.Thrown? && Extract(i).0 > MAX_SIZE ==> j == Get(Extract(i).1))
  {
    hide Extract;
    ExtractLeavesSuffix(i);
    var (n, j) := Extract(i);
    var k := Get(j);
    if j.good && j.rest != "" {
      SuffixOfSuffix(i.rest, |i.rest| - |j.rest|, 1);
    }
    if n > 0 && k.good && |k.rest| >= n {
      assert k.rest[..n] + k.rest[n..] == k.rest;
    } else {
      assert "" + k.rest == k.rest;
    }
  }

  /** So it is for every such length: what stands behind it can still be read. */
  lemma TooLongThrows(n: nat, t: string)
    requires MAX_SIZE < n <= MAX_LONG
    ensures ReadText(In(Digits(n) + ([' '] + t), true)) == (Thrown, In(t, true))
  {
    hide Digits, Extract;
    ExtractUndoesDigits(n, [' '] + t);
    assert ([' '] + t)[1..] == t;
  }

  /** Fewer bytes than announced throw and use up the stream; on a stream that has failed
      before, or that holds no number, a text reads as the empty one. */
  lemma ShortTextThrows(n: nat, t: string)
    requires |t| < n <= 0x7FFF_FFFF_FFFF_FFFF
    ensures ReadText(In(Digits(n) + (" " + t), true)) == (Thrown, In("", false))
    ensures ReadText(In(t, false)) == (Ok(""), In(t, false))
  {
    ExtractUndoesDigits(n, " " + t);
    hide Digits, Extract;
    assert (" " + t)[1..] == t;
    FailedReadsNothing(t);
  }

  lemma FailedReadsNothing(t: string)
    ensures Extract(In(t, false)) == (0, In(t, false))
  {
  }

  // -------------------------------------------------------------------- streams

  class OStream {
    var data: string

    constructor ()
      ensures data == ""
    {
      data := "";
    }

    method WriteString(s: string)
      modifies this
      ensures data == old(data) + (Digits(|s|) + (" " + s)) == old(data) + WriteValue(Text(s))
    {
      data := data + (Digits(|s|) + [' ']);
      data := data + s;
    }

    method WriteLong(l: nat)
      modifies this
      ensures data == old(data) + (Digits(l) + " ") == old(data) + WriteValue(Number(l))
    {
      data := data + (Digits(l) + [' ']);
    }
  }

  class IStream {
    var state: In

    constructor (data: string)
      ensures state == In(data, true)
    {
      state := In(data, true);
    }

    /** `>>` into a number. */
    method ExtractNumber() returns (n: nat)
      modifies this
      ensures (n, state) == Extract(old(state))
    {
      var (v, next) := Extract(state);
      n, state := v, next;
    }

    method GetChar()
      modifies this
      ensures state == Get(old(state))
    {
      state := Get(state);
    }

    method ReadString() returns (r: Result<string>)
      modifies this
      ensures (r, state) == ReadText(old(state))
    {
      var dataSize := ExtractNumber();
      GetChar();
      if dataSize == 0 {
        return Ok("");
      }
      if dataSize > MAX_SIZE {
        return Thrown;
      }
      if !state.good {
        return Thrown;
      }
      var count := if |state.rest| < dataSize then |state.rest| else dataSize;
      var temp := state.rest[..count];
      assert count == |state.rest| ==> state.rest[count..] == "";
      state := In(state.rest[count..], count == dataSize);
      if count != dataSize {
        return Thrown;
      }
      return Ok(temp);
    }

    method ReadLong() returns (l: nat)
      modifies this
      ensures state == ReadNumber(old(state)).1
      ensures old(state.good && LeadingSpace(state.rest) < |state.rest|) ==> l == ReadNumber(old(state)).0
    {
      l := ExtractNumber();
      GetChar();
    }
  }
}
