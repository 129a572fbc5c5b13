/** Searching in strings, and the percent coding of form data. A string holds bytes:
    every character is below 256. */
module CgiUtils {
  import opened Common

  predicate Octets(s: string) { forall i | 0 <= i < |s| :: s[i] as int < 256 }

  // --------------------------------------------------------------- searching

  /** `pat` occurs in `data` at `i`. */
  predicate At(data: string, pat: string, i: int) {
    0 <= i && i + |pat| <= |data| && data[i..i + |pat|] == pat
  }

  predicate Absent(data: string, pat: string) {
    forall i | 0 <= i <= |data| :: !At(data, pat, i)
  }

  /** The first occurrence at or after `from`. */
  function Find(data: string, pat: string, from: nat): (r: Option<nat>)
    ensures r.Some? ==> from <= r.value && r.value + |pat| <= |data| && At(data, pat, r.value)
    ensures forall i | from <= i <= (if r.Some? then r.value - 1 else |data|) :: !At(data, pat, i)
    decreases |data| - from
  {
    if from > |data| then None
    else if At(data, pat, from) then Some(from)
    else Find(data, pat, from + 1)
  }

  lemma FindIs(data: string, pat: string, from: nat, i: nat)
    requires from <= i && At(data, pat, i)
    requires forall j | from <= j < i :: !At(data, pat, j)
    ensures Find(data, pat, from) == Some(i)
  {
  }

  lemma Mismatch(data: string, pat: string, j: nat, k: nat)
    requires k < |pat| && (j + k < |data| ==> data[j + k] != pat[k])
    ensures !At(data, pat, j)
  {
    if j + |pat| <= |data| {
      assert data[j..j + |pat|][k] == data[j + k];
    }
  }

  lemma AtInFront(a: string, b: string, pat: string, j: nat)
    requires j + |pat| <= |a|
    ensures At(a + b, pat, j) <==> At(a, pat, j)
  {
    assert (a + b)[j..j + |pat|] == a[j..j + |pat|];
  }

  lemma AtInRest(data: string, pat: string, from: nat, i: nat)
    requires from + i <= |data|
    ensures At(data[from..], pat, i) <==> At(data, pat, from + i)
  {
    if from + i + |pat| <= |data| {
      assert data[from..][i..i + |pat|] == data[from + i..from + i + |pat|];
    }
  }

  /** A search from a position is a search in what follows it. */
  lemma FindInRest(data: string, pat: string, from: nat)
    requires from <= |data|
    ensures Find(data, pat, from) == Shift(Find(data[from..], pat, 0), from)
  {
    hide At;
    var r := Find(data[from..], pat, 0);
    match r
    case Some(i) =>
      forall j | from <= j < from + i ensures !At(data, pat, j) {
        AtInRest(data, pat, from, j - from);
      }
      AtInRest(data, pat, from, i);
      FindIs(data, pat, from, from + i);
    case None =>
      forall j | from <= j <= |data| ensures !At(data, pat, j) {
        AtInRest(data, pat, from, j - from);
      }
      NothingFound(data, pat, from);
  }

  lemma NothingFound(data: string, pat: string, from: nat)
    requires forall i | from <= i <= |data| :: !At(data, pat, i)
    ensures Find(data, pat, from).None?
  {
  }

  function Shift(r: Option<nat>, offset: nat): Option<nat> {
    match r case None => None case Some(i) => Some(offset + i)
  }

  function IndexOf(data: string, c: char): (r: Option<nat>)
    ensures r.Some? ==> r.value < |data| && data[r.value] == c && c !in data[..r.value]
    ensures r.None? ==> c !in data
  {
    var r := Find(data, [c], 0);
    assert forall i | 0 <= i < |data| && data[i] == c :: At(data, [c], i);
    r
  }

  lemma FindChar(data: string, c: char, from: nat)
    requires from <= |data|
    ensures Find(data, [c], from) == Shift(IndexOf(data[from..], c), from)
    ensures Find(data, [c], from).Some? ==> from <= Find(data, [c], from).value < |data|
  {
    FindInRest(data, [c], from);
  }

  /** Slices of a rest are slices of the whole. */
  lemma CutRest(data: string, from: nat, at: nat)
    requires from <= at <= |data|
    ensures data[from..][..at - from] == data[from..at] && data[from..][at - from..] == data[at..]
  {
  }

  lemma IndexOfIs(a: string, c: char, b: string)
    requires c !in a
    ensures IndexOf(a + ([c] + b), c) == Some(|a|)
  {
    var d := a + ([c] + b);
    forall j | 0 <= j < |a| ensures !At(d, [c], j) {
      Mismatch(d, [c], j, 0);
    }
    assert At(d, [c], |a|);
    FindIs(d, [c], 0, |a|);
  }

  lemma IndexOfAbsent(a: string, c: char)
    requires c !in a
    ensures IndexOf(a, c).None?
  {
  }

  /** A pattern ending in a character that it has nowhere else is first found at the
      pattern's own place, if the text before does not contain it. */
  lemma FindBeforeLast(a: string, w: string, z: char, b: string)
    requires z !in w && Absent(a, w + [z])
    ensures Find(a + (w + [z]) + b, w + [z], 0) == Some(|a|)
  {
    var pat := w + [z];
    var d := a + pat + b;
    assert d[|a|..|a| + |pat|] == pat;
    forall j | 0 <= j < |a| ensures !At(d, pat, j) {
      if j + |pat| <= |a| {
        AtInFront(a, pat + b, pat, j);
        assert d == a + (pat + b);
      } else {
        Mismatch(d, pat, j, |w|);
      }
    }
    FindIs(d, pat, 0, |a|);
  }

  lemma CutBehind(a: string, q: char, b: string)
    ensures var d := a + ([q] + b); d[|a|] == q && d[|a| + 1..] == b && |d| == |a| + 1 + |b|
  {
  }

  /** A pattern without the character `q` does not start before it and reach it. */
  lemma NotAcross(a: string, q: char, b: string, pat: string, j: nat)
    requires q !in pat && pat != [] && Absent(a, pat) && j <= |a|
    ensures !At(a + ([q] + b), pat, j)
  {
    if j + |pat| <= |a| {
      AtInFront(a, [q] + b, pat, j);
    } else {
      Mismatch(a + ([q] + b), pat, j, |a| - j);
    }
  }

  /** A pattern without the character `q` is not found across it. */
  lemma FindBehind(a: string, q: char, b: string, pat: string)
    requires q !in pat && pat != [] && Absent(a, pat)
    ensures Find(a + ([q] + b), pat, 0) == Shift(Find(b, pat, 0), |a| + 1)
  {
    hide At, Absent;
    var d := a + ([q] + b);
    forall j | 0 <= j <= |a| ensures !At(d, pat, j) {
      NotAcross(a, q, b, pat, j);
    }
    CutBehind(a, q, b);
    FindFromBehind(d, pat, |a| + 1);
  }

  /** Positions without an occurrence at the front can be skipped. */
  lemma FindFromBehind(d: string, pat: string, from: nat)
    requires from <= |d| && forall j | 0 <= j < from :: !At(d, pat, j)
    ensures Find(d, pat, 0) == Shift(Find(d[from..], pat, 0), from)
  {
    hide At;
    FindInRest(d, pat, from);
    var r := Find(d, pat, from);
    match r
    case Some(i) => FindIs(d, pat, 0, i);
    case None => NothingFound(d, pat, 0);
  }

  lemma QuotedAt(a: string, q: char, b: string, w: string, j: nat)
    requires q !in a && q !in w && j <= |a|
    ensures At(a + ([q] + b), w + [q], j) <==> j + |w| == |a| && a[j..] == w
  {
    var d, pat := a + ([q] + b), w + [q];
    if j + |w| < |a| {
      Mismatch(d, pat, j, |w|);
    } else if j + |w| > |a| {
      Mismatch(d, pat, j, |a| - j);
    } else {
      assert d[j..j + |pat|] == a[j..] + [q];
      assert (a[j..] + [q])[..|w|] == a[j..] && pat[..|w|] == w;
    }
  }

  /** A pattern whose only `q` is its last character is found before the first `q` of
      the text, or behind it. */
  lemma FindQuoted(a: string, q: char, b: string, w: string)
    requires q !in a && q !in w
    ensures Find(a + ([q] + b), w + [q], 0) ==
            if EndsWith(a, w) then Some(|a| - |w|) else Shift(Find(b, w + [q], 0), |a| + 1)
  {
    hide At;
    var d, pat, n := a + ([q] + b), w + [q], |a| - |w|;
    if EndsWith(a, w) {
      forall j | 0 <= j < n ensures !At(d, pat, j) {
        QuotedAt(a, q, b, w, j);
      }
      QuotedAt(a, q, b, w, n);
      FindIs(d, pat, 0, n);
    } else {
      forall j | 0 <= j <= |a| ensures !At(d, pat, j) {
        QuotedAt(a, q, b, w, j);
      }
      CutBehind(a, q, b);
      FindFromBehind(d, pat, |a| + 1);
    }
  }

  predicate EndsWith(a: string, w: string) { |w| <= |a| && a[|a| - |w|..] == w }

  /** What lies between the first `open` and the next `close`, or nothing. */
  function Between(data: string, open: string, close: string): string {
    match Find(data, open, 0)
    case None => ""
    case Some(i) =>
      var start := i + |open|;
      match Find(data, close, start)
      case None => ""
      case Some(limit) => data[start..limit]
  }

  /** `pat` occurs at `i`, and nowhere between `from` and there. */
  ghost predicate First(data: string, pat: string, from: nat, i: nat) {
    from <= i && At(data, pat, i) && forall j | from <= j < i :: !At(data, pat, j)
  }

  ghost predicate NoneFrom(data: string, pat: string, from: nat) {
    forall i | from <= i <= |data| :: !At(data, pat, i)
  }

  /** From `start` up to the first closing separator, or nothing without one. */
  ghost predicate UpTo(data: string, close: string, start: nat, r: string) {
    && (NoneFrom(data, close, start) ==> r == "")
    && (forall k: nat | First(data, close, start, k) :: r == data[start..k])
  }

  /** The first opening separator counts, and the first closing one behind it; without
      both there is nothing between them. */
  ghost predicate IsBetween(data: string, open: string, close: string, r: string) {
    && (NoneFrom(data, open, 0) ==> r == "")
    && (forall i: nat | First(data, open, 0, i) :: UpTo(data, close, i + |open|, r))
  }

  lemma FirstIsFound(data: string, pat: string, from: nat, i: nat)
    requires First(data, pat, from, i)
    ensures Find(data, pat, from) == Some(i) && !NoneFrom(data, pat, from)
  {
    FindIs(data, pat, from, i);
  }

  lemma UpToIs(data: string, close: string, start: nat, r: string)
    ensures UpTo(data, close, start, r) <==>
            r == match Find(data, close, start) { case None => "" case Some(k) => data[start..k] }
  {
    hide At, First, NoneFrom;
    FindIsFirst(data, close, start);
    var f := Find(data, close, start);
    if NoneFrom(data, close, start) && f.Some? {
      FirstIsFound(data, close, start, f.value);
    }
    forall k: nat | First(data, close, start, k) ensures f == Some(k) {
      FirstIsFound(data, close, start, k);
    }
  }

  /** That describes one text, and it is the one the search finds. */
  lemma BetweenIs(data: string, open: string, close: string, r: string)
    ensures IsBetween(data, open, close, r) <==> r == Between(data, open, close)
  {
    hide At, First, NoneFrom, UpTo;
    FindIsFirst(data, open, 0);
    var f := Find(data, open, 0);
    forall i: nat | First(data, open, 0, i) ensures f == Some(i) {
      FirstIsFound(data, open, 0, i);
    }
    if f.Some? {
      if NoneFrom(data, open, 0) {
        FirstIsFound(data, open, 0, f.value);
      }
      UpToIs(data, close, f.value + |open|, r);
    }
  }

  lemma FindIsFirst(data: string, pat: string, from: nat)
    ensures match Find(data, pat, from)
            case None => NoneFrom(data, pat, from)
            case Some(i) => First(data, pat, from, i)
  {
    hide At;
  }

  method ExtractBetween(data: string, separator1: string, separator2: string) returns (result: string)
    ensures IsBetween(data, separator1, separator2, result)
  {
    hide At, First, NoneFrom, IsBetween;
    result := "";
    var start := Find(data, separator1, 0);
    if start.Some? {
      var from := start.value + |separator1|;
      var limit := Find(data, separator2, from);
      if limit.Some? {
        result := data[from..limit.value];
      }
    }
    BetweenIs(data, separator1, separator2, result);
  }

  // ------------------------------------------------------------ percent coding

  predicate Unreserved(c: char) {
    || 'A' <= c <= 'Z' || 'a' <= c <= 'z' || '0' <= c <= '9'
    || c in {'-', '_', '.', '!', '~', '*', '\'', '(', ')'}
  }

  predicate IsHex(c: char) { '0' <= c <= '9' || 'A' <= c <= 'F' || 'a' <= c <= 'f' }

  predicate IsUpperHex(c: char) { '0' <= c <= '9' || 'A' <= c <= 'F' }

  function HexDigit(n: nat): (c: char)
    requires n < 16
    ensures IsUpperHex(c) && HexValue(c) == n
  {
    if n > 9 then 'A' + (n - 10) as char else '0' + n as char
  }

  function HexValue(c: char): (n: nat)
    requires IsHex(c)
    ensures n < 16
    ensures IsUpperHex(c) ==> c == if n > 9 then 'A' + (n - 10) as char else '0' + n as char
  {
    if c >= 'a' then (c - 'a') as nat + 10
    else if c >= 'A' then (c - 'A') as nat + 10
    else (c - '0') as nat
  }

  function CharToHex(c: char): (s: string)
    requires c as int < 256
    ensures |s| == 2 && IsHex(s[0]) && IsHex(s[1]) && HexToChar(s[0], s[1]) == c
  {
    [HexDigit(c as nat / 16), HexDigit(c as nat % 16)]
  }

  function HexToChar(first: char, second: char): (c: char)
    requires IsHex(first) && IsHex(second)
    ensures c as int < 256
  {
    (HexValue(first) * 16 + HexValue(second)) as char
  }

  function EncodeChar(c: char): (s: string)
    requires c as int < 256
  {
    if c == ' ' then "+" else if Unreserved(c) then [c] else "%" + CharToHex(c)
  }

  function Encode(s: string): string
    requires Octets(s)
  {
    if s == [] then [] else EncodeChar(s[0]) + Encode(s[1..])
  }

  /** An escape starts here: a percent sign and two hexadecimal digits. */
  predicate Escape(s: string) {
    |s| >= 3 && s[0] == '%' && IsHex(s[1]) && IsHex(s[2])
  }

  function Decode(s: string): string {
    if s == [] then []
    else if s[0] == '+' then " " + Decode(s[1..])
    else if Escape(s) then [HexToChar(s[1], s[2])] + Decode(s[3..])
    else [s[0]] + Decode(s[1..])
  }

  lemma DecodeChar(c: char, rest: string)
    requires c as int < 256
    ensures Decode(EncodeChar(c) + rest) == [c] + Decode(rest)
  {
    var s := EncodeChar(c) + rest;
    if c == ' ' || Unreserved(c) {
      assert s[1..] == rest;
    } else {
      assert s[0] == '%' && s[1] == CharToHex(c)[0] && s[2] == CharToHex(c)[1] && s[3..] == rest;
    }
  }

  lemma {:induction false} DecodeUndoesEncode(s: string)
    requires Octets(s)
    ensures Decode(Encode(s)) == s
  {
    if s != [] {
      DecodeUndoesEncode(s[1..]);
      DecodeChar(s[0], Encode(s[1..]));
    }
  }

  /** The encoder's alphabet, and its size. */
  lemma {:induction false} EncodedAlphabet(s: string)
    requires Octets(s)
    ensures forall i | 0 <= i < |Encode(s)| :: Unreserved(Encode(s)[i]) || Encode(s)[i] in {'+', '%'}
    ensures |s| <= |Encode(s)| <= 3 * |s|
  {
    if s != [] {
      EncodedAlphabet(s[1..]);
      var a, b := EncodeChar(s[0]), Encode(s[1..]);
      forall i | 0 <= i < |a + b| ensures Unreserved((a + b)[i]) || (a + b)[i] in {'+', '%'} {
        assert (a + b)[i] == if i < |a| then a[i] else b[i - |a|];
      }
    }
  }

  function Escapes(s: string): nat {
    if s == [] then 0
    else if Escape(s) then 1 + Escapes(s[3..])
    else Escapes(s[1..])
  }

  /** On any input, well-formed or not, decoding loses two characters an escape. */
  lemma {:induction false} DecodedLength(s: string)
    ensures |Decode(s)| + 2 * Escapes(s) == |s|
    ensures Octets(s) ==> Octets(Decode(s))
  {
    if s != [] {
      var rest := if Escape(s) then s[3..] else s[1..];
      DecodedLength(rest);
      if Octets(s) {
        assert Octets(rest);
      }
    }
  }

  /** What the encoder can produce: no needless or lower-case escapes. */
  predicate Canonical(s: string) {
    if s == [] then true
    else if s[0] == '+' || Unreserved(s[0]) then Canonical(s[1..])
    else
      && Escape(s) && IsUpperHex(s[1]) && IsUpperHex(s[2])
      && !Unreserved(HexToChar(s[1], s[2])) && HexToChar(s[1], s[2]) != ' '
      && Canonical(s[3..])
  }

  lemma {:induction false} EncodedIsCanonical(s: string)
    requires Octets(s)
    ensures Canonical(Encode(s))
  {
    if s != [] {
      EncodedIsCanonical(s[1..]);
      var c, rest := s[0], Encode(s[1..]);
      if c != ' ' && !Unreserved(c) {
        assert Encode(s) == ['%', CharToHex(c)[0], CharToHex(c)[1]] + rest;
        assert Encode(s)[3..] == rest;
      } else {
        assert Encode(s)[1..] == rest;
      }
    }
  }

  lemma {:induction false} EncodeOfCanonical(s: string)
    requires Octets(s) && Canonical(s)
    ensures Octets(Decode(s)) && Encode(Decode(s)) == s
  {
    if s != [] {
      var c, rest := CanonicalHead(s);
      EncodeOfCanonical(rest);
      EncodeHead(c, Decode(rest));
    }
  }

  lemma CanonicalHead(s: string) returns (c: char, rest: string)
    requires s != [] && Octets(s) && Canonical(s)
    ensures c as int < 256 && |rest| < |s| && Octets(rest) && Canonical(rest)
    ensures Decode(s) == [c] + Decode(rest) && EncodeChar(c) + rest == s
  {
    if s[0] == '+' || Unreserved(s[0]) {
      c, rest := if s[0] == '+' then ' ' else s[0], s[1..];
    } else {
      c, rest := HexToChar(s[1], s[2]), s[3..];
      CharOfHex(s[1], s[2]);
      assert s == ['%', s[1], s[2]] + rest;
    }
  }

  lemma EncodeHead(c: char, t: string)
    requires c as int < 256 && Octets(t)
    ensures Octets([c] + t) && Encode([c] + t) == EncodeChar(c) + Encode(t)
  {
    assert ([c] + t)[1..] == t;
  }

  lemma CharOfHex(a: char, b: char)
    requires IsUpperHex(a) && IsUpperHex(b)
    ensures CharToHex(HexToChar(a, b)) == [a, b]
  {
    var n := HexValue(a) * 16 + HexValue(b);
    assert n / 16 == HexValue(a) && n % 16 == HexValue(b);
  }

  /** Encoding undoes decoding exactly on canonical input. */
  lemma EncodeUndoesDecodeIff(s: string)
    requires Octets(s)
    ensures Octets(Decode(s))
    ensures Encode(Decode(s)) == s <==> Canonical(s)
  {
    DecodedLength(s);
    if Canonical(s) {
      EncodeOfCanonical(s);
    } else {
      EncodedIsCanonical(Decode(s));
    }
  }

  // ------------------------------------------- percent coding, by its letters

  function LowerDigit(d: nat): char
    requires d < 16
  {
    "0123456789abcdef"[d]
  }

  function UpperDigit(d: nat): char
    requires d < 16
  {
    "0123456789ABCDEF"[d]
  }

  lemma HexDigitsAre(d: nat)
    requires d < 16
    ensures IsHex(LowerDigit(d)) && HexValue(LowerDigit(d)) == d
    ensures IsHex(UpperDigit(d)) && HexValue(UpperDigit(d)) == d
    ensures HexDigit(d) == UpperDigit(d)
  {
  }

  lemma HexIff(c: char)
    ensures IsHex(c) <==> exists d: nat | d < 16 :: c == LowerDigit(d) || c == UpperDigit(d)
  {
    if IsHex(c) {
      HexDigitsAre(HexValue(c));
      assert LowerDigit(HexValue(c)) == c || UpperDigit(HexValue(c)) == c;
    } else if d: nat :| d < 16 && (c == LowerDigit(d) || c == UpperDigit(d)) {
      HexDigitsAre(d);
    }
  }

  /** How a byte is encoded: letters, digits and nine marks as they are, a space as a plus
      sign, and everything else as a percent sign and two upper-case digits. */
  lemma EncodeOne(c: char)
    requires c as int < 256
    ensures Encode([c]) ==
            if c == ' ' then "+"
            else if 'A' <= c <= 'Z' || 'a' <= c <= 'z' || '0' <= c <= '9' || c in "-_.!~*'()" then [c]
            else ['%', UpperDigit(c as nat / 16), UpperDigit(c as nat % 16)]
  {
    HexDigitsAre(c as nat / 16);
    HexDigitsAre(c as nat % 16);
    assert c in "-_.!~*'()" <==> c in {'-', '_', '.', '!', '~', '*', '\'', '(', ')'};
    assert Encode([c]) == EncodeChar(c) + Encode([]) == EncodeChar(c);
  }

  /** Byte by byte. */
  lemma {:induction false} EncodeConcat(a: string, b: string)
    requires Octets(a) && Octets(b)
    ensures Octets(a + b) && Encode(a + b) == Encode(a) + Encode(b)
  {
    hide EncodeChar;
    if a == "" {
      assert a + b == b && Encode(a) + Encode(b) == Encode(b);
    } else {
      EncodeConcat(a[1..], b);
      assert a + b == [a[0]] + (a[1..] + b);
      EncodeHead(a[0], a[1..] + b);
      Associative(EncodeChar(a[0]), Encode(a[1..]), Encode(b));
    }
  }

  lemma DecodeEscape(a: char, b: char, t: string)
    requires IsHex(a) && IsHex(b)
    ensures Decode(['%', a, b] + t) == [HexToChar(a, b)] + Decode(t)
  {
    hide HexToChar;
    var s := ['%', a, b] + t;
    assert s[0] == '%' && s[1] == a && s[2] == b && s[3..] == t;
  }

  lemma DecodeSingle(c: char, t: string)
    ensures c == '%' && (|t| < 2 || !IsHex(t[0]) || !IsHex(t[1])) ==> Decode([c] + t) == [c] + Decode(t)
    ensures c == '+' ==> Decode([c] + t) == " " + Decode(t)
    ensures c != '+' && c != '%' ==> Decode([c] + t) == [c] + Decode(t)
  {
    hide HexToChar, IsHex;
    var s := [c] + t;
    assert s[1..] == t && (|t| >= 2 ==> s[1] == t[0] && s[2] == t[1]);
  }

  lemma EscapeValue(i: nat, j: nat, a: char, b: char)
    requires i < 16 && j < 16
    requires a == LowerDigit(i) || a == UpperDigit(i)
    requires b == LowerDigit(j) || b == UpperDigit(j)
    ensures IsHex(a) && IsHex(b) && HexToChar(a, b) == (16 * i + j) as char
  {
    HexDigitsAre(i);
    HexDigitsAre(j);
    hide IsHex, HexValue, LowerDigit, UpperDigit, HexDigit;
  }

  /** How text is decoded from the front on: an escape with digits of either case, */
  lemma DecodeAtEscape(i: nat, j: nat, a: char, b: char, t: string)
    requires i < 16 && j < 16
    requires a == LowerDigit(i) || a == UpperDigit(i)
    requires b == LowerDigit(j) || b == UpperDigit(j)
    ensures Decode(['%', a, b] + t) == [(16 * i + j) as char] + Decode(t)
  {
    hide Decode, IsHex, HexToChar, LowerDigit, UpperDigit;
    EscapeValue(i, j, a, b);
    DecodeEscape(a, b, t);
  }

  /** a plus sign, a percent sign that starts no escape, and any other character, which
      stays. */
  lemma DecodeElsewhere(c: char, t: string)
    ensures Decode("+" + t) == " " + Decode(t)
    ensures |t| < 2 || !IsHex(t[0]) || !IsHex(t[1]) ==> Decode("%" + t) == "%" + Decode(t)
    ensures c != '+' && c != '%' ==> Decode([c] + t) == [c] + Decode(t)
  {
    hide Decode, IsHex;
    DecodeSingle('+', t);
    DecodeSingle('%', t);
    DecodeSingle(c, t);
  }

  predicate SameDigit(a: char, b: char) {
    || a == b
    || ('a' <= a <= 'f' && b == a - 'a' + 'A')
    || ('A' <= a <= 'F' && b == a - 'A' + 'a')
  }

  /** The texts differ in the case of the digits of their escapes only. */
  predicate CaseVariant(s: string, t: string) {
    if s == "" || t == "" then s == t
    else if Escape(s) then
      Escape(t) && SameDigit(s[1], t[1]) && SameDigit(s[2], t[2]) && CaseVariant(s[3..], t[3..])
    else !Escape(t) && s[0] == t[0] && CaseVariant(s[1..], t[1..])
  }

  lemma SameDigitSameValue(a: char, b: char)
    requires IsHex(a) && IsHex(b) && SameDigit(a, b)
    ensures HexValue(a) == HexValue(b)
  {
  }

  lemma {:induction false} DecodeIgnoresCase(s: string, t: string)
    requires CaseVariant(s, t)
    ensures Decode(s) == Decode(t)
    decreases |s|
  {
    hide HexValue, SameDigit;
    if s == "" || t == "" {
    } else if Escape(s) {
      SameDigitSameValue(s[1], t[1]);
      SameDigitSameValue(s[2], t[2]);
      DecodeIgnoresCase(s[3..], t[3..]);
    } else {
      DecodeIgnoresCase(s[1..], t[1..]);
    }
  }

  /** What a sender encodes with digits of either case is decoded. */
  lemma DecodeUndoesAnyCase(s: string, t: string)
    requires Octets(s) && CaseVariant(Encode(s), t)
    ensures Decode(t) == s
  {
    DecodeIgnoresCase(Encode(s), t);
    DecodeUndoesEncode(s);
  }

  method FormUrlencode(src: string) returns (result: string)
    requires Octets(src)
    ensures result == Encode(src)
  {
    hide Encode, Unreserved, CharToHex;
    result := "";
    var i := 0;
    assert src[0..] == src;
    while i < |src|
      invariant 0 <= i <= |src|
      invariant result + Encode(src[i..]) == Encode(src)
    {
      EncodeNext(src, i);
      ghost var before := result;
      if src[i] == ' ' {
        result := result + "+";
      } else if Unreserved(src[i]) {
        result := result + [src[i]];
      } else {
        result := result + "%" + CharToHex(src[i]);
      }
      assert result == before + EncodeChar(src[i]);
      i := i + 1;
    }
    EncodeNothing();
  }

  lemma EncodeNext(src: string, i: nat)
    requires i < |src| && Octets(src)
    ensures Encode(src[i..]) == EncodeChar(src[i]) + Encode(src[i + 1..])
  {
    assert src[i..][1..] == src[i + 1..];
  }

  lemma EncodeNothing()
    ensures Encode("") == ""
  {
  }

  /** The character at a position, or the terminating NUL just past the end. */
  function CharAt(s: string, i: nat): char
    requires i <= |s|
  {
    if i < |s| then s[i] else '\0'
  }

  method FormUrldecode(src: string) returns (result: string)
    ensures result == Decode(src)
  {
    hide Decode, HexToChar;
    result := "";
    var i := 0;
    assert src[0..] == src;
    while i < |src|
      invariant 0 <= i <= |src|
      invariant result + Decode(src[i..]) == Decode(src)
      decreases |src| - i
    {
      DecodeNext(src, i);
      EscapeAt(src, i);
      ghost var before, start := result, i;
      if src[i] == '+' {
        result := result + " ";
      } else if src[i] == '%' && |src| - i >= 2 && IsHex(CharAt(src, i + 1)) && IsHex(CharAt(src, i + 2)) {
        result := result + [HexToChar(src[i + 1], src[i + 2])];
        i := i + 2;
      } else {
        result := result + [src[i]];
      }
      i := i + 1;
      Associative(before, result[|before|..], Decode(src[i..]));
      assert result == before + result[|before|..];
    }
    assert src[i..] == "";
    DecodeNothing();
  }

  /** The test for an escape never looks further than the terminating NUL. */
  lemma EscapeAt(src: string, i: nat)
    requires i < |src|
    ensures Escape(src[i..]) <==>
            src[i] == '%' && |src| - i >= 2 && IsHex(CharAt(src, i + 1)) && IsHex(CharAt(src, i + 2))
  {
  }

  lemma DecodeNext(src: string, i: nat)
    requires i < |src|
    ensures Decode(src[i..]) ==
            if src[i] == '+' then " " + Decode(src[i + 1..])
            else if Escape(src[i..]) then [HexToChar(src[i + 1], src[i + 2])] + Decode(src[i + 3..])
            else [src[i]] + Decode(src[i + 1..])
  {
    assert src[i..][1..] == src[i + 1..];
    if |src| - i >= 3 {
      assert src[i..][3..] == src[i + 3..];
    }
  }

  lemma DecodeNothing()
    ensures Decode("") == ""
  {
  }
}
