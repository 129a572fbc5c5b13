/** The text of a form entry: line breaks brought to one form, within a length limit. */
module FormText {
  import opened Common

  predicate IsBreak(c: char) { c == '\r' || c == '\n' }

  /** The length of the run of line-break characters at the front. */
  function Run(s: string): (n: nat)
    ensures n <= |s| && (n < |s| ==> !IsBreak(s[n]))
    ensures forall i | 0 <= i < n :: IsBreak(s[i])
    ensures s != "" && IsBreak(s[0]) ==> n > 0
  {
    if s == "" || !IsBreak(s[0]) then 0 else 1 + Run(s[1..])
  }

  function Count(c: char, s: string): (n: nat)
    ensures n <= |s|
  {
    if s == "" then 0 else (if s[0] == c then 1 else 0) + Count(c, s[1..])
  }

  function Max(a: nat, b: nat): nat { if a > b then a else b }

  /** The line breaks that a run stands for: the more frequent of its two characters. */
  function Breaks(run: string): nat { Max(Count('\r', run), Count('\n', run)) }

  function Newlines(n: nat): (s: string)
    ensures |s| == n && forall i | 0 <= i < n :: s[i] == '\n'
  {
    seq(n, _ => '\n')
  }

  /** What the loop appends from `s` on, with `len` characters already there. */
  function Rest(s: string, len: nat, maxLen: nat, allowNewlines: bool): string
    decreases |s|
  {
    if s == "" || len >= maxLen then ""
    else if IsBreak(s[0]) then
      var k := if allowNewlines then Breaks(s[..Run(s)]) else 0;
      Newlines(k) + Rest(s[Run(s)..], len + k, maxLen, allowNewlines)
    else [s[0]] + Rest(s[1..], len + 1, maxLen, allowNewlines)
  }

  // ---------------------------------------------------------- reference forms

  /** The text without its line-break characters. */
  function Stripped(s: string): string {
    if s == "" then "" else (if IsBreak(s[0]) then "" else [s[0]]) + Stripped(s[1..])
  }

  /** The text with each run of line-break characters as newlines. */
  function Normal(s: string): string
    decreases |s|
  {
    if s == "" then ""
    else if IsBreak(s[0]) then Newlines(Breaks(s[..Run(s)])) + Normal(s[Run(s)..])
    else [s[0]] + Normal(s[1..])
  }

  /** The first `m` characters, and the rest of the run of line breaks if they end in
      the middle of one. */
  function Cut(t: string, m: int): string {
    if m <= 0 then ""
    else if |t| <= m then t
    else if IsBreak(t[m - 1]) then t[..m + Run(t[m..])]
    else t[..m]
  }

  function Take(t: string, m: int): string {
    if m <= 0 then "" else if |t| <= m then t else t[..m]
  }

  // ------------------------------------------------------------ single steps

  lemma RestAtEnd(s: string, len: nat, maxLen: nat, allowNewlines: bool)
    requires s == "" || len >= maxLen
    ensures Rest(s, len, maxLen, allowNewlines) == ""
  {
  }

  lemma RestOfRun(s: string, len: nat, maxLen: nat, allowNewlines: bool)
    requires s != "" && len < maxLen && IsBreak(s[0])
    ensures 0 < Run(s) <= |s|
    ensures var k := if allowNewlines then Breaks(s[..Run(s)]) else 0;
            Rest(s, len, maxLen, allowNewlines) == Newlines(k) + Rest(s[Run(s)..], len + k, maxLen, allowNewlines)
  {
  }

  lemma RestOfChar(s: string, len: nat, maxLen: nat, allowNewlines: bool)
    requires s != "" && len < maxLen && !IsBreak(s[0])
    ensures Rest(s, len, maxLen, allowNewlines) == [s[0]] + Rest(s[1..], len + 1, maxLen, allowNewlines)
  {
  }

  lemma RestOfSlice(s: string, from: nat, next: nat)
    requires from <= next <= |s|
    ensures s[from..][..next - from] == s[from..next] && s[from..][next - from..] == s[next..]
  {
  }

  lemma MostBreaks(run: string)
    ensures Breaks(run) == if Count('\r', run) > Count('\n', run) then Count('\r', run) else Count('\n', run)
  {
  }

  lemma Nothing(t: string)
    ensures Newlines(0) + t == t
  {
  }

  // ------------------------------------------------------- without line breaks

  lemma {:induction false} StrippedRun(s: string)
    ensures Stripped(s) == Stripped(s[Run(s)..])
  {
    if s != "" && IsBreak(s[0]) {
      StrippedRun(s[1..]);
      assert s[1..][Run(s[1..])..] == s[Run(s)..];
    }
  }

  lemma {:induction false} RestIsStripped(s: string, len: nat, maxLen: nat)
    ensures Rest(s, len, maxLen, false) == Take(Stripped(s), maxLen - len)
    decreases |s|
  {
    if s != "" && len < maxLen {
      if IsBreak(s[0]) {
        StrippedRun(s);
        RestIsStripped(s[Run(s)..], len, maxLen);
        assert Newlines(0) == "";
      } else {
        RestIsStripped(s[1..], len + 1, maxLen);
      }
    }
  }

  // ---------------------------------------------------------- with line breaks

  lemma {:induction false} SomeBreaks(run: string)
    requires forall i | 0 <= i < |run| :: IsBreak(run[i])
    ensures Count('\r', run) + Count('\n', run) == |run|
  {
    if run != "" {
      SomeBreaks(run[1..]);
    }
  }

  lemma {:induction false} NormalHasNoReturn(s: string)
    ensures '\r' !in Normal(s)
    decreases |s|
  {
    if s != "" {
      if IsBreak(s[0]) {
        NormalHasNoReturn(s[Run(s)..]);
      } else {
        NormalHasNoReturn(s[1..]);
      }
    }
  }

  /** The normal form of a text that starts with no line break does not either. */
  lemma NormalFront(s: string)
    ensures s == "" <==> Normal(s) == ""
    ensures s != "" ==> (IsBreak(s[0]) <==> IsBreak(Normal(s)[0]))
  {
    if s != "" && IsBreak(s[0]) {
      SomeBreaks(s[..Run(s)]);
    }
  }

  lemma {:induction false} RunOfNewlines(k: nat, t: string)
    requires t == "" || !IsBreak(t[0])
    ensures Run(Newlines(k) + t) == k
  {
    var s := Newlines(k) + t;
    if k > 0 {
      assert s[1..] == Newlines(k - 1) + t;
      RunOfNewlines(k - 1, t);
    } else {
      assert s == t;
    }
  }

  lemma CutBehindRun(k: nat, t: string, m: int)
    requires k > 0 && m > 0 && (t == "" || !IsBreak(t[0]))
    ensures Cut(Newlines(k) + t, m) == Newlines(k) + Cut(t, m - k)
  {
    hide Run, Newlines;
    var s := Newlines(k) + t;
    if |s| > m {
      if m <= k {
        CutInRun(k, t, m);
      } else {
        CutPastRun(k, t, m);
      }
    }
  }

  lemma CutInRun(k: nat, t: string, m: int)
    requires 0 < m <= k && m < k + |t| && (t == "" || !IsBreak(t[0]))
    ensures Cut(Newlines(k) + t, m) == Newlines(k)
  {
    hide Run;
    var s := Newlines(k) + t;
    assert s[m..] == Newlines(k - m) + t;
    RunOfNewlines(k - m, t);
    assert IsBreak(s[m - 1]);
    assert s[..k] == Newlines(k);
  }

  lemma CutPastRun(k: nat, t: string, m: int)
    requires 0 < k < m < k + |t|
    ensures Cut(Newlines(k) + t, m) == Newlines(k) + Cut(t, m - k)
  {
    hide Run, IsBreak;
    var s := Newlines(k) + t;
    assert s[m..] == t[m - k..] && s[m - 1] == t[m - k - 1];
    var n := if IsBreak(s[m - 1]) then m + Run(s[m..]) else m;
    assert s[..n] == Newlines(k) + t[..n - k];
  }

  lemma CutBehindChar(c: char, t: string, m: int)
    requires m > 0 && !IsBreak(c)
    ensures Cut([c] + t, m) == [c] + Cut(t, m - 1)
  {
    var s := [c] + t;
    if |s| > m {
      assert s[m..] == t[m - 1..];
      var n := if IsBreak(s[m - 1]) then m + Run(s[m..]) else m;
      assert s[..n] == [c] + t[..n - 1];
    }
  }

  lemma NormalOfRun(s: string)
    requires s != "" && IsBreak(s[0])
    ensures 0 < Run(s) <= |s| && Breaks(s[..Run(s)]) > 0
    ensures Normal(s) == Newlines(Breaks(s[..Run(s)])) + Normal(s[Run(s)..])
    ensures Normal(s[Run(s)..]) == "" || !IsBreak(Normal(s[Run(s)..])[0])
  {
    SomeBreaks(s[..Run(s)]);
    NormalFront(s[Run(s)..]);
  }

  lemma {:induction false} RestIsCut(s: string, len: nat, maxLen: nat)
    ensures Rest(s, len, maxLen, true) == Cut(Normal(s), maxLen - len)
    decreases |s|
  {
    hide Cut, Run, Breaks, Newlines, Rest, IsBreak;
    if s == "" || len >= maxLen {
      RestAtEnd(s, len, maxLen, true);
      CutToNothing(Normal(s), maxLen - len);
    } else if IsBreak(s[0]) {
      RestOfRun(s, len, maxLen, true);
      NormalOfRun(s);
      var n := Run(s);
      var k := Breaks(s[..n]);
      RestIsCut(s[n..], len + k, maxLen);
      CutBehindRun(k, Normal(s[n..]), maxLen - len);
    } else {
      RestOfChar(s, len, maxLen, true);
      RestIsCut(s[1..], len + 1, maxLen);
      CutBehindChar(s[0], Normal(s[1..]), maxLen - len);
    }
  }

  lemma CutToNothing(t: string, m: int)
    requires t == "" || m <= 0
    ensures Cut(t, m) == ""
  {
  }

  // -------------------------------------------------------------- idempotence

  lemma {:induction false} CountNewlines(k: nat)
    ensures Count('\n', Newlines(k)) == k && Count('\r', Newlines(k)) == 0
  {
    if k > 0 {
      assert Newlines(k)[1..] == Newlines(k - 1);
      CountNewlines(k - 1);
    }
  }

  /** A text without carriage returns is in normal form already. */
  lemma {:induction false} NormalIsFixed(s: string)
    requires '\r' !in s
    ensures Normal(s) == s
    decreases |s|
  {
    hide Breaks, Newlines, Normal;
    if s == "" {
      NormalOfNothing();
    } else if IsBreak(s[0]) {
      NormalOfRun(s);
      RunIsNewlines(s, Run(s));
      NormalIsFixed(s[Run(s)..]);
    } else {
      NormalOfChar(s);
      NormalIsFixed(s[1..]);
    }
  }

  lemma NormalOfNothing()
    ensures Normal("") == ""
  {
  }

  lemma NormalOfChar(s: string)
    requires s != "" && !IsBreak(s[0])
    ensures Normal(s) == [s[0]] + Normal(s[1..])
  {
  }

  lemma RunIsNewlines(s: string, n: nat)
    requires n <= |s| && '\r' !in s && forall i | 0 <= i < n :: IsBreak(s[i])
    ensures Newlines(Breaks(s[..n])) == s[..n]
  {
    hide Count;
    assert forall i | 0 <= i < n :: s[i] != '\r';
    assert s[..n] == Newlines(n);
    CountNewlines(n);
  }

  lemma CutTwice(t: string, m: int)
    ensures Cut(Cut(t, m), m) == Cut(t, m)
  {
    if 0 < m < |t| && IsBreak(t[m - 1]) {
      var n := m + Run(t[m..]);
      var c := t[..n];
      if m < n {
        assert c[m..] == t[m..][..n - m];
        RunOfAll(c[m..]);
      }
    }
  }

  lemma {:induction false} RunOfAll(s: string)
    requires forall i | 0 <= i < |s| :: IsBreak(s[i])
    ensures Run(s) == |s|
  {
    if s != "" {
      RunOfAll(s[1..]);
    }
  }

  // -------------------------------------------- the three ways to end a line

  /** Lines with something between them. */
  function Join(lines: seq<string>, sep: string): string {
    if lines == [] then "" else if |lines| == 1 then lines[0] else lines[0] + (sep + Join(lines[1..], sep))
  }

  function Glued(lines: seq<string>): string {
    if lines == [] then "" else lines[0] + Glued(lines[1..])
  }

  predicate Plain(s: string) { '\r' !in s && '\n' !in s }

  predicate AllPlain(lines: seq<string>) { forall i | 0 <= i < |lines| :: Plain(lines[i]) }

  function Repeat(sep: string, k: nat): string {
    if k == 0 then "" else sep + Repeat(sep, k - 1)
  }

  lemma {:induction false} CountConcat(c: char, a: string, b: string)
    ensures Count(c, a + b) == Count(c, a) + Count(c, b)
  {
    if a == "" {
      assert a + b == b;
    } else {
      assert (a + b)[1..] == a[1..] + b;
      CountConcat(c, a[1..], b);
    }
  }

  lemma {:induction false} RepeatedBreaks(sep: string, k: nat)
    requires sep in {"\n", "\r", "\r\n"}
    ensures var r := Repeat(sep, k);
            (forall i | 0 <= i < |r| :: IsBreak(r[i])) && Breaks(r) == k && |r| >= k
    ensures Count('\r', Repeat(sep, k)) == (if sep == "\n" then 0 else k)
    ensures Count('\n', Repeat(sep, k)) == (if sep == "\r" then 0 else k)
  {
    if k > 0 {
      RepeatedBreaks(sep, k - 1);
      CountConcat('\r', sep, Repeat(sep, k - 1));
      CountConcat('\n', sep, Repeat(sep, k - 1));
      assert "\n"[1..] == "" && "\r"[1..] == "" && "\r\n"[1..] == "\n";
    }
  }

  /** Some separators, then text that starts with no line break. */
  lemma NormalOfRepeat(sep: string, k: nat, u: string)
    requires sep in {"\n", "\r", "\r\n"} && (u == "" || !IsBreak(u[0]))
    ensures Normal(Repeat(sep, k) + u) == Newlines(k) + Normal(u)
  {
    var r := Repeat(sep, k);
    var s := r + u;
    RepeatedBreaks(sep, k);
    hide Normal, Breaks, Count, Run, Repeat;
    if k == 0 {
      RepeatNone(sep);
      Nothing(Normal(u));
      assert s == u;
    } else {
      assert s[..|r|] == r && s[|r|..] == u;
      assert forall i | 0 <= i < |r| :: s[i] == r[i];
      RunIs(s, |r|);
      NormalOfRun(s);
    }
  }

  lemma RepeatNone(sep: string)
    ensures Repeat(sep, 0) == ""
  {
  }

  lemma StrippedOfChar(s: string)
    requires s != "" && !IsBreak(s[0])
    ensures Stripped(s) == [s[0]] + Stripped(s[1..])
  {
  }

  lemma {:induction false} PlainPasses(line: string, t: string)
    requires Plain(line)
    ensures Normal(line + t) == line + Normal(t)
    ensures Stripped(line + t) == line + Stripped(t)
  {
    hide Normal, Stripped;
    if line == "" {
      assert line + t == t && line + Normal(t) == Normal(t) && line + Stripped(t) == Stripped(t);
    } else {
      assert line == [line[0]] + line[1..] && (line + t)[1..] == line[1..] + t;
      PlainPasses(line[1..], t);
      NormalOfChar(line + t);
      StrippedOfChar(line + t);
      Associative([line[0]], line[1..], Normal(t));
      Associative([line[0]], line[1..], Stripped(t));
    }
  }

  /** The separators at the front of some joined lines, and what follows them. */
  lemma {:induction false} LeadingSeparators(lines: seq<string>, sep: string) returns (k: nat, u: string)
    requires AllPlain(lines) && sep in {"\n", "\r", "\r\n"}
    ensures Join(lines, sep) == Repeat(sep, k) + u && (u == "" || !IsBreak(u[0]))
    decreases |lines|
  {
    var s := Join(lines, sep);
    if lines == [] || lines[0] != "" || |lines| == 1 {
      k, u := 0, s;
      assert s == "" + s;
      if lines != [] && lines[0] != "" {
        assert s[0] == lines[0][0] && Plain(lines[0]);
      }
    } else {
      var more, v := LeadingSeparators(lines[1..], sep);
      k, u := more + 1, v;
      assert s == sep + Join(lines[1..], sep);
      Associative(sep, Repeat(sep, more), v);
    }
  }

  /** One more separator in front is one more newline. */
  lemma NormalOfSeparator(lines: seq<string>, sep: string)
    requires AllPlain(lines) && sep in {"\n", "\r", "\r\n"}
    ensures Normal(sep + Join(lines, sep)) == "\n" + Normal(Join(lines, sep))
  {
    hide Normal, Join, AllPlain, IsBreak, Newlines;
    var k, u := LeadingSeparators(lines, sep);
    NormalOfRepeat(sep, k, u);
    NormalOfRepeat(sep, k + 1, u);
    Associative(sep, Repeat(sep, k), u);
    OneMoreNewline(k, Normal(u));
  }

  lemma OneMoreNewline(k: nat, t: string)
    ensures Newlines(k + 1) + t == "\n" + (Newlines(k) + t)
  {
    assert Newlines(k + 1) == "\n" + Newlines(k);
    Associative("\n", Newlines(k), t);
  }

  /** Whichever of the three ways ends the lines, empty ones included: with newlines they
      come out ended by newlines, and without they come out glued together. */
  lemma {:induction false} LinesAreNormalised(lines: seq<string>, sep: string)
    requires AllPlain(lines) && sep in {"\n", "\r", "\r\n"}
    ensures Normal(Join(lines, sep)) == Join(lines, "\n")
    ensures Stripped(Join(lines, sep)) == Glued(lines)
    decreases |lines|
  {
    hide Normal, Stripped, Plain, Run;
    if lines == [] {
      NormalOfNothing();
      NothingStripped();
    } else if |lines| == 1 {
      assert lines[0] + "" == lines[0] && lines[1..] == [];
      PlainPasses(lines[0], "");
      NormalOfNothing();
      NothingStripped();
    } else {
      var more := Join(lines[1..], sep);
      LinesAreNormalised(lines[1..], sep);
      PlainPasses(lines[0], sep + more);
      NormalOfSeparator(lines[1..], sep);
      SeparatorStripped(sep, more);
    }
  }

  lemma NothingStripped()
    ensures Stripped("") == ""
  {
  }

  lemma SeparatorStripped(sep: string, t: string)
    requires sep in {"\n", "\r", "\r\n"}
    ensures Stripped(sep + t) == Stripped(t)
  {
    assert ("\n" + t)[1..] == t && ("\r" + t)[1..] == t && ("\r\n" + t)[1..] == "\n" + t;
    assert "" + Stripped(t) == Stripped(t);
  }

  lemma {:induction false} CountIsMultiplicity(c: char, s: string)
    ensures Count(c, s) == multiset(s)[c]
  {
    if s != "" {
      assert s == [s[0]] + s[1..];
      CountIsMultiplicity(c, s[1..]);
    }
  }

  /** A run that mixes the kinds is as many newlines as it has of the more frequent one. */
  lemma MixedRun(run: string, t: string)
    requires run != "" && (forall i | 0 <= i < |run| :: run[i] == '\r' || run[i] == '\n')
    requires t == "" || (t[0] != '\r' && t[0] != '\n')
    ensures var cr, lf := multiset(run)['\r'], multiset(run)['\n'];
            Normal(run + t) == Newlines(if cr > lf then cr else lf) + Normal(t)
  {
    hide Normal, Count, Run;
    var s := run + t;
    assert s[..|run|] == run && s[|run|..] == t;
    assert forall i | 0 <= i < |run| :: s[i] == run[i];
    RunIs(s, |run|);
    NormalOfRun(s);
    CountIsMultiplicity('\r', run);
    CountIsMultiplicity('\n', run);
  }

  // ---------------------------------------------------------------- the entry

  function MakeString(value: string, maxLen: nat, allowNewlines: bool): string {
    Rest(value, 0, maxLen, allowNewlines)
  }

  /** Without newlines: the first `maxLen` characters of the text without its line
      breaks. With newlines: the text's normal form, cut at `maxLen` but never inside a
      run of line breaks. */
  lemma MakeStringIs(value: string, maxLen: nat)
    ensures MakeString(value, maxLen, false) == Take(Stripped(value), maxLen)
    ensures MakeString(value, maxLen, true) == Cut(Normal(value), maxLen)
  {
    hide Rest, Stripped, Normal, Cut, Take;
    RestIsStripped(value, 0, maxLen);
    RestIsCut(value, 0, maxLen);
  }

  /** The result is in normal form, a prefix of the unlimited one, and longer than the
      limit only by newlines; making it again, with the same limit, changes nothing. */
  lemma MakeStringIsStable(value: string, maxLen: nat)
    ensures var r := MakeString(value, maxLen, true);
            && '\r' !in r
            && r <= Normal(value)
            && (|Normal(value)| <= maxLen ==> r == Normal(value))
            && (|Normal(value)| > maxLen ==> |r| >= maxLen)
            && (forall i | maxLen <= i < |r| :: r[i] == '\n')
            && MakeString(r, maxLen, true) == r
  {
    var t := Normal(value);
    var r := Cut(t, maxLen);
    MakeStringIs(value, maxLen);
    NormalHasNoReturn(value);
    assert '\r' !in r;
    NormalIsFixed(r);
    MakeStringIs(r, maxLen);
    CutTwice(t, maxLen);
    if |r| > maxLen && maxLen > 0 {
      var n := Run(t[maxLen..]);
      forall i | maxLen <= i < |r| ensures r[i] == '\n' {
        assert IsBreak(t[maxLen..][i - maxLen]);
        assert r[i] == t[i];
      }
    }
  }

  class FormEntry {
    const name: string
    const value: string

    constructor (name: string, value: string)
      ensures this.name == name && this.value == value
    {
      this.name := name;
      this.value := value;
    }

    method MakeText(maxLen: nat, allowNewlines: bool) returns (dst: string)
      ensures dst == MakeString(value, maxLen, allowNewlines)
    {
      hide Rest, Run, Breaks, Count, IsBreak, Newlines;
      var len: nat := 0;
      var src: nat := 0;
      dst := "";
      ghost var all := Rest(value, 0, maxLen, allowNewlines);
      assert value[0..] == value;
      while src < |value| && len < maxLen
        invariant src <= |value|
        invariant dst + Rest(value[src..], len, maxLen, allowNewlines) == all
        decreases |value| - src
      {
        ghost var rest := value[src..];
        if IsBreak(value[src]) {
          RestOfRun(rest, len, maxLen, allowNewlines);
          var crCount, lfCount, next := CountBreaks(src);
          RestOfSlice(value, src, next);
          var lfsAdd := if crCount > lfCount then crCount else lfCount;
          MostBreaks(value[src..next]);
          if allowNewlines {
            Associative(dst, Newlines(lfsAdd), Rest(value[next..], len + lfsAdd, maxLen, allowNewlines));
            dst := dst + Newlines(lfsAdd);
            len := len + lfsAdd;
          } else {
            Nothing(Rest(value[next..], len, maxLen, allowNewlines));
          }
          src := next;
        } else {
          RestOfChar(rest, len, maxLen, allowNewlines);
          RestOfSlice(value, src, src + 1);
          Associative(dst, [value[src]], Rest(value[src + 1..], len + 1, maxLen, allowNewlines));
          dst := dst + [value[src]];
          len := len + 1;
          src := src + 1;
        }
      }
      RestAtEnd(value[src..], len, maxLen, allowNewlines);
    }

    /** The inner loop: over a run of line breaks, counting each kind. */
    method CountBreaks(from: nat) returns (crCount: nat, lfCount: nat, next: nat)
      requires from <= |value|
      ensures next == from + Run(value[from..]) <= |value|
      ensures crCount == Count('\r', value[from..next]) && lfCount == Count('\n', value[from..next])
    {
      crCount, lfCount, next := 0, 0, from;
      while next < |value| && IsBreak(value[next])
        invariant from <= next <= |value|
        invariant forall i | from <= i < next :: IsBreak(value[i])
        invariant crCount == Count('\r', value[from..next]) && lfCount == Count('\n', value[from..next])
      {
        CountLast('\r', value[from..next], value[next]);
        CountLast('\n', value[from..next], value[next]);
        assert value[from..next] + [value[next]] == value[from..next + 1];
        if value[next] == '\r' {
          crCount := crCount + 1;
        } else {
          lfCount := lfCount + 1;
        }
        next := next + 1;
      }
      RunIs(value[from..], next - from);
    }
  }

  lemma {:induction false} CountLast(c: char, s: string, d: char)
    ensures Count(c, s + [d]) == Count(c, s) + if c == d then 1 else 0
  {
    if s == "" {
      assert s + [d] == [d];
    } else {
      assert (s + [d])[1..] == s[1..] + [d];
      CountLast(c, s[1..], d);
    }
  }

  lemma {:induction false} RunIs(s: string, n: nat)
    requires n <= |s| && (n < |s| ==> !IsBreak(s[n])) && forall i | 0 <= i < n :: IsBreak(s[i])
    ensures Run(s) == n
  {
    if n > 0 {
      RunIs(s[1..], n - 1);
    }
  }
}
