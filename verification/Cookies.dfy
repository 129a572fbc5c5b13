/** The cookie header: section 4.2.1 of RFC 6265, as the parser reads it. */
module Cookies {
  import opened Common
  import opened CgiUtils
  import opened Urlencoded

  function Split(d: string): (r: seq<string>)
    ensures |r| >= 1
    decreases |d|
  {
    match IndexOf(d, ';')
    case None => [d]
    case Some(p) => [d[..p]] + Split(d[p + 1..])
  }

  /** The cookie in one piece: nothing without '='. The leading space is never longer
      than the way to the '='. */
  function CookieOf(s: string): (r: seq<Pair>)
    ensures |r| <= 1
  {
    match IndexOf(s, '=')
    case None => []
    case Some(p) =>
      assert LeadingSpace(s) <= p;
      [Pair(s[LeadingSpace(s)..p], s[p + 1..])]
  }

  function CookiesOf(pieces: seq<string>): seq<Pair> {
    if pieces == [] then [] else CookieOf(pieces[0]) + CookiesOf(pieces[1..])
  }

  function ParseCookies(d: string): seq<Pair> {
    if d == "" then [] else CookiesOf(Split(d))
  }

  function PrintCookies(cs: seq<Pair>): string {
    if cs == [] then ""
    else PrintCookie(cs[0]) + (if |cs| == 1 then "" else "; " + PrintCookies(cs[1..]))
  }

  predicate WellFormed(c: Pair) {
    && '=' !in c.name && ';' !in c.name
    && (c.name == "" || c.name[0] !in {' ', '\t', '\n', '\r', '\U{0B}', '\U{0C}'})
    && ';' !in c.value
  }

  predicate AllWellFormed(cs: seq<Pair>) {
    forall i | 0 <= i < |cs| :: WellFormed(cs[i])
  }

  lemma {:induction false} PiecesHaveNoSemicolon(d: string)
    ensures forall i | 0 <= i < |Split(d)| :: ';' !in Split(d)[i]
    decreases |d|
  {
    var p := IndexOf(d, ';');
    if p.Some? {
      PiecesHaveNoSemicolon(d[p.value + 1..]);
    }
  }

  lemma CookieIsWellFormed(s: string)
    requires ';' !in s
    ensures AllWellFormed(CookieOf(s))
  {
    var p := IndexOf(s, '=');
    if p.Some? {
      var n := LeadingSpace(s);
      var name := s[n..p.value];
      assert name == s[..p.value][n..];
      assert name != "" ==> name[0] == s[n];
    }
  }

  lemma {:induction false} PiecesAreWellFormed(pieces: seq<string>)
    requires forall i | 0 <= i < |pieces| :: ';' !in pieces[i]
    ensures AllWellFormed(CookiesOf(pieces))
  {
    if pieces != [] {
      CookieIsWellFormed(pieces[0]);
      PiecesAreWellFormed(pieces[1..]);
    }
  }

  /** Whatever the header holds, the cookies read from it are well formed. */
  lemma CookiesAreWellFormed(d: string)
    ensures AllWellFormed(ParseCookies(d))
  {
    PiecesHaveNoSemicolon(d);
    PiecesAreWellFormed(Split(d));
  }

  /** White space before the name is skipped, however long it is. */
  lemma CookieOfPrinted(c: Pair, space: string)
    requires WellFormed(c) && forall i | 0 <= i < |space| :: IsSpace(space[i])
    ensures CookieOf(space + c.name + ("=" + c.value)) == [c]
  {
    var front := space + c.name;
    var s := front + ("=" + c.value);
    assert s == space + c.name + ("=" + c.value);
    assert '=' !in front;
    IndexOfIs(front, '=', c.value);
    assert s[|space|] == if c.name == "" then '=' else c.name[0];
    LeadingSpaceIs(s, |space|);
    assert s[|space|..|front|] == c.name && s[|front| + 1..] == c.value;
  }

  function PrintCookie(c: Pair): string { c.name + ("=" + c.value) }

  lemma {:induction false} ParsePrinted(cs: seq<Pair>, space: string)
    requires cs != [] && AllWellFormed(cs) && (space == "" || space == " ")
    ensures CookiesOf(Split(space + PrintCookies(cs))) == cs
    decreases |cs|
  {
    hide IndexOf, CookieOf, CookiesOf, PrintCookies, Split, LeadingSpace;
    var first := space + PrintCookie(cs[0]);
    CookieOfPrinted(cs[0], space);
    RegroupCookie(space, cs[0]);
    PrintHead(cs);
    if |cs| == 1 {
      SplitLast(first);
    } else {
      var more := " " + PrintCookies(cs[1..]);
      RegroupCookies(space, PrintCookie(cs[0]), PrintCookies(cs[1..]));
      SplitFirst(first, more);
      ParsePrinted(cs[1..], " ");
      CookiesOfHead(first, Split(more));
    }
  }

  lemma RegroupCookie(space: string, c: Pair)
    ensures space + PrintCookie(c) == space + c.name + ("=" + c.value)
  {
  }

  lemma RegroupCookies(space: string, first: string, more: string)
    ensures space + (first + ("; " + more)) == space + first + (";" + (" " + more))
  {
    assert "; " + more == ";" + (" " + more);
    assert forall t: string :: space + (first + t) == space + first + t;
  }

  lemma PrintHead(cs: seq<Pair>)
    requires cs != []
    ensures PrintCookies(cs) ==
            if |cs| == 1 then PrintCookie(cs[0]) else PrintCookie(cs[0]) + ("; " + PrintCookies(cs[1..]))
  {
  }

  lemma CookiesOfHead(first: string, more: seq<string>)
    ensures CookiesOf([first] + more) == CookieOf(first) + CookiesOf(more)
  {
    assert ([first] + more)[1..] == more;
  }

  lemma SplitLast(first: string)
    requires ';' !in first
    ensures CookiesOf(Split(first)) == CookieOf(first)
  {
    IndexOfAbsent(first, ';');
    assert [first][1..] == [];
  }

  lemma SplitFirst(first: string, more: string)
    requires ';' !in first
    ensures Split(first + (";" + more)) == [first] + Split(more)
  {
    var d := first + (";" + more);
    IndexOfIs(first, ';', more);
    assert d[..|first|] == first && d[|first| + 1..] == more;
  }

  /** Cookies joined by "; " are read back as they were written exactly when no name has
      an '=', a ';' or leading white space, and no value a ';'. */
  lemma CookieRoundTripIff(cs: seq<Pair>)
    ensures ParseCookies(PrintCookies(cs)) == cs <==> AllWellFormed(cs)
  {
    var d := PrintCookies(cs);
    CookiesAreWellFormed(d);
    if cs != [] && AllWellFormed(cs) {
      ParsePrinted(cs, "");
      assert "" + d == d;
    }
  }

  // ----------------------------------------------------------- any header

  lemma {:induction false} SplitConcat(a: string, b: string)
    ensures CookiesOf(Split(a + (";" + b))) == CookiesOf(Split(a)) + CookiesOf(Split(b))
    decreases |a|
  {
    hide IndexOf, CookieOf, CookiesOf, Split;
    match IndexOf(a, ';')
    case None =>
      SplitLast(a);
      SplitFirst(a, b);
      CookiesOfHead(a, Split(b));
    case Some(p) =>
      var x, y := a[..p], a[p + 1..];
      assert a == x + (";" + y);
      SplitFirst(x, y);
      CookiesOfHead(x, Split(y));
      assert a + (";" + b) == x + (";" + (y + (";" + b)));
      SplitFirst(x, y + (";" + b));
      CookiesOfHead(x, Split(y + (";" + b)));
      SplitConcat(y, b);
      Associative(CookieOf(x), CookiesOf(Split(y)), CookiesOf(Split(b)));
  }

  /** What any header is read as: semicolons separate, a piece without '=' is no cookie,
      and any other is one, whatever of the six kinds of white space stands before it. */
  lemma HeaderLaws(a: string, b: string, space: string, c: Pair)
    requires WellFormed(c)
    requires forall i | 0 <= i < |space| :: space[i] in {' ', '\t', '\n', '\r', '\U{0B}', '\U{0C}'}
    ensures ParseCookies(a + (";" + b)) == ParseCookies(a) + ParseCookies(b)
    ensures ';' !in a && '=' !in a ==> ParseCookies(a) == []
    ensures ParseCookies(space + c.name + ("=" + c.value)) == [c]
  {
    NoCookies();
    SplitConcat(a, b);
    if ';' !in a && '=' !in a {
      SplitLast(a);
      IndexOfAbsent(a, '=');
    }
    var s := space + c.name + ("=" + c.value);
    assert ';' !in s;
    SplitLast(s);
    CookieOfPrinted(c, space);
  }

  lemma NoCookies()
    ensures CookiesOf(Split("")) == []
  {
    IndexOfAbsent("", ';');
    IndexOfAbsent("", '=');
    assert [""][1..] == [];
  }

  // The parser's steps, on what is left of the data.

  lemma CookiesOfLast(d: string)
    requires IndexOf(d, ';').None?
    ensures CookiesOf(Split(d)) == CookieOf(d)
  {
    hide IndexOf, CookieOf;
    assert [d][1..] == [];
  }

  lemma CookiesOfNext(d: string, p: nat)
    requires IndexOf(d, ';') == Some(p)
    ensures CookiesOf(Split(d)) == CookieOf(d[..p]) + CookiesOf(Split(d[p + 1..]))
  {
    hide IndexOf, CookieOf;
    assert Split(d) == [d[..p]] + Split(d[p + 1..]);
    CookiesOfHead(d[..p], Split(d[p + 1..]));
  }

  lemma ParseIsSplit(d: string)
    requires d != ""
    ensures ParseCookies(d) == CookiesOf(Split(d))
  {
  }
}
