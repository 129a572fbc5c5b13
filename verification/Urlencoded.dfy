/** Form data of type application/x-www-form-urlencoded: section 17.13.4.1 of HTML 4.01. */
module Urlencoded {
  import opened Common
  import opened CgiUtils

  datatype Pair = Pair(name: string, value: string)

  /** The raw pairs found in the data, and what is left unparsed behind the last '&', if
      anything can be. */
  datatype Scan = Scan(pieces: seq<Pair>, rest: Option<string>)

  function ScanForm(d: string): Scan
    decreases |d|
  {
    match IndexOf(d, '=')
    case None => Scan([], Some(d))
    case Some(p) =>
      var after := d[p + 1..];
      match IndexOf(after, '&')
      case None => Scan([Pair(d[..p], after)], None)
      case Some(q) =>
        var tail := ScanForm(after[q + 1..]);
        Scan([Pair(d[..p], after[..q])] + tail.pieces, tail.rest)
  }

  /** The text that pairs and a rest make up. */
  function Join(s: Scan): string
    decreases |s.pieces|
  {
    if s.pieces == [] then (match s.rest case None => "" case Some(r) => r)
    else
      var more := if |s.pieces| > 1 || s.rest.Some? then "&" + Join(Scan(s.pieces[1..], s.rest)) else "";
      s.pieces[0].name + ("=" + (s.pieces[0].value + more))
  }

  predicate Proper(s: Scan) {
    && (s.pieces == [] ==> s.rest.Some?)
    && (s.rest.Some? ==> '=' !in s.rest.value)
    && forall i | 0 <= i < |s.pieces| :: '=' !in s.pieces[i].name && '&' !in s.pieces[i].value
  }

  /** The scanner loses nothing, on any input: its pieces make up the data, no name
      contains '=', no value contains '&', and what is left has no '='. */
  lemma ScanIsLossless(d: string)
    ensures Proper(ScanForm(d)) && Join(ScanForm(d)) == d
  {
    ScanIsProper(d);
    ScanJoins(d);
  }

  lemma {:induction false} ScanIsProper(d: string)
    ensures Proper(ScanForm(d))
    decreases |d|
  {
    var p := IndexOf(d, '=');
    if p.Some? && IndexOf(d[p.value + 1..], '&').Some? {
      ScanIsProper(d[p.value + 1..][IndexOf(d[p.value + 1..], '&').value + 1..]);
    }
  }

  lemma {:induction false} ScanJoins(d: string)
    ensures Join(ScanForm(d)) == d
    decreases |d|
  {
    hide Join, Proper;
    var p := IndexOf(d, '=');
    match p
    case None => JoinNone(d);
    case Some(n) =>
      var after := d[n + 1..];
      CutAt(d, n, '=');
      match IndexOf(after, '&')
      case None => JoinOne(Pair(d[..n], after));
      case Some(q) =>
        CutAt(after, q, '&');
        ScanJoins(after[q + 1..]);
        ScanIsProper(after[q + 1..]);
        JoinOn(Pair(d[..n], after[..q]), ScanForm(after[q + 1..]));
  }

  lemma CutAt(d: string, p: nat, c: char)
    requires p < |d| && d[p] == c
    ensures d[..p] + ([c] + d[p + 1..]) == d
  {
  }

  lemma JoinNone(d: string)
    ensures Join(Scan([], Some(d))) == d
  {
  }

  lemma JoinOne(p: Pair)
    ensures Join(Scan([p], None)) == p.name + ("=" + p.value)
  {
    assert p.value + "" == p.value;
  }

  lemma JoinOn(p: Pair, s: Scan)
    requires Proper(s)
    ensures Join(Scan([p] + s.pieces, s.rest)) == p.name + ("=" + (p.value + ("&" + Join(s))))
  {
    assert ([p] + s.pieces)[1..] == s.pieces;
    JoinHead(Scan([p] + s.pieces, s.rest));
  }

  /** And it is the only such decomposition: proper pieces are found again. */
  lemma {:induction false} ScanUndoesJoin(s: Scan)
    requires Proper(s)
    ensures ScanForm(Join(s)) == s
    decreases |s.pieces|
  {
    hide IndexOf;
    if s.pieces == [] {
      IndexOfAbsent(s.rest.value, '=');
    } else {
      var first := s.pieces[0];
      if |s.pieces| == 1 && s.rest.None? {
        ScanLast(first);
        assert s == Scan([first], None);
        JoinOne(first);
      } else {
        var tail := Scan(s.pieces[1..], s.rest);
        ScanUndoesJoin(tail);
        ScanFirst(first, Join(tail));
        JoinHead(s);
        assert s.pieces == [first] + tail.pieces;
      }
    }
  }

  lemma JoinHead(s: Scan)
    requires s.pieces != [] && (|s.pieces| > 1 || s.rest.Some?)
    ensures Join(s) == s.pieces[0].name + ("=" + (s.pieces[0].value + ("&" + Join(Scan(s.pieces[1..], s.rest)))))
  {
  }

  lemma ScanLast(p: Pair)
    requires '=' !in p.name && '&' !in p.value
    ensures ScanForm(p.name + ("=" + p.value)) == Scan([p], None)
  {
    var d := p.name + ("=" + p.value);
    IndexOfIs(p.name, '=', p.value);
    assert d[..|p.name|] == p.name && d[|p.name| + 1..] == p.value;
    IndexOfAbsent(p.value, '&');
  }

  lemma ScanFirst(p: Pair, more: string)
    requires '=' !in p.name && '&' !in p.value
    ensures ScanForm(p.name + ("=" + (p.value + ("&" + more)))) ==
            Scan([p] + ScanForm(more).pieces, ScanForm(more).rest)
  {
    var after := p.value + ("&" + more);
    var d := p.name + ("=" + after);
    IndexOfIs(p.name, '=', after);
    assert d[..|p.name|] == p.name && d[|p.name| + 1..] == after;
    IndexOfIs(p.value, '&', more);
    assert after[..|p.value|] == p.value && after[|p.value| + 1..] == more;
  }

  // -------------------------------------------------------------- the entries

  function Entries(pieces: seq<Pair>): (r: seq<Pair>)
    ensures |r| == |pieces|
  {
    seq(|pieces|, i requires 0 <= i < |pieces| => Pair(Decode(pieces[i].name), Decode(pieces[i].value)))
  }

  function ParseForm(d: string): seq<Pair> {
    Entries(ScanForm(d).pieces)
  }

  predicate OctetPairs(es: seq<Pair>) {
    forall i | 0 <= i < |es| :: Octets(es[i].name) && Octets(es[i].value)
  }

  /** How a browser writes the entries of a form. */
  function PrintForm(es: seq<Pair>): string
    requires OctetPairs(es)
  {
    Join(Scan(Encoded(es), None))
  }

  function Encoded(es: seq<Pair>): (r: seq<Pair>)
    requires OctetPairs(es)
    ensures |r| == |es|
  {
    seq(|es|, i requires 0 <= i < |es| => Pair(Encode(es[i].name), Encode(es[i].value)))
  }

  lemma EncodedIsPlain(s: string)
    requires Octets(s)
    ensures '=' !in Encode(s) && '&' !in Encode(s)
  {
    EncodedAlphabet(s);
  }

  /** Any list of entries, with any bytes in names and values, repeated or empty ones
      included, is read back as it was written. */
  lemma FormRoundTrip(es: seq<Pair>)
    requires OctetPairs(es)
    ensures ParseForm(PrintForm(es)) == es
  {
    hide IndexOf, Decode, Encode;
    if es == [] {
      IndexOfAbsent("", '=');
      ParseNothing("");
    } else {
      var raw := Encoded(es);
      forall i | 0 <= i < |es| ensures '=' !in raw[i].name && '&' !in raw[i].value && Entries(raw)[i] == es[i] {
        EncodedIsPlain(es[i].name);
        EncodedIsPlain(es[i].value);
        DecodeUndoesEncode(es[i].name);
        DecodeUndoesEncode(es[i].value);
      }
      ScanUndoesJoin(Scan(raw, None));
    }
  }

  // The scanner's steps, on what is left of the data.

  lemma ParseNothing(d: string)
    requires IndexOf(d, '=').None?
    ensures ParseForm(d) == []
  {
  }

  lemma ParseLastPair(d: string, p: nat, after: string)
    requires IndexOf(d, '=') == Some(p) && after == d[p + 1..] && IndexOf(after, '&').None?
    ensures ParseForm(d) == [Pair(Decode(d[..p]), Decode(after))]
  {
    hide IndexOf, Decode;
    assert ScanForm(d).pieces == [Pair(d[..p], after)];
  }

  lemma ParsePair(d: string, p: nat, after: string, q: nat)
    requires IndexOf(d, '=') == Some(p) && after == d[p + 1..] && IndexOf(after, '&') == Some(q)
    ensures ParseForm(d) == [Pair(Decode(d[..p]), Decode(after[..q]))] + ParseForm(after[q + 1..])
  {
    hide IndexOf, Decode;
    var tail := ScanForm(after[q + 1..]).pieces;
    assert ScanForm(d).pieces == [Pair(d[..p], after[..q])] + tail;
    EntriesHead(Pair(d[..p], after[..q]), tail);
  }

  lemma EntriesHead(p: Pair, ps: seq<Pair>)
    ensures Entries([p] + ps) == [Pair(Decode(p.name), Decode(p.value))] + Entries(ps)
  {
  }
}
