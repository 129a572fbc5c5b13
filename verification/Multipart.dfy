/** Form data of type multipart/form-data: section 5.1.1 of RFC 2046. */
module Multipart {
  import opened Common
  import opened CgiUtils

  const CRLF: string := "\r\n"
  const HEADER_END: string := "\r\n\r\n"

  datatype Entry =
    | Field(name: string, value: string)
    | File(name: string, filename: string, contentType: string, value: string)

  function Sep1(boundary: string): string { "--" + boundary + CRLF }

  function Sep2(boundary: string): string { "--" + boundary + "--" + CRLF }

  // -------------------------------------------------------------- the parser

  /** The pieces of the data behind the first separator: those that end at a
      separator, then the one that ends at the closing separator, if there is one. */
  function Slices(d: string, boundary: string): seq<string>
    decreases |d|
  {
    match Find(d, Sep1(boundary), 0)
    case Some(p) => [d[..p]] + Slices(d[p + |Sep1(boundary)|..], boundary)
    case None =>
      match Find(d, Sep2(boundary), 0)
      case Some(p) => [d[..p]]
      case None => []
  }

  lemma SlicesNext(d: string, boundary: string, p: nat, rest: string)
    requires Find(d, Sep1(boundary), 0) == Some(p) && rest == d[p + |Sep1(boundary)|..]
    ensures Slices(d, boundary) == [d[..p]] + Slices(rest, boundary)
  {
  }

  lemma SlicesEnd(d: string, boundary: string)
    requires Find(d, Sep1(boundary), 0).None?
    ensures Slices(d, boundary) ==
            match Find(d, Sep2(boundary), 0) { case Some(p) => [d[..p]] case None => [] }
  {
  }

  /** What stands behind the last two characters of a value belongs to the separator. A
      value shorter than that is kept whole, by the wrap-around of its length. */
  function ValueOf(s: string): string {
    if |s| >= 2 then s[..|s| - 2] else s
  }

  /** One piece: a header, an empty line, the value. */
  function ParseMime(d: string): Option<Entry> {
    match Find(d, HEADER_END, 0)
    case None => None
    case Some(headLimit) =>
      var valueStart := headLimit + 4;
      Some(EntryOf(d[..valueStart], ValueOf(d[valueStart..])))
  }

  function EntryOf(header: string, value: string): Entry {
    var name := Between(header, "name=\"", "\"");
    var filename := Decode(Between(header, "filename=\"", "\""));
    if filename == "" then Field(name, value)
    else File(name, filename, Between(header, TYPE_KEY, HEADER_END), value)
  }

  /** The entries up to the first malformed piece, and whether there is none. */
  function ParseAll(slices: seq<string>): (seq<Entry>, bool) {
    if slices == [] then ([], true)
    else
      match ParseMime(slices[0])
      case None => ([], false)
      case Some(e) =>
        var (es, ok) := ParseAll(slices[1..]);
        ([e] + es, ok)
  }

  /** A position behind what was searched for. When it was not found, the unsigned sum
      of the greatest position and the length wraps around. */
  function Behind(r: Option<nat>, length: nat): nat
    requires length >= 1
  {
    match r case Some(p) => p + length case None => length - 1
  }

  const BOUNDARY_KEY: string := "boundary="

  function BoundaryOf(contentType: string): string
    requires |contentType| >= 8
  {
    contentType[Behind(Find(contentType, BOUNDARY_KEY, 0), |BOUNDARY_KEY|)..]
  }

  function ParseBody(data: string, boundary: string): (seq<Entry>, bool) {
    var start := Behind(Find(data, Sep1(boundary), 0), |Sep1(boundary)|);
    if start > |data| then ([], true) else ParseAll(Slices(data[start..], boundary))
  }

  // ------------------------------------------------------------- the printer

  const FORM_DATA: string := "Content-Disposition: form-data; "
  const DISPOSITION: string := FORM_DATA + "name="
  const FILENAME: string := "; filename="
  const TYPE_KEY: string := "Content-Type: "
  const TYPE: string := CRLF + TYPE_KEY

  /** A quoted name and what follows it. */
  function Quoted(s: string, rest: string): string { ['\"'] + (s + (['\"'] + rest)) }

  /** The header of a part, followed by `rest`. */
  function Header(e: Entry, rest: string): string
    requires Printable(e)
  {
    DISPOSITION + Quoted(e.name,
      match e
      case Field(_, _) => HEADER_END + rest
      case File(_, filename, contentType, _) =>
        FILENAME + Quoted(Encode(filename), TYPE + (contentType + (HEADER_END + rest))))
  }

  function Text(e: Entry): string
    requires Printable(e)
  {
    Header(e, e.value + CRLF)
  }

  predicate AllPrintable(es: seq<Entry>) {
    forall i | 0 <= i < |es| :: Printable(es[i])
  }

  function Body(es: seq<Entry>, boundary: string): string
    requires AllPrintable(es)
  {
    if es == [] then Sep2(boundary) else Sep1(boundary) + (Text(es[0]) + Body(es[1..], boundary))
  }

  /** Names and types that the header syntax can carry. A file's name is encoded. */
  predicate Printable(e: Entry) {
    && '\"' !in e.name && Absent(e.name, HEADER_END)
    && (e.File? ==>
          && !EndsWith(e.name, "filename=")
          && Absent(e.name, TYPE_KEY)
          && e.filename != "" && Octets(e.filename)
          && '\r' !in e.contentType)
  }

  /** No part contains the separator, and the last one not the closing one either. */
  predicate Separable(es: seq<Entry>, boundary: string)
    requires AllPrintable(es)
  {
    && es != [] && '\n' !in boundary
    && (forall i | 0 <= i < |es| :: Absent(Text(es[i]), Sep1(boundary)))
    && Absent(Text(es[|es| - 1]), Sep2(boundary))
  }

  /** A body, letter by letter but for the headers. */
  lemma BodyLayout(e: Entry, es: seq<Entry>, boundary: string)
    requires AllPrintable([e] + es) && AllPrintable(es)
    ensures Printable(e)
    ensures Body([], boundary) == "--" + boundary + "--\r\n"
    ensures Body([e] + es, boundary) ==
            "--" + boundary + "\r\n" + (Header(e, e.value + "\r\n") + Body(es, boundary))
  {
    hide Printable;
    assert ([e] + es)[0] == e && ([e] + es)[1..] == es;
    assert "--" + boundary + "--" + CRLF == "--" + boundary + "--\r\n" by {
      assert "--" + CRLF == "--\r\n";
      Associative("--" + boundary, "--", CRLF);
    }
  }

  predicate AllHyphens(s: string) { forall i | 0 <= i < |s| :: s[i] == '-' }

  // ----------------------------------------------------- reading a header back

  lemma AbsentByChar(a: string, pat: string, k: nat)
    requires k < |pat| && pat[k] !in a
    ensures Absent(a, pat)
  {
    forall i | 0 <= i <= |a| ensures !At(a, pat, i) {
      Mismatch(a, pat, i, k);
    }
  }

  /** Skipping the front of a text, where the opening pattern does not occur. */
  lemma BetweenBehind(d: string, from: nat, open: string, close: string)
    requires from <= |d| && Find(d, open, 0) == Shift(Find(d[from..], open, 0), from)
    ensures Between(d, open, close) == Between(d[from..], open, close)
  {
    hide At, Find;
    match Find(d[from..], open, 0)
    case None =>
    case Some(i) =>
      var start := i + |open|;
      assert d[from..][start..] == d[from + start..];
      FindInRest(d, close, from + start);
      FindInRest(d[from..], close, start);
      var r := Find(d[from..], close, start);
      if r.Some? {
        assert d[from..][start..r.value] == d[from + start..from + r.value];
      }
  }

  lemma BetweenSkip(a: string, b: string, open: string, close: string)
    requires '\"' !in open && open != [] && Absent(a, open)
    ensures Between(a + (['\"'] + b), open, close) == Between(b, open, close)
  {
    var d := a + (['\"'] + b);
    FindBehind(a, '\"', b, open);
    CutBehind(a, '\"', b);
    BetweenBehind(d, |a| + 1, open, close);
  }

  lemma BetweenSkipQuote(a: string, b: string, w: string, close: string)
    requires '\"' !in a && '\"' !in w && !EndsWith(a, w)
    ensures Between(a + (['\"'] + b), w + ['\"'], close) == Between(b, w + ['\"'], close)
  {
    var d := a + (['\"'] + b);
    FindQuoted(a, '\"', b, w);
    CutBehind(a, '\"', b);
    BetweenBehind(d, |a| + 1, w + ['\"'], close);
  }

  /** The quoted text behind `w`, up to the quote that closes it. */
  lemma BetweenQuotes(a: string, w: string, v: string, rest: string)
    requires '\"' !in a && '\"' !in w && '\"' !in v && EndsWith(a, w)
    ensures Between(a + Quoted(v, rest), w + ['\"'], "\"") == v
  {
    hide Find, At;
    var b := v + (['\"'] + rest);
    var d := a + (['\"'] + b);
    FindQuoted(a, '\"', b, w);
    CutBehind(a, '\"', b);
    FindInRest(d, "\"", |a| + 1);
    FindClosing(v, rest);
    QuotedSlice(d, |a| + 1, v, ['\"'] + rest);
  }

  lemma QuotedSlice(d: string, start: nat, v: string, rest: string)
    requires start <= |d| && d[start..] == v + rest
    ensures start + |v| <= |d| && d[start..start + |v|] == v
  {
    assert d[start..start + |v|] == d[start..][..|v|];
  }

  lemma FindClosing(v: string, rest: string)
    requires '\"' !in v
    ensures Find(v + (['\"'] + rest), "\"", 0) == Some(|v|)
  {
    hide Find;
    EndsWithNothing(v);
    FindQuoted(v, '\"', rest, "");
  }

  lemma EndsWithNothing(v: string)
    ensures EndsWith(v, "") && "" + ['\"'] == "\""
  {
    assert v[|v|..] == "";
  }

  /** With no quote behind it, an opened text has no end. */
  lemma BetweenUnclosed(a: string, rest: string, w: string)
    requires '\"' !in a && '\"' !in w && '\"' !in rest
    ensures Between(a + (['\"'] + rest), w + ['\"'], "\"") == ""
  {
    var d := a + (['\"'] + rest);
    FindQuoted(a, '\"', rest, w);
    AbsentByChar(rest, w + ['\"'], |w|);
    NothingFound(rest, w + ['\"'], 0);
    if EndsWith(a, w) {
      CutBehind(a, '\"', rest);
      FindInRest(d, "\"", |a| + 1);
      AbsentByChar(rest, "\"", 0);
      NothingFound(rest, "\"", 0);
    }
  }

  // ------------------------------------------------------ reading a part back

  lemma QuotedSplit(s: string, rest: string, t: string)
    ensures Quoted(s, rest + t) == Quoted(s, rest) + t
  {
  }

  lemma HeaderSplit(e: Entry, t: string)
    requires Printable(e)
    ensures Header(e, t) == Header(e, "") + t
  {
    match e
    case Field(name, _) =>
      assert HEADER_END + "" == HEADER_END;
      QuotedSplit(name, HEADER_END, t);
      Associative(DISPOSITION, Quoted(name, HEADER_END), t);
    case File(name, filename, contentType, _) =>
      var enc := Encode(filename);
      var end := contentType + HEADER_END;
      assert HEADER_END + "" == HEADER_END;
      Associative(contentType, HEADER_END, t);
      Associative(TYPE, end, t);
      QuotedSplit(enc, TYPE + end, t);
      Associative(FILENAME, Quoted(enc, TYPE + end), t);
      QuotedSplit(name, FILENAME + Quoted(enc, TYPE + end), t);
      Associative(DISPOSITION, Quoted(name, FILENAME + Quoted(enc, TYPE + end)), t);
  }

  lemma EndBehindQuoted(a: string, s: string, rest: string)
    requires Absent(a, HEADER_END) && Absent(s, HEADER_END)
    ensures Find(a + Quoted(s, rest), HEADER_END, 0) == Shift(Find(rest, HEADER_END, 0), |a| + |s| + 2)
  {
    hide Find, At;
    var b := s + (['\"'] + rest);
    FindBehind(a, '\"', b, HEADER_END);
    FindBehind(s, '\"', rest, HEADER_END);
  }

  /** The empty line behind a text with no carriage return but those of its first line
      break. */
  lemma EndBehindType(contentType: string, t: string)
    requires '\r' !in contentType
    ensures Find(TYPE + (contentType + (HEADER_END + t)), HEADER_END, 0) == Some(|TYPE| + |contentType|)
    ensures Find(contentType + (HEADER_END + t), HEADER_END, 0) == Some(|contentType|)
  {
    hide Find, At;
    EndBehind(contentType, t, 0);
    EndBehindFirstLine(contentType, HEADER_END + t, TYPE + contentType, t);
  }

  lemma EndBehindFirstLine(contentType: string, end: string, front: string, t: string)
    requires '\r' !in contentType && end == HEADER_END + t && front == TYPE + contentType
    ensures Find(TYPE + (contentType + end), HEADER_END, 0) == Some(|front|)
  {
    hide Find, At;
    Associative(TYPE, contentType, end);
    NoReturnButFirst(contentType);
    NoEndAtType(contentType + end);
    assert !At(front + end, HEADER_END, 0);
    EndBehind(front, t, 1);
  }

  lemma NoReturnButFirst(contentType: string)
    requires '\r' !in contentType
    ensures forall i | 1 <= i < |TYPE + contentType| :: (TYPE + contentType)[i] != '\r'
  {
    forall i | 1 <= i < |TYPE + contentType| ensures (TYPE + contentType)[i] != '\r' {
      if i >= |TYPE| {
        assert (TYPE + contentType)[i] == contentType[i - |TYPE|];
      }
    }
  }

  lemma NoEndAtType(rest: string)
    ensures !At(TYPE + rest, HEADER_END, 0)
  {
    Mismatch(TYPE + rest, HEADER_END, 0, 2);
  }

  lemma EndBehind(front: string, t: string, n: nat)
    requires forall i | n <= i < |front| :: front[i] != '\r'
    requires forall i | 0 <= i < n :: !At(front + (HEADER_END + t), HEADER_END, i)
    requires n <= |front|
    ensures Find(front + (HEADER_END + t), HEADER_END, 0) == Some(|front|)
  {
    var d := front + (HEADER_END + t);
    forall i | 0 <= i < |front| ensures !At(d, HEADER_END, i) {
      if i >= n {
        Mismatch(d, HEADER_END, i, 0);
      }
    }
    assert d[|front|..|front| + 4] == HEADER_END;
    FindIs(d, HEADER_END, 0, |front|);
  }

  lemma EncodedHas(s: string, c: char)
    requires Octets(s) && !Unreserved(c) && c != '+' && c != '%'
    ensures c !in Encode(s)
  {
    EncodedAlphabet(s);
  }

  lemma HeaderEnds(e: Entry, t: string)
    requires Printable(e)
    ensures Find(Header(e, t), HEADER_END, 0) == Some(|Header(e, "")| - 4)
  {
    HeaderEndsAt(e, t);
    HeaderEndsAt(e, "");
    HeaderSplit(e, t);
  }

  function EndOffset(e: Entry): nat
    requires Printable(e)
  {
    |DISPOSITION| + |e.name| + 2 +
    match e
    case Field(_, _) => 0
    case File(_, filename, contentType, _) => |FILENAME| + |Encode(filename)| + 2 + |TYPE| + |contentType|
  }

  lemma HeaderEndsAt(e: Entry, t: string)
    requires Printable(e)
    ensures Find(Header(e, t), HEADER_END, 0) == Some(EndOffset(e))
    ensures |Header(e, "")| == EndOffset(e) + 4
  {
    hide Find, At, Absent, Encode;
    match e
    case Field(name, _) => FieldEndsAt(name, t);
    case File(name, filename, contentType, _) => FileEndsAt(name, filename, contentType, t);
  }

  lemma FieldEndsAt(name: string, t: string)
    requires Absent(name, HEADER_END)
    ensures Find(DISPOSITION + Quoted(name, HEADER_END + t), HEADER_END, 0) == Some(|DISPOSITION| + |name| + 2)
  {
    hide Find;
    AbsentByChar(DISPOSITION, HEADER_END, 0);
    EndBehindQuoted(DISPOSITION, name, HEADER_END + t);
    EndAtStart(t);
  }

  lemma FileEndsAt(name: string, filename: string, contentType: string, t: string)
    requires Absent(name, HEADER_END) && Octets(filename) && '\r' !in contentType
    ensures var end := TYPE + (contentType + (HEADER_END + t));
            var enc := Encode(filename);
            Find(DISPOSITION + Quoted(name, FILENAME + Quoted(enc, end)), HEADER_END, 0) ==
            Some(|DISPOSITION| + |name| + 2 + |FILENAME| + |enc| + 2 + |TYPE| + |contentType|)
  {
    hide Find, At, Encode, Quoted;
    var end := TYPE + (contentType + (HEADER_END + t));
    AbsentByChar(DISPOSITION, HEADER_END, 0);
    EndBehindQuoted(DISPOSITION, name, FILENAME + Quoted(Encode(filename), end));
    EndBehindFilename(filename, end);
    EndBehindType(contentType, t);
  }

  lemma EndAtStart(t: string)
    ensures Find(HEADER_END + t, HEADER_END, 0) == Some(0)
  {
    assert (HEADER_END + t)[0..4] == HEADER_END;
  }

  lemma EndBehindFilename(filename: string, end: string)
    requires Octets(filename)
    ensures var enc := Encode(filename);
            Find(FILENAME + Quoted(enc, end), HEADER_END, 0) ==
            Shift(Find(end, HEADER_END, 0), |FILENAME| + |enc| + 2)
  {
    AbsentByChar(FILENAME, HEADER_END, 0);
    EncodedHas(filename, '\r');
    AbsentByChar(Encode(filename), HEADER_END, 0);
    EndBehindQuoted(FILENAME, Encode(filename), end);
  }

  lemma NameOfHeader(e: Entry, t: string)
    requires Printable(e)
    ensures Between(Header(e, t), "name=\"", "\"") == e.name
  {
    assert "name=" + ['\"'] == "name=\"";
    assert DISPOSITION[|FORM_DATA|..] == "name=";
    BetweenQuotes(DISPOSITION, "name=", e.name,
      match e
      case Field(_, _) => HEADER_END + t
      case File(_, filename, contentType, _) =>
        FILENAME + Quoted(Encode(filename), TYPE + (contentType + (HEADER_END + t))));
  }

  lemma NoFilenameYet()
    ensures !EndsWith(DISPOSITION, "filename=") && EndsWith(FILENAME, "filename=")
  {
    var n := |DISPOSITION| - 9;
    assert DISPOSITION[n..][3] == DISPOSITION[n + 3] == FORM_DATA[|FORM_DATA| - 1] == ' ';
  }

  lemma FilenameOfHeader(e: Entry)
    requires Printable(e)
    ensures Between(Header(e, ""), "filename=\"", "\"") == if e.File? then Encode(e.filename) else ""
  {
    hide Find, At;
    var w := "filename=";
    assert w + ['\"'] == "filename=\"";
    NoFilenameYet();
    match e
    case Field(name, _) =>
      var b := name + (['\"'] + (HEADER_END + ""));
      BetweenSkipQuote(DISPOSITION, b, w, "\"");
      BetweenUnclosed(name, HEADER_END + "", w);
    case File(name, filename, contentType, _) =>
      var enc := Encode(filename);
      var end := TYPE + (contentType + (HEADER_END + ""));
      BetweenSkipQuote(DISPOSITION, name + (['\"'] + (FILENAME + Quoted(enc, end))), w, "\"");
      BetweenSkipQuote(name, FILENAME + Quoted(enc, end), w, "\"");
      EncodedHas(filename, '\"');
      BetweenQuotes(FILENAME, w, enc, end);
  }

  lemma TypeOfHeader(e: Entry)
    requires Printable(e) && e.File?
    ensures Between(Header(e, ""), TYPE_KEY, HEADER_END) == e.contentType
  {
    var enc := Encode(e.filename);
    var end := e.contentType + (HEADER_END + "");
    var quoted := FILENAME + Quoted(enc, TYPE + end);
    AbsentByChar(DISPOSITION, TYPE_KEY, 8);
    BetweenSkip(DISPOSITION, e.name + (['\"'] + quoted), TYPE_KEY, HEADER_END);
    BetweenSkip(e.name, quoted, TYPE_KEY, HEADER_END);
    AbsentByChar(FILENAME, TYPE_KEY, 8);
    BetweenSkip(FILENAME, enc + (['\"'] + (TYPE + end)), TYPE_KEY, HEADER_END);
    EncodedHas(e.filename, ' ');
    AbsentByChar(enc, TYPE_KEY, 13);
    BetweenSkip(enc, TYPE + end, TYPE_KEY, HEADER_END);
    BetweenType(e.contentType);
  }

  lemma BetweenType(contentType: string)
    requires '\r' !in contentType
    ensures Between(TYPE + (contentType + (HEADER_END + "")), TYPE_KEY, HEADER_END) == contentType
  {
    hide At, Find;
    var end := contentType + (HEADER_END + "");
    var d := TYPE + end;
    FindType(end);
    CutType(end);
    FindInRest(d, HEADER_END, |TYPE|);
    EndBehindType(contentType, "");
    assert end[..|contentType|] == contentType;
    assert d[|TYPE|..|TYPE| + |contentType|] == d[|TYPE|..][..|contentType|];
  }

  lemma CutType(end: string)
    ensures (TYPE + end)[|TYPE|..] == end
  {
  }

  lemma FindType(end: string)
    ensures Find(TYPE + end, TYPE_KEY, 0) == Some(2)
  {
    var d := TYPE + end;
    Mismatch(d, TYPE_KEY, 0, 0);
    Mismatch(d, TYPE_KEY, 1, 0);
    assert d[2..2 + |TYPE_KEY|] == TYPE_KEY;
    FindIs(d, TYPE_KEY, 0, 2);
  }

  /** A printed header, whatever value text follows it, is read back as its entry. */
  lemma PartRoundTrip(e: Entry, t: string)
    requires Printable(e)
    ensures ParseMime(Header(e, t)) == Some(WithValue(e, if |t| >= 2 then t[..|t| - 2] else t))
  {
    hide Find, Between, Header;
    HeaderEnds(e, t);
    HeaderSplit(e, t);
    NameOfHeader(e, "");
    FilenameOfHeader(e);
    var header := Header(e, "");
    assert Header(e, t)[..|header|] == header && Header(e, t)[|header|..] == t;
    if e.File? {
      TypeOfHeader(e);
      DecodeUndoesEncode(e.filename);
    }
  }

  /** A piece is malformed exactly when it has no empty line. */
  lemma MalformedIff(d: string)
    ensures ParseMime(d).None? <==> Absent(d, "\r\n\r\n")
  {
    hide Absent, At, EntryOf;
    AbsentIff(d, HEADER_END);
  }

  /** Pieces in front of a malformed one are read, those behind it are not. */
  lemma {:induction false} StopsAtMalformed(es: seq<Entry>, bad: string, more: seq<string>)
    requires AllPrintable(es) && Absent(bad, "\r\n\r\n")
    ensures ParseAll(Texts(es) + [bad] + more) == (es, false)
    decreases |es|
  {
    hide ParseMime, Text, Absent, Printable;
    MalformedIff(bad);
    if es == [] {
      assert [] + [bad] + more == [bad] + more;
      assert ([bad] + more)[1..] == more;
    } else {
      StopsAtMalformed(es[1..], bad, more);
      ReadPart(es[0]);
      assert Texts(es) + [bad] + more == [Text(es[0])] + (Texts(es[1..]) + [bad] + more);
      ParseOne(Text(es[0]), Texts(es[1..]) + [bad] + more, es[0]);
      assert [es[0]] + es[1..] == es;
    }
  }

  function Texts(es: seq<Entry>): (ts: seq<string>)
    requires AllPrintable(es)
    ensures |ts| == |es|
  {
    if es == [] then [] else [Text(es[0])] + Texts(es[1..])
  }

  lemma HeaderConstants()
    ensures DISPOSITION + ['\"'] == "Content-Disposition: form-data; name=\""
    ensures (['\"'] + FILENAME) + ['\"'] == "\"; filename=\""
    ensures ['\"'] + TYPE == "\"\r\nContent-Type: "
  {
  }

  lemma RegroupQuoted(a: string, s: string, b: string)
    ensures a + Quoted(s, b) == (a + ['\"']) + (s + (['\"'] + b))
  {
    Associative(a, ['\"'], s + (['\"'] + b));
  }

  /** The header of a part, letter by letter. */
  lemma FieldHeaderText(name: string, value: string, rest: string)
    requires Printable(Field(name, value))
    ensures Header(Field(name, value), rest) ==
            "Content-Disposition: form-data; name=\"" + (name + ("\"" + ("\r\n\r\n" + rest)))
  {
    hide Printable, Quoted;
    HeaderConstants();
    RegroupQuoted(DISPOSITION, name, HEADER_END + rest);
  }

  lemma FileHeaderText(name: string, filename: string, contentType: string, value: string, rest: string)
    requires Printable(File(name, filename, contentType, value))
    ensures Header(File(name, filename, contentType, value), rest) ==
            "Content-Disposition: form-data; name=\"" + (name + ("\"; filename=\"" + (Encode(filename)
            + ("\"\r\nContent-Type: " + (contentType + ("\r\n\r\n" + rest))))))
  {
    assert Octets(filename);
    hide Printable, Encode, Quoted;
    HeaderConstants();
    var tail := contentType + (HEADER_END + rest);
    var enc := Quoted(Encode(filename), TYPE + tail);
    RegroupQuoted(DISPOSITION, name, FILENAME + enc);
    Associative(['\"'], FILENAME, enc);
    RegroupQuoted(['\"'] + FILENAME, Encode(filename), TYPE + tail);
    Associative(['\"'], TYPE, tail);
  }

  function WithValue(e: Entry, value: string): Entry { e.(value := value) }

  // ---------------------------------------------------------- the separators

  function Stem(boundary: string): string { "--" + boundary + "\r" }

  function Stem2(boundary: string): string { "--" + boundary + "--\r" }

  lemma SeparatorsEndInNewline(boundary: string)
    requires '\n' !in boundary
    ensures Sep1(boundary) == Stem(boundary) + ['\n'] && '\n' !in Stem(boundary)
    ensures Sep2(boundary) == Stem2(boundary) + ['\n'] && '\n' !in Stem2(boundary)
    ensures |Sep1(boundary)| == |boundary| + 4 && |Sep2(boundary)| == |boundary| + 6
  {
  }

  /** The closing separator ends with the separator only for a boundary of hyphens. */
  lemma SepInSep2Iff(boundary: string)
    ensures Sep2(boundary)[2..] == Sep1(boundary) <==> AllHyphens(boundary)
  {
    var a, b := boundary + "--", "--" + boundary;
    assert Sep2(boundary)[2..] == a + CRLF;
    assert Sep1(boundary) == b + CRLF;
    assert (a + CRLF)[..|a|] == a && (b + CRLF)[..|b|] == b;
    if AllHyphens(boundary) {
      assert a == b;
    } else if a == b {
      ShiftedByTwo(boundary, |boundary|);
    }
  }

  lemma {:induction false} ShiftedByTwo(s: string, n: nat)
    requires s + "--" == "--" + s && n <= |s|
    ensures forall i | 0 <= i < n :: s[i] == '-'
  {
    if n > 0 {
      ShiftedByTwo(s, n - 1);
      assert s[n - 1] == (s + "--")[n - 1] == ("--" + s)[n - 1];
    }
  }

  /** Where the separator can start in the last part and the closing separator. */
  lemma SepInLast(text: string, boundary: string, j: nat)
    requires '\n' !in boundary && Absent(text, Sep1(boundary))
    ensures At(text + Sep2(boundary), Sep1(boundary), j) <==> j == |text| + 2 && AllHyphens(boundary)
  {
    SeparatorsEndInNewline(boundary);
    var sep1, sep2 := Sep1(boundary), Sep2(boundary);
    var d := text + sep2;
    if j + |sep1| <= |text| {
      AtInFront(text, sep2, sep1, j);
    } else if j == |text| + 2 {
      assert d[j..j + |sep1|] == sep2[2..];
      SepInSep2Iff(boundary);
    } else {
      Mismatch(d, sep1, j, |sep1| - 1);
    }
  }

  lemma LastSlice(text: string, boundary: string)
    requires '\n' !in boundary && Absent(text, Sep1(boundary)) && Absent(text, Sep2(boundary))
    ensures Slices(text + Sep2(boundary), boundary) ==
            [if AllHyphens(boundary) then text + "--" else text]
  {
    hide At, Absent;
    var sep1, sep2 := Sep1(boundary), Sep2(boundary);
    var d := text + sep2;
    forall j | 0 <= j <= |d| ensures At(d, sep1, j) <==> j == |text| + 2 && AllHyphens(boundary) {
      SepInLast(text, boundary, j);
    }
    if AllHyphens(boundary) {
      FindIs(d, sep1, 0, |text| + 2);
      SliceUpTo(text, boundary);
    } else {
      NothingFound(d, sep1, 0);
      ClosingFound(text, boundary);
      assert d[..|text|] == text;
    }
  }

  lemma ClosingFound(text: string, boundary: string)
    requires '\n' !in boundary && Absent(text, Sep2(boundary))
    ensures Find(text + Sep2(boundary), Sep2(boundary), 0) == Some(|text|)
  {
    SeparatorsEndInNewline(boundary);
    FindBeforeLast(text, Stem2(boundary), '\n', "");
    assert text + Sep2(boundary) + "" == text + Sep2(boundary);
  }

  lemma SliceUpTo(text: string, boundary: string)
    requires '\n' !in boundary
    requires Find(text + Sep2(boundary), Sep1(boundary), 0) == Some(|text| + 2)
    ensures Slices(text + Sep2(boundary), boundary) == [text + "--"]
  {
    SeparatorsEndInNewline(boundary);
    var d := text + Sep2(boundary);
    assert d[..|text| + 2] == text + "--";
    assert d[|text| + 2 + |Sep1(boundary)|..] == "";
    AbsentByChar("", Sep1(boundary), 0);
    NothingFound("", Sep1(boundary), 0);
    AbsentByChar("", Sep2(boundary), 0);
    NothingFound("", Sep2(boundary), 0);
  }

  lemma FirstSlice(text: string, boundary: string, more: string)
    requires '\n' !in boundary && Absent(text, Sep1(boundary))
    ensures Slices(text + (Sep1(boundary) + more), boundary) == [text] + Slices(more, boundary)
  {
    SeparatorsEndInNewline(boundary);
    var sep1 := Sep1(boundary);
    var d := text + (sep1 + more);
    FindBeforeLast(text, Stem(boundary), '\n', more);
    assert text + sep1 + more == d;
    assert d[..|text|] == text && d[|text| + |sep1|..] == more;
  }

  // ------------------------------------------------------------ whole bodies

  /** The entry read from the last part: with a boundary of hyphens the closing
      separator is cut two characters late, and the value keeps its line break. */
  function LastRead(e: Entry, boundary: string): Entry {
    if AllHyphens(boundary) then e.(value := e.value + CRLF) else e
  }

  function Read(es: seq<Entry>, boundary: string): seq<Entry>
    requires es != []
  {
    es[..|es| - 1] + [LastRead(es[|es| - 1], boundary)]
  }

  lemma ReadPart(e: Entry)
    requires Printable(e)
    ensures ParseMime(Text(e)) == Some(e)
  {
    PartRoundTrip(e, e.value + CRLF);
    assert (e.value + CRLF)[..|e.value|] == e.value;
  }

  lemma ReadLastPart(e: Entry, boundary: string)
    requires Printable(e)
    ensures ParseMime(if AllHyphens(boundary) then Text(e) + "--" else Text(e)) == Some(LastRead(e, boundary))
  {
    hide ParseMime, Header;
    ReadPart(e);
    if AllHyphens(boundary) {
      var t := e.value + CRLF;
      HeaderSplit(e, t);
      HeaderSplit(e, t + "--");
      Associative(Header(e, ""), t, "--");
      PartRoundTrip(e, t + "--");
      assert (t + "--")[..|t|] == t;
    }
  }

  lemma {:induction false} ReadBody(es: seq<Entry>, boundary: string)
    requires AllPrintable(es) && Separable(es, boundary)
    ensures ParseAll(Slices(Text(es[0]) + Body(es[1..], boundary), boundary)) == (Read(es, boundary), true)
    decreases |es|
  {
    hide Text, ParseMime, Slices, LastRead, Absent, Printable;
    var text := Text(es[0]);
    if |es| == 1 {
      LastSlice(text, boundary);
      ReadLastPart(es[0], boundary);
      assert Body(es[1..], boundary) == Sep2(boundary);
      ParseOne(if AllHyphens(boundary) then text + "--" else text, [], LastRead(es[0], boundary));
      assert Read(es, boundary) == [LastRead(es[0], boundary)];
    } else {
      var rest := es[1..];
      var more := Text(rest[0]) + Body(rest[1..], boundary);
      assert Body(rest, boundary) == Sep1(boundary) + more;
      FirstSlice(text, boundary, more);
      ReadPart(es[0]);
      assert Separable(rest, boundary) by {
        assert forall i | 0 <= i < |rest| :: rest[i] == es[i + 1];
      }
      ReadBody(rest, boundary);
      ParseOne(text, Slices(more, boundary), es[0]);
      assert Read(es, boundary) == [es[0]] + Read(rest, boundary);
    }
  }

  lemma ParseOne(slice: string, more: seq<string>, e: Entry)
    requires ParseMime(slice) == Some(e)
    ensures ParseAll([slice] + more) == ([e] + ParseAll(more).0, ParseAll(more).1)
    ensures ParseAll([slice]) == ([e], true)
  {
    hide ParseMime;
    assert ([slice] + more)[1..] == more;
    assert [slice][1..] == [];
    assert ParseAll([]) == ([], true);
    assert [e] + [] == [e];
  }

  lemma BodyStarts(boundary: string, more: string)
    requires '\n' !in boundary
    ensures Find(Sep1(boundary) + more, Sep1(boundary), 0) == Some(0)
    ensures (Sep1(boundary) + more)[|Sep1(boundary)|..] == more
  {
    var d := Sep1(boundary) + more;
    assert d[0..|Sep1(boundary)|] == Sep1(boundary);
    FindIs(d, Sep1(boundary), 0, 0);
  }

  lemma BodyIsRead(es: seq<Entry>, boundary: string)
    requires AllPrintable(es) && Separable(es, boundary)
    ensures ParseBody(Body(es, boundary), boundary) == (Read(es, boundary), true)
  {
    hide Text, Absent, Printable, Find, Slices;
    var more := Text(es[0]) + Body(es[1..], boundary);
    assert Body(es, boundary) == Sep1(boundary) + more;
    BodyStarts(boundary, more);
    SeparatorsEndInNewline(boundary);
    ReadBody(es, boundary);
  }

  /** What stands in front of the first separator is ignored. */
  lemma PreambleIsIgnored(before: string, es: seq<Entry>, boundary: string)
    requires AllPrintable(es) && es != [] && '\n' !in boundary && Absent(before, Sep1(boundary))
    ensures ParseBody(before + Body(es, boundary), boundary) == ParseBody(Body(es, boundary), boundary)
  {
    hide Text, Absent, Printable, Find, Slices, ParseAll;
    var more := Text(es[0]) + Body(es[1..], boundary);
    var sep1 := Sep1(boundary);
    assert Body(es, boundary) == sep1 + more;
    BodyStarts(boundary, more);
    SeparatorsEndInNewline(boundary);
    FindBeforeLast(before, Stem(boundary), '\n', more);
    Associative(before, sep1, more);
    var data := before + (sep1 + more);
    assert data[|before| + |sep1|..] == more;
  }

  /** A body without its closing separator. */
  function Unclosed(es: seq<Entry>, boundary: string): string
    requires AllPrintable(es)
  {
    if es == [] then "" else Sep1(boundary) + (Text(es[0]) + Unclosed(es[1..], boundary))
  }

  lemma {:induction false} UnclosedSlices(es: seq<Entry>, boundary: string)
    requires AllPrintable(es) && Separable(es, boundary)
    ensures ParseAll(Slices(Text(es[0]) + Unclosed(es[1..], boundary), boundary)) == (es[..|es| - 1], true)
    decreases |es|
  {
    hide Text, ParseMime, Slices, Absent, Printable;
    var text := Text(es[0]);
    if |es| == 1 {
      assert Unclosed(es[1..], boundary) == "" && text + "" == text;
      AbsentIff(text, Sep1(boundary));
      AbsentIff(text, Sep2(boundary));
      SlicesEnd(text, boundary);
    } else {
      var rest := es[1..];
      var more := Text(rest[0]) + Unclosed(rest[1..], boundary);
      assert Unclosed(rest, boundary) == Sep1(boundary) + more;
      FirstSlice(text, boundary, more);
      ReadPart(es[0]);
      assert Separable(rest, boundary) by {
        assert forall i | 0 <= i < |rest| :: rest[i] == es[i + 1];
      }
      UnclosedSlices(rest, boundary);
      ParseOne(text, Slices(more, boundary), es[0]);
      assert es[..|es| - 1] == [es[0]] + rest[..|rest| - 1];
    }
  }

  /** Without the closing separator the last part is lost, and no error is raised. */
  lemma UnclosedLosesLast(es: seq<Entry>, boundary: string)
    requires AllPrintable(es) && Separable(es, boundary)
    ensures ParseBody(Unclosed(es, boundary), boundary) == (es[..|es| - 1], true)
  {
    hide Text, Absent, Printable, Find, Slices, ParseAll;
    var more := Text(es[0]) + Unclosed(es[1..], boundary);
    assert Unclosed(es, boundary) == Sep1(boundary) + more;
    BodyStarts(boundary, more);
    SeparatorsEndInNewline(boundary);
    UnclosedSlices(es, boundary);
  }

  /** Without a first separator, and without the key of the boundary, searching goes on at
      a position that the wrap-around of an unsigned sum gives. */
  lemma WrapAround(data: string, boundary: string, contentType: string)
    requires |contentType| >= 8
    ensures Absent(data, Sep1(boundary)) && |boundary| + 3 <= |data| ==>
              ParseBody(data, boundary) == ParseAll(Slices(data[|boundary| + 3..], boundary))
    ensures Absent(data, Sep1(boundary)) && |boundary| + 3 > |data| ==> ParseBody(data, boundary) == ([], true)
    ensures Absent(contentType, "boundary=") ==> BoundaryOf(contentType) == contentType[8..]
  {
    hide Absent, At, Slices, ParseAll;
    AbsentIff(data, Sep1(boundary));
    AbsentIff(contentType, BOUNDARY_KEY);
    assert |Sep1(boundary)| == |boundary| + 4;
  }

  // ------------------------------------------------- the condition is exact

  lemma {:induction false} ParseAllCount(slices: seq<string>)
    ensures ParseAll(slices).1 ==> |ParseAll(slices).0| == |slices|
  {
    hide ParseMime;
    if slices != [] {
      ParseAllCount(slices[1..]);
    }
  }

  lemma FindInFront(a: string, b: string, pat: string)
    requires Find(a, pat, 0).Some?
    ensures Find(a + b, pat, 0) == Find(a, pat, 0)
  {
    hide At;
    var p := Find(a, pat, 0).value;
    forall j | 0 <= j <= p ensures At(a + b, pat, j) <==> At(a, pat, j) {
      AtInFront(a, b, pat, j);
    }
    FindIs(a + b, pat, 0, p);
  }

  lemma AbsentIff(a: string, pat: string)
    ensures Absent(a, pat) <==> Find(a, pat, 0).None?
  {
    hide At;
    var r := Find(a, pat, 0);
    if r.None? {
    } else {
      assert At(a, pat, r.value);
    }
  }

  /** A separator inside a text, which is followed by `more`, makes another slice. */
  lemma InnerSlice(text: string, boundary: string, more: string) returns (rest: string)
    requires !Absent(text, Sep1(boundary))
    ensures |rest| < |text|
    ensures |Slices(text + more, boundary)| == 1 + |Slices(rest + more, boundary)|
  {
    hide Find, Slices, Absent;
    var sep1 := Sep1(boundary);
    AbsentIff(text, sep1);
    FindInFront(text, more, sep1);
    var p := Find(text, sep1, 0).value;
    rest := text[p + |sep1|..];
    assert (text + more)[p + |sep1|..] == rest + more;
    SlicesNext(text + more, boundary, p, rest + more);
  }

  lemma {:induction false} TextSlices(text: string, boundary: string, more: string)
    requires '\n' !in boundary
    ensures var n := |Slices(text + (Sep1(boundary) + more), boundary)|;
            n >= 1 + |Slices(more, boundary)| && (n == 1 + |Slices(more, boundary)| <==> Absent(text, Sep1(boundary)))
    decreases |text|
  {
    hide Slices, Absent;
    if Absent(text, Sep1(boundary)) {
      FirstSlice(text, boundary, more);
    } else {
      var rest := InnerSlice(text, boundary, Sep1(boundary) + more);
      TextSlices(rest, boundary, more);
    }
  }

  lemma LastSlices(text: string, boundary: string)
    ensures |Slices(text + Sep2(boundary), boundary)| >= 1
    ensures !Absent(text, Sep1(boundary)) ==> |Slices(text + Sep2(boundary), boundary)| >= 2
  {
    SomeSlice(text, boundary);
    hide Slices, Absent;
    if !Absent(text, Sep1(boundary)) {
      var rest := InnerSlice(text, boundary, Sep2(boundary));
      SomeSlice(rest, boundary);
    }
  }

  lemma SomeSlice(text: string, boundary: string)
    ensures |Slices(text + Sep2(boundary), boundary)| >= 1
  {
    var d, sep2 := text + Sep2(boundary), Sep2(boundary);
    assert d[|text|..|text| + |sep2|] == sep2;
    assert At(d, sep2, |text|);
  }

  /** There are at least as many slices as parts, and more if a part contains the
      separator. */
  lemma {:induction false} BodySlices(es: seq<Entry>, boundary: string)
    requires AllPrintable(es) && es != [] && '\n' !in boundary
    ensures var n := |Slices(Text(es[0]) + Body(es[1..], boundary), boundary)|;
            n >= |es| && (n == |es| ==> forall i | 0 <= i < |es| :: Absent(Text(es[i]), Sep1(boundary)))
    decreases |es|
  {
    hide Text, Slices, Absent, Printable;
    if |es| == 1 {
      LastSlices(Text(es[0]), boundary);
      assert Body(es[1..], boundary) == Sep2(boundary);
    } else {
      var rest := es[1..];
      var more := Text(rest[0]) + Body(rest[1..], boundary);
      assert Body(rest, boundary) == Sep1(boundary) + more;
      TextSlices(Text(es[0]), boundary, more);
      BodySlices(rest, boundary);
      assert forall i | 0 < i < |es| :: es[i] == rest[i - 1];
    }
  }

  /** A text that is cut short is not read as its entry. */
  lemma ShortPart(e: Entry, p: nat)
    requires Printable(e) && p + 6 <= |Text(e)|
    ensures ParseMime(Text(e)[..p]) != Some(e)
  {
    hide Find, Header, EntryOf;
    var text, front := Text(e), Text(e)[..p];
    var h := Find(front, HEADER_END, 0);
    if h.Some? {
      assert front + text[p..] == text;
      FindInFront(front, text[p..], HEADER_END);
      HeaderEnds(e, e.value + CRLF);
      HeaderSplit(e, e.value + CRLF);
      assert |ValueOf(front[h.value + 4..])| < |e.value|;
      EntryHasValue(front[..h.value + 4], ValueOf(front[h.value + 4..]));
    }
  }

  lemma EntryHasValue(header: string, value: string)
    ensures EntryOf(header, value).value == value
  {
  }

  /** The closing separator inside the last part cuts it short. */
  lemma {:induction false} CutBody(es: seq<Entry>, boundary: string)
    requires AllPrintable(es) && es != [] && '\n' !in boundary
    requires forall i | 0 <= i < |es| :: Absent(Text(es[i]), Sep1(boundary))
    requires !Absent(Text(es[|es| - 1]), Sep2(boundary))
    ensures ParseAll(Slices(Text(es[0]) + Body(es[1..], boundary), boundary)) != (es, true)
    decreases |es|
  {
    hide Text, Slices, Absent, ParseMime, Printable;
    var text := Text(es[0]);
    if |es| == 1 {
      var p := CutSlice(text, boundary);
      ShortPart(es[0], p);
      assert Body(es[1..], boundary) == Sep2(boundary);
      assert ParseAll([text[..p]]) != (es, true);
    } else {
      var rest := es[1..];
      var more := Text(rest[0]) + Body(rest[1..], boundary);
      assert Body(rest, boundary) == Sep1(boundary) + more;
      FirstSlice(text, boundary, more);
      CutBody(rest, boundary);
      ReadPart(es[0]);
      ParseOne(text, Slices(more, boundary), es[0]);
      assert ([es[0]] + ParseAll(Slices(more, boundary)).0)[1..] == ParseAll(Slices(more, boundary)).0;
    }
  }

  lemma CutSlice(text: string, boundary: string) returns (p: nat)
    requires '\n' !in boundary && Absent(text, Sep1(boundary)) && !Absent(text, Sep2(boundary))
    ensures p + 6 <= |text| && Slices(text + Sep2(boundary), boundary) == [text[..p]]
  {
    hide At, Absent, Find, Slices;
    var sep1, sep2 := Sep1(boundary), Sep2(boundary);
    var d := text + sep2;
    AbsentIff(text, sep2);
    FindInFront(text, sep2, sep2);
    p := Find(text, sep2, 0).value;
    ClosingHidesSep(text, boundary, p);
    forall j | 0 <= j <= |d| ensures !At(d, sep1, j) {
      SepInLast(text, boundary, j);
    }
    NothingFound(d, sep1, 0);
    SlicesEnd(d, boundary);
    assert d[..p] == text[..p];
  }

  lemma ClosingHidesSep(text: string, boundary: string, p: nat)
    requires At(text, Sep2(boundary), p) && Absent(text, Sep1(boundary))
    ensures !AllHyphens(boundary)
  {
    hide AllHyphens;
    SepInSep2Iff(boundary);
    var sep1, sep2 := Sep1(boundary), Sep2(boundary);
    assert text[p + 2..p + |sep2|] == text[p..p + |sep2|][2..];
    assert !At(text, sep1, p + 2);
  }

  lemma EmptyBody(boundary: string)
    requires '\n' !in boundary
    ensures ParseBody(Body([], boundary), boundary) == ([], true)
  {
    hide At, Find, Slices, Sep1, Sep2;
    var sep2 := Sep2(boundary);
    var start := EmptyStart(boundary);
    TooShort(sep2[start..], Sep1(boundary));
    TooShort(sep2[start..], sep2);
    SlicesEnd(sep2[start..], boundary);
  }

  lemma EmptyStart(boundary: string) returns (start: nat)
    requires '\n' !in boundary
    ensures start == Behind(Find(Sep2(boundary), Sep1(boundary), 0), |Sep1(boundary)|)
    ensures start <= |Sep2(boundary)| && |Sep2(boundary)| < start + |Sep1(boundary)| < start + |Sep2(boundary)|
  {
    hide At, Absent, Find;
    var sep1, sep2 := Sep1(boundary), Sep2(boundary);
    SeparatorsEndInNewline(boundary);
    assert "" + sep2 == sep2;
    AbsentByChar("", sep1, 0);
    forall j | 0 <= j <= |sep2| ensures At(sep2, sep1, j) <==> j == 2 && AllHyphens(boundary) {
      SepInLast("", boundary, j);
    }
    if AllHyphens(boundary) {
      FindIs(sep2, sep1, 0, 2);
      start := |sep2|;
    } else {
      NothingFound(sep2, sep1, 0);
      start := |sep1| - 1;
    }
  }

  lemma TooShort(d: string, pat: string)
    requires |d| < |pat|
    ensures Find(d, pat, 0).None?
  {
    forall i | 0 <= i <= |d| ensures !At(d, pat, i) {
    }
    NothingFound(d, pat, 0);
  }

  /** A multipart body is read back as the entries it was written from exactly when its
      boundary is not made of hyphens only, no part contains the separator, and the last
      one does not contain the closing separator. A body without parts always is. */
  lemma MultipartRoundTripIff(es: seq<Entry>, boundary: string)
    requires AllPrintable(es) && '\n' !in boundary
    ensures ParseBody(Body(es, boundary), boundary) == (es, true) <==>
            es == [] || (!AllHyphens(boundary) && Separable(es, boundary))
  {
    hide ParseBody, Body, Absent, Text, Printable, AllHyphens;
    if es == [] {
      EmptyBody(boundary);
    } else if Separable(es, boundary) {
      BodyIsRead(es, boundary);
      ReadIff(es, boundary);
    } else {
      NotRead(es, boundary);
    }
  }

  lemma NotRead(es: seq<Entry>, boundary: string)
    requires AllPrintable(es) && es != [] && '\n' !in boundary && !Separable(es, boundary)
    ensures ParseBody(Body(es, boundary), boundary) != (es, true)
  {
    hide Absent, Text, Printable, Find, Slices, ParseAll;
    var more := Text(es[0]) + Body(es[1..], boundary);
    assert Body(es, boundary) == Sep1(boundary) + more;
    BodyStarts(boundary, more);
    BodySlices(es, boundary);
    ParseAllCount(Slices(more, boundary));
    if |Slices(more, boundary)| == |es| {
      CutBody(es, boundary);
    }
  }

  lemma ReadIff(es: seq<Entry>, boundary: string)
    requires es != []
    ensures Read(es, boundary) == es <==> !AllHyphens(boundary)
  {
    var n := |es| - 1;
    assert es == es[..n] + [es[n]];
    assert Read(es, boundary)[n] == LastRead(es[n], boundary);
    assert |(es[n].value + CRLF)| == |es[n].value| + 2;
  }

  /** The boundary is what follows its key, even if it contains the key again. */
  lemma BoundaryIsRead(boundary: string)
    ensures BoundaryOf("multipart/form-data; boundary=" + boundary) == boundary
  {
    var front := "multipart/form-data; ";
    var d := front + (BOUNDARY_KEY + boundary);
    forall j | 0 <= j < |front| ensures !At(d, BOUNDARY_KEY, j) {
      Mismatch(d, BOUNDARY_KEY, j, 0);
    }
    assert d[|front|..|front| + |BOUNDARY_KEY|] == BOUNDARY_KEY;
    FindIs(d, BOUNDARY_KEY, 0, |front|);
    assert d[|front| + |BOUNDARY_KEY|..] == boundary;
    assert front + BOUNDARY_KEY == "multipart/form-data; boundary=";
    Associative(front, BOUNDARY_KEY, boundary);
  }
}
