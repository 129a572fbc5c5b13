/** The request reader: form data from the query string and the posted body, uploaded
    files, and cookies. */
module Cgicc {
  import opened Common
  import opened CgiUtils
  import opened Urlencoded
  import opened Multipart
  import Cookies

  const STANDARD_TYPE: string := "application/x-www-form-urlencoded"
  const MULTIPART_TYPE: string := "multipart/form-data"

  function ToUpper(c: char): char {
    if 'a' <= c <= 'z' then c - 'a' + 'A' else c
  }

  /** The first `n` characters agree but for case, and are there. */
  predicate SameFront(s1: string, s2: string, n: nat) {
    n <= |s1| && n <= |s2| && forall i | 0 <= i < n :: ToUpper(s1[i]) == ToUpper(s2[i])
  }

  method StringsAreEqual(s1: string, s2: string, n: nat) returns (equal: bool)
    ensures equal <==> SameFront(s1, s2, n)
  {
    var good := n <= |s1| && n <= |s2|;
    var l1 := if good then n else |s1|;
    var l2 := if good then n else |s2|;
    var i := 0;
    while i < l1 && i < l2
      invariant 0 <= i <= l1 && i <= l2
      invariant forall j | 0 <= j < i :: ToUpper(s1[j]) == ToUpper(s2[j])
    {
      if ToUpper(s1[i]) != ToUpper(s2[i]) {
        return false;
      }
      i := i + 1;
    }
    return good;
  }

  function FieldOf(e: Entry): seq<Pair> {
    if e.Field? then [Pair(e.name, e.value)] else []
  }

  function FileOf(e: Entry): seq<Entry> {
    if e.File? then [e] else []
  }

  function Fields(es: seq<Entry>): seq<Pair> {
    if es == [] then [] else FieldOf(es[0]) + Fields(es[1..])
  }

  function Files(es: seq<Entry>): seq<Entry> {
    if es == [] then [] else FileOf(es[0]) + Files(es[1..])
  }

  lemma FieldsAppend(a: seq<Entry>, e: Entry)
    ensures Fields(a + [e]) == Fields(a) + FieldOf(e)
    ensures Files(a + [e]) == Files(a) + FileOf(e)
  {
    hide FieldOf, FileOf, Fields, Files;
    NoParts();
    FieldsConcat(a, [e]);
    FieldsHead(e, []);
    assert [e] + [] == [e] && FieldOf(e) + [] == FieldOf(e) && FileOf(e) + [] == FileOf(e);
  }

  lemma FieldsHead(e: Entry, es: seq<Entry>)
    ensures Fields([e] + es) == FieldOf(e) + Fields(es)
    ensures Files([e] + es) == FileOf(e) + Files(es)
  {
    hide FieldOf, FileOf;
    assert ([e] + es)[1..] == es;
  }

  lemma {:induction false} FieldsConcat(a: seq<Entry>, b: seq<Entry>)
    ensures Fields(a + b) == Fields(a) + Fields(b) && Files(a + b) == Files(a) + Files(b)
  {
    hide FieldOf, FileOf, Fields, Files;
    NoParts();
    if a == [] {
      assert a + b == b;
    } else {
      assert a == [a[0]] + a[1..] && a + b == [a[0]] + (a[1..] + b);
      FieldsHead(a[0], a[1..]);
      FieldsHead(a[0], a[1..] + b);
      FieldsConcat(a[1..], b);
      Associative(FieldOf(a[0]), Fields(a[1..]), Fields(b));
      Associative(FileOf(a[0]), Files(a[1..]), Files(b));
    }
  }

  /** What the posted data of a content type contributes, and whether it is well formed. */
  function Input(data: string, contentType: string): (seq<Entry>, bool) {
    if data == "" then ([], true)
    else if contentType == "" || SameFront(contentType, STANDARD_TYPE, |STANDARD_TYPE|) then
      (AsEntries(ParseForm(data)), true)
    else if SameFront(MULTIPART_TYPE, contentType, |MULTIPART_TYPE|) then
      ParseBody(data, BoundaryOf(contentType))
    else ([], true)
  }

  function AsEntries(ps: seq<Pair>): (es: seq<Entry>)
    ensures |es| == |ps|
  {
    seq(|ps|, i requires 0 <= i < |ps| => Field(ps[i].name, ps[i].value))
  }

  lemma {:induction false} FieldsOfPairs(ps: seq<Pair>)
    ensures Fields(AsEntries(ps)) == ps && Files(AsEntries(ps)) == []
  {
    if ps != [] {
      FieldsOfPairs(ps[1..]);
      assert AsEntries(ps)[1..] == AsEntries(ps[1..]);
    }
  }

  /** One iteration of the scanner of urlencoded data, with another one to follow. */
  lemma PairAt(data: string, oldPos: nat, p: nat, q: nat)
    requires oldPos <= p < q < |data|
    requires IndexOf(data[oldPos..], '=') == Some(p - oldPos)
    requires IndexOf(data[p + 1..], '&') == Some(q - p - 1)
    ensures ParseForm(data[oldPos..]) ==
            [Pair(Decode(data[oldPos..p]), Decode(data[p + 1..q]))] + ParseForm(data[q + 1..])
  {
    hide Decode, ParseForm, IndexOf;
    CutRest(data, oldPos, p);
    CutRest(data, oldPos, p + 1);
    CutRest(data, p + 1, q);
    CutRest(data, p + 1, q + 1);
    ParsePair(data[oldPos..], p - oldPos, data[p + 1..], q - p - 1);
  }

  /** The last iteration. */
  lemma LastPairAt(data: string, oldPos: nat, p: nat)
    requires oldPos <= p < |data|
    requires IndexOf(data[oldPos..], '=') == Some(p - oldPos) && IndexOf(data[p + 1..], '&').None?
    ensures ParseForm(data[oldPos..]) == [Pair(Decode(data[oldPos..p]), Decode(data[p + 1..]))]
  {
    hide Decode, ParseForm, IndexOf;
    CutRest(data, oldPos, p);
    CutRest(data, oldPos, p + 1);
    ParseLastPair(data[oldPos..], p - oldPos, data[p + 1..]);
  }

  /** One iteration over the parts of multipart data. */
  lemma SliceStep(data: string, boundary: string, oldPos: nat)
    requires oldPos <= |data|
    ensures var sep1 := Sep1(boundary);
            match Find(data, sep1, oldPos)
            case Some(p) => Slices(data[oldPos..], boundary) == [data[oldPos..p]] + Slices(data[p + |sep1|..], boundary)
            case None =>
              match Find(data, Sep2(boundary), oldPos)
              case Some(p) => Slices(data[oldPos..], boundary) == [data[oldPos..p]]
              case None => Slices(data[oldPos..], boundary) == []
  {
    hide Find, Slices, Sep1, Sep2;
    var d, sep1 := data[oldPos..], Sep1(boundary);
    FindInRest(data, sep1, oldPos);
    match Find(d, sep1, 0)
    case Some(n) =>
      CutRest(data, oldPos, oldPos + n);
      CutRest(data, oldPos, oldPos + n + |sep1|);
      SlicesNext(d, boundary, n, data[oldPos + n + |sep1|..]);
    case None =>
      FindInRest(data, Sep2(boundary), oldPos);
      SlicesEnd(d, boundary);
      match Find(d, Sep2(boundary), 0)
      case Some(n) => CutRest(data, oldPos, oldPos + n);
      case None =>
  }

  lemma QueryInput(query: string)
    ensures Input(query, "") == (AsEntries(ParseForm(query)), true)
  {
    if query == "" {
      IndexOfAbsent("", '=');
    }
  }

  lemma MultipartIsChosen(boundary: string)
    ensures var t := "multipart/form-data; boundary=" + boundary;
            && t != "" && !SameFront(t, STANDARD_TYPE, |STANDARD_TYPE|)
            && SameFront(MULTIPART_TYPE, t, |MULTIPART_TYPE|)
  {
    var t := "multipart/form-data; boundary=" + boundary;
    assert t[0] == 'm' && STANDARD_TYPE[0] == 'a';
    assert ToUpper(t[0]) != ToUpper(STANDARD_TYPE[0]);
  }

  /** A multipart request, from the printed body and its content type to the entries:
      they are the ones that were written exactly under the conditions on the boundary
      and the parts. */
  lemma MultipartInputIff(es: seq<Entry>, boundary: string)
    requires AllPrintable(es) && '\n' !in boundary
    ensures Input(Body(es, boundary), "multipart/form-data; boundary=" + boundary) == (es, true) <==>
            es == [] || (!AllHyphens(boundary) && Separable(es, boundary))
  {
    hide SameFront, Separable, AllHyphens, Printable, ParseBody, Text;
    MultipartIsChosen(boundary);
    BoundaryIsRead(boundary);
    MultipartRoundTripIff(es, boundary);
    assert Body(es, boundary) != "";
  }

  /** The letters that the comparison of types takes for each other. */
  lemma ToUpperIs(c: char, i: nat)
    requires i < 26
    ensures ToUpper("abcdefghijklmnopqrstuvwxyz"[i]) == "ABCDEFGHIJKLMNOPQRSTUVWXYZ"[i]
    ensures !('a' <= c <= 'z') ==> ToUpper(c) == c
  {
    assert "abcdefghijklmnopqrstuvwxyz"[i] == 'a' + i as char && "ABCDEFGHIJKLMNOPQRSTUVWXYZ"[i] == 'A' + i as char;
  }

  /** A posted form, from its printed body to the entries, under its own content type, in
      any case and with anything behind it, and under none. */
  lemma FormInput(ps: seq<Pair>, contentType: string)
    requires OctetPairs(ps)
    requires contentType == "" || AnyCase(contentType, "application/x-www-form-urlencoded")
    ensures Input(PrintForm(ps), contentType) == (AsEntries(ps), true)
  {
    hide PrintForm, ParseForm;
    FormRoundTrip(ps);
    QueryInput(PrintForm(ps));
    if contentType != "" {
      SameInAnyCase(contentType, STANDARD_TYPE);
    }
  }

  /** The text starts with these small letters, some of them capital. */
  predicate AnyCase(s: string, small: string) {
    |s| >= |small| && forall i | 0 <= i < |small| ::
      s[i] == small[i] || ('a' <= small[i] <= 'z' && s[i] == small[i] - 'a' + 'A')
  }

  lemma SameInAnyCase(s: string, small: string)
    requires AnyCase(s, small)
    ensures SameFront(s, small, |small|)
  {
  }

  /** Data of another type is ignored. */
  lemma OtherTypeIsIgnored(data: string)
    ensures Input(data, "text/plain") == ([], true)
  {
    assert ToUpper("text/plain"[0]) != ToUpper(STANDARD_TYPE[0]);
    assert |"text/plain"| < |MULTIPART_TYPE|;
  }

  /** What becomes of an entry: a field joins the form data with its name and value, a file
      joins the files as it is. */
  lemma EntriesAre(name: string, value: string, filename: string, contentType: string, es: seq<Entry>)
    ensures Fields([Field(name, value)] + es) == [Pair(name, value)] + Fields(es)
    ensures Files([Field(name, value)] + es) == Files(es)
    ensures var f := File(name, filename, contentType, value);
            Fields([f] + es) == Fields(es) && Files([f] + es) == [f] + Files(es)
  {
    hide Fields, Files;
    FieldsHead(Field(name, value), es);
    FieldsHead(File(name, filename, contentType, value), es);
  }

  lemma AsEntriesAre(ps: seq<Pair>, i: nat)
    requires i < |ps|
    ensures AsEntries(ps)[i] == Field(ps[i].name, ps[i].value)
  {
  }

  class Cgicc {
    var formData: seq<Pair>
    var formFiles: seq<Entry>
    var cookies: seq<Pair>

    constructor ()
      ensures formData == [] && formFiles == [] && cookies == []
    {
      formData, formFiles, cookies := [], [], [];
    }

    /** Reads a whole request; a malformed body ends it with an exception. */
    method ReadRequest(query: string, cookie: string, data: string, contentType: string) returns (ok: bool)
      requires formData == [] && formFiles == [] && cookies == []
      modifies this
      ensures ok <==> Input(data, contentType).1
      ensures ok ==> formData == Fields(Input(data, contentType).0) + ParseForm(query)
                     && formFiles == Files(Input(data, contentType).0)
                     && cookies == Cookies.ParseCookies(cookie)
    {
      hide Input, Cookies.ParseCookies, Fields, Files, AsEntries, ParseForm;
      ok := ParseFormInput(data, contentType);
      if !ok {
        return;
      }
      QueryInput(query);
      FieldsOfPairs(ParseForm(query));
      ok := ParseFormInput(query, "");
      ParseCookies(cookie);
    }

    method ParseFormInput(data: string, contentType: string) returns (ok: bool)
      modifies this`formData, this`formFiles
      ensures ok == Input(data, contentType).1
      ensures formData == old(formData) + Fields(Input(data, contentType).0)
      ensures formFiles == old(formFiles) + Files(Input(data, contentType).0)
    {
      if data == "" {
        return true;
      }
      var standard := StringsAreEqual(contentType, STANDARD_TYPE, |STANDARD_TYPE|);
      if contentType == "" || standard {
        ParseUrlencoded(data);
        FieldsOfPairs(ParseForm(data));
        return true;
      }
      var multipart := StringsAreEqual(MULTIPART_TYPE, contentType, |MULTIPART_TYPE|);
      if multipart {
        ok := ParseMultipart(data, BoundaryOf(contentType));
        return;
      }
      return true;
    }

    method ParseUrlencoded(data: string)
      modifies this`formData
      ensures formData == old(formData) + ParseForm(data)
    {
      hide Find, ParseForm, IndexOf, Decode;
      var oldPos := 0;
      assert data[0..] == data;
      while true
        invariant 0 <= oldPos <= |data|
        invariant formData + ParseForm(data[oldPos..]) == old(formData) + ParseForm(data)
        decreases |data| - oldPos
      {
        FindChar(data, '=', oldPos);
        var pos := Find(data, "=", oldPos);
        if pos.None? {
          ParseNothing(data[oldPos..]);
          return;
        }
        var p := pos.value;
        var name := FormUrldecode(data[oldPos..p]);
        FindChar(data, '&', p + 1);
        pos := Find(data, "&", p + 1);
        var value := FormUrldecode(if pos.Some? then data[p + 1..pos.value] else data[p + 1..]);
        formData := formData + [Pair(name, value)];
        if pos.None? {
          LastPairAt(data, oldPos, p);
          return;
        }
        PairAt(data, oldPos, p, pos.value);
        oldPos := pos.value + 1;
      }
    }

    method ParseMultipart(data: string, boundary: string) returns (ok: bool)
      modifies this`formData, this`formFiles
      ensures ok == ParseBody(data, boundary).1
      ensures formData == old(formData) + Fields(ParseBody(data, boundary).0)
      ensures formFiles == old(formFiles) + Files(ParseBody(data, boundary).0)
    {
      var sep1, sep2 := Sep1(boundary), Sep2(boundary);
      var oldPos := Behind(Find(data, sep1, 0), |sep1|);
      if oldPos > |data| {
        return true;
      }
      ok := ParseParts(data, boundary, oldPos);
    }

    method ParseParts(data: string, boundary: string, start: nat) returns (ok: bool)
      requires start <= |data|
      modifies this`formData, this`formFiles
      ensures var r := ParseAll(Slices(data[start..], boundary));
              && ok == r.1
              && formData == old(formData) + Fields(r.0)
              && formFiles == old(formFiles) + Files(r.0)
    {
      hide Find, ParseMime, ParseAll, Slices, Fields, Files, FieldOf, FileOf, Sep1, Sep2;
      ghost var goal := ParseAll(Slices(data[start..], boundary));
      ghost var parsed: seq<Entry> := [];
      var sep1 := Sep1(boundary);
      var oldPos := start;
      NoParts();
      while true
        invariant start <= oldPos <= |data|
        invariant goal.0 == parsed + ParseAll(Slices(data[oldPos..], boundary)).0
        invariant goal.1 == ParseAll(Slices(data[oldPos..], boundary)).1
        invariant formData == old(formData) + Fields(parsed) && formFiles == old(formFiles) + Files(parsed)
        decreases |data| - oldPos
      {
        SliceStep(data, boundary, oldPos);
        var pos := Find(data, sep1, oldPos);
        if pos.None? {
          break;
        }
        var slice, next := data[oldPos..pos.value], pos.value + |sep1|;
        ParseHead(slice, Slices(data[next..], boundary));
        ok := ParseMIME(slice);
        if !ok {
          assert goal.0 == parsed;
          return;
        }
        ghost var e := ParseMime(slice).value;
        FieldsAppend(parsed, e);
        Associative(parsed, [e], ParseAll(Slices(data[next..], boundary)).0);
        parsed := parsed + [e];
        oldPos := next;
      }
      ok := ParseLast(data, boundary, oldPos);
      FieldsConcat(parsed, ParseAll(Slices(data[oldPos..], boundary)).0);
    }

    /** The part that the closing separator ends, if there is one. */
    method ParseLast(data: string, boundary: string, oldPos: nat) returns (ok: bool)
      requires oldPos <= |data| && Find(data, Sep1(boundary), oldPos).None?
      modifies this`formData, this`formFiles
      ensures var r := ParseAll(Slices(data[oldPos..], boundary));
              && ok == r.1
              && formData == old(formData) + Fields(r.0)
              && formFiles == old(formFiles) + Files(r.0)
    {
      hide Find, ParseMime, ParseAll, Slices, Fields, Files, FieldOf, FileOf, Sep1, Sep2;
      NoParts();
      SliceStep(data, boundary, oldPos);
      var pos := Find(data, Sep2(boundary), oldPos);
      if pos.None? {
        return true;
      }
      var slice := data[oldPos..pos.value];
      ParseHead(slice, []);
      assert [slice] + [] == [slice];
      ok := ParseMIME(slice);
      if ok {
        ghost var e := ParseMime(slice).value;
        FieldsAppend([], e);
        assert [] + [e] == [e] + [] && [] + FieldOf(e) == FieldOf(e) && [] + FileOf(e) == FileOf(e);
      }
    }

    /** Reads one part into the entries or the files. */
    method ParseMIME(data: string) returns (ok: bool)
      modifies this`formData, this`formFiles
      ensures ok <==> ParseMime(data).Some?
      ensures !ok ==> formData == old(formData) && formFiles == old(formFiles)
      ensures ok ==> formData == old(formData) + FieldOf(ParseMime(data).value)
                     && formFiles == old(formFiles) + FileOf(ParseMime(data).value)
    {
      hide Find, Between, IsBetween, Decode;
      var headLimit := Find(data, HEADER_END, 0);
      if headLimit.None? {
        return false;
      }
      var valueStart := headLimit.value + |HEADER_END|;
      var value := ValueOf(data[valueStart..]);
      var header := data[..valueStart];
      var name := ExtractBetween(header, "name=\"", "\"");
      var encoded := ExtractBetween(header, "filename=\"", "\"");
      var contentType := ExtractBetween(header, TYPE_KEY, HEADER_END);
      BetweenIs(header, "name=\"", "\"", name);
      BetweenIs(header, "filename=\"", "\"", encoded);
      BetweenIs(header, TYPE_KEY, HEADER_END, contentType);
      var filename := FormUrldecode(encoded);
      if filename == "" {
        formData := formData + [Pair(name, value)];
      } else {
        formFiles := formFiles + [File(name, filename, contentType, value)];
      }
      return true;
    }

    method ParseCookies(data: string)
      modifies this`cookies
      ensures cookies == old(cookies) + Cookies.ParseCookies(data)
    {
      hide Find, IndexOf, Cookies.Split, Cookies.CookieOf, Cookies.CookiesOf;
      if data == "" {
        return;
      }
      Cookies.ParseIsSplit(data);
      var oldPos := 0;
      assert data[0..] == data;
      while true
        invariant 0 <= oldPos <= |data|
        invariant cookies + Cookies.CookiesOf(Cookies.Split(data[oldPos..])) == old(cookies) + Cookies.ParseCookies(data)
        decreases |data| - oldPos
      {
        CookieStep(data, oldPos);
        var pos := Find(data, ";", oldPos);
        if pos.None? {
          ParseCookie(data[oldPos..]);
          return;
        }
        ParseCookie(data[oldPos..pos.value]);
        oldPos := pos.value + 1;
      }
    }

    method ParseCookie(data: string)
      modifies this`cookies
      ensures cookies == old(cookies) + Cookies.CookieOf(data)
    {
      var pos := Find(data, "=", 0);
      if pos.None? {
        return;
      }
      var wscount := 0;
      while wscount < |data| && IsSpace(data[wscount])
        invariant 0 <= wscount <= |data|
        invariant forall i | 0 <= i < wscount :: IsSpace(data[i])
      {
        wscount := wscount + 1;
      }
      assert wscount <= pos.value by {
        assert data[pos.value] == '=';
      }
      LeadingSpaceIs(data, wscount);
      cookies := cookies + [Pair(data[wscount..pos.value], data[pos.value + 1..])];
    }
  }

  lemma NoParts()
    ensures Fields([]) == [] && Files([]) == [] && ParseAll([]) == ([], true)
  {
  }

  lemma ParseHead(slice: string, more: seq<string>)
    ensures ParseAll([slice] + more) ==
            match ParseMime(slice)
            case None => ([], false)
            case Some(e) => ([e] + ParseAll(more).0, ParseAll(more).1)
  {
    hide ParseMime;
    assert ([slice] + more)[1..] == more;
  }

  lemma CookieStep(data: string, oldPos: nat)
    requires oldPos <= |data|
    ensures match Find(data, ";", oldPos)
            case None => Cookies.CookiesOf(Cookies.Split(data[oldPos..])) == Cookies.CookieOf(data[oldPos..])
            case Some(p) => Cookies.CookiesOf(Cookies.Split(data[oldPos..])) ==
                            Cookies.CookieOf(data[oldPos..p]) + Cookies.CookiesOf(Cookies.Split(data[p + 1..]))
  {
    hide Find, IndexOf, Cookies.CookieOf, Cookies.CookiesOf, Cookies.Split;
    FindChar(data, ';', oldPos);
    match Find(data, ";", oldPos)
    case None => Cookies.CookiesOfLast(data[oldPos..]);
    case Some(p) =>
      CutRest(data, oldPos, p);
      CutRest(data, oldPos, p + 1);
      Cookies.CookiesOfNext(data[oldPos..], p - oldPos);
  }
}
