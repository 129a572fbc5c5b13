/** The reply that carries collected log lines: LogText messages nested in GetLogResp. */
module LogRespCodec {
  import opened Common
  import opened Wire

  datatype TextValue = TextValue(ipPort: seq<byte>, gnsName: seq<byte>, text: seq<seq<byte>>)

  datatype RespValue = RespValue(
    ret: int32, retMsg: seq<byte>, fd: int32, reqBeginTime: int32, logText: seq<TextValue>)

  const NO_TEXT := TextValue([], [], [])
  const NO_RESP := RespValue(0, [], 0, 0, [])

  // What one record on the wire does to a message.

  function ApplyText(m: TextValue, r: Record): Option<TextValue> {
    match r
    case BytesRecord(f, s) =>
      if f in {1, 2, 3} then (if Utf8(s) then Some(SetText(m, f, s)) else None) else Some(m)
    case _ => Some(m)
  }

  function SetText(m: TextValue, f: nat, s: seq<byte>): TextValue {
    if f == 1 then m.(ipPort := s)
    else if f == 2 then m.(gnsName := s)
    else m.(text := m.text + [s])
  }

  function DecodeText(m: TextValue, data: seq<byte>): Option<TextValue> {
    Parse(ApplyText, m, data)
  }

  function Apply(m: RespValue, r: Record): Option<RespValue> {
    match r
    case BytesRecord(f, s) =>
      if f == 2 then (if Utf8(s) then Some(m.(retMsg := s)) else None)
      else if f == 5 then
        match DecodeText(NO_TEXT, s)
        case None => None
        case Some(t) => Some(m.(logText := m.logText + [t]))
      else Some(m)
    case VarintRecord(f, v) =>
      Some(if f == 1 then m.(ret := ToInt32(v))
           else if f == 3 then m.(fd := ToInt32(v))
           else if f == 4 then m.(reqBeginTime := ToInt32(v))
           else m)
    case SkippedRecord(_) => Some(m)
  }

  function Decode(m: RespValue, data: seq<byte>): Option<RespValue> {
    Parse(Apply, m, data)
  }

  // The records of a message, in field order.

  function TextRecords(m: TextValue): (rs: seq<Record>)
    ensures AllWritable(rs)
  {
    StringField(1, m.ipPort) + (StringField(2, m.gnsName) + RepeatedField(3, m.text))
  }

  function EncodeText(m: TextValue): seq<byte> {
    EncodeAll(TextRecords(m))
  }

  function EncodeTexts(ts: seq<TextValue>): (ss: seq<seq<byte>>)
    ensures |ss| == |ts|
  {
    seq(|ts|, i requires 0 <= i < |ts| => EncodeText(ts[i]))
  }

  function Records(m: RespValue): (rs: seq<Record>)
    ensures AllWritable(rs)
  {
    IntField(1, m.ret) + (StringField(2, m.retMsg) + (IntField(3, m.fd)
    + (IntField(4, m.reqBeginTime) + RepeatedField(5, EncodeTexts(m.logText)))))
  }

  function Encode(m: RespValue): seq<byte> {
    EncodeAll(Records(m))
  }

  function MergeText(a: TextValue, b: TextValue): TextValue {
    TextValue(
      if |b.ipPort| > 0 then b.ipPort else a.ipPort,
      if |b.gnsName| > 0 then b.gnsName else a.gnsName,
      a.text + b.text)
  }

  function Merge(a: RespValue, b: RespValue): RespValue {
    RespValue(
      if b.ret != 0 then b.ret else a.ret,
      if |b.retMsg| > 0 then b.retMsg else a.retMsg,
      if b.fd != 0 then b.fd else a.fd,
      if b.reqBeginTime != 0 then b.reqBeginTime else a.reqBeginTime,
      a.logText + b.logText)
  }

  predicate AllUtf8(ss: seq<seq<byte>>) {
    forall i | 0 <= i < |ss| :: Utf8(ss[i])
  }

  predicate Utf8Text(m: TextValue) {
    Utf8(m.ipPort) && Utf8(m.gnsName) && AllUtf8(m.text)
  }

  predicate AllUtf8Texts(ts: seq<TextValue>) {
    forall i | 0 <= i < |ts| :: Utf8Text(ts[i])
  }

  predicate Utf8Strings(m: RespValue) {
    Utf8(m.retMsg) && AllUtf8Texts(m.logText)
  }

  // ------------------------------------------------------- the inner message

  lemma FoldTextString(m: TextValue, f: nat, s: seq<byte>, rest: seq<Record>)
    requires f in {1, 2}
    ensures Fold(ApplyText, m, StringField(f, s) + rest) ==
            if !Utf8(s) then None else Fold(ApplyText, if |s| > 0 then SetText(m, f, s) else m, rest)
  {
    FoldOptional(ApplyText, m, BytesRecord(f, s), rest);
  }

  lemma {:induction false} FoldTexts(m: TextValue, ss: seq<seq<byte>>)
    ensures Fold(ApplyText, m, RepeatedField(3, ss)) ==
            if AllUtf8(ss) then Some(m.(text := m.text + ss)) else None
    decreases |ss|
  {
    if ss == [] {
      assert m.text + ss == m.text;
    } else {
      FoldOptional(ApplyText, m, BytesRecord(3, ss[0]), RepeatedField(3, ss[1..]));
      if Utf8(ss[0]) {
        FoldTexts(SetText(m, 3, ss[0]), ss[1..]);
        assert m.text + [ss[0]] + ss[1..] == m.text + ss;
        assert AllUtf8(ss) <==> AllUtf8(ss[1..]) by {
          assert forall i | 0 < i < |ss| :: ss[i] == ss[1..][i - 1];
        }
      }
    }
  }

  lemma FoldOfTextRecords(a: TextValue, b: TextValue)
    ensures Fold(ApplyText, a, TextRecords(b)) == if Utf8Text(b) then Some(MergeText(a, b)) else None
  {
    var r3 := RepeatedField(3, b.text);
    var m1 := a.(ipPort := MergeText(a, b).ipPort);
    FoldTextString(a, 1, b.ipPort, StringField(2, b.gnsName) + r3);
    FoldTextString(m1, 2, b.gnsName, r3);
    FoldTexts(m1.(gnsName := MergeText(a, b).gnsName), b.text);
  }

  lemma DecodeTextMerges(a: TextValue, b: TextValue, rest: seq<byte>)
    requires |EncodeText(b)| < TWO_31
    ensures DecodeText(a, EncodeText(b) + rest) ==
            if Utf8Text(b) then DecodeText(MergeText(a, b), rest) else None
  {
    SmallEnoughToRead(TextRecords(b));
    ParseEncoded(ApplyText, a, TextRecords(b), rest);
    FoldOfTextRecords(a, b);
  }

  lemma TextRoundTrip(m: TextValue)
    requires |EncodeText(m)| < TWO_31
    ensures DecodeText(NO_TEXT, EncodeText(m)) == if Utf8Text(m) then Some(m) else None
  {
    DecodeTextMerges(NO_TEXT, m, []);
    assert EncodeText(m) + [] == EncodeText(m);
    assert [] + m.text == m.text;
  }

  // ------------------------------------------------------- the outer message

  lemma FoldInt(m: RespValue, f: nat, v: int64, rest: seq<Record>)
    requires f in {1, 3, 4}
    ensures Fold(Apply, m, IntField(f, v) + rest) ==
            Fold(Apply, if v != 0 then Apply(m, VarintRecord(f, ToUnsigned(v))).value else m, rest)
  {
    FoldOptional(Apply, m, VarintRecord(f, ToUnsigned(v)), rest);
  }

  lemma FoldRetMsg(m: RespValue, s: seq<byte>, rest: seq<Record>)
    ensures Fold(Apply, m, StringField(2, s) + rest) ==
            if !Utf8(s) then None else Fold(Apply, if |s| > 0 then m.(retMsg := s) else m, rest)
  {
    FoldOptional(Apply, m, BytesRecord(2, s), rest);
  }

  lemma ApplyNested(m: RespValue, t: TextValue)
    requires |EncodeText(t)| < TWO_31
    ensures Apply(m, BytesRecord(5, EncodeText(t))) ==
            if Utf8Text(t) then Some(m.(logText := m.logText + [t])) else None
  {
    TextRoundTrip(t);
  }

  /** The message after each of the first `n` nested texts. */
  function Stages(m: RespValue, ts: seq<TextValue>, n: nat): (ms: seq<RespValue>)
    requires n <= |ts|
    ensures |ms| == n + 1
  {
    seq(n + 1, i requires 0 <= i <= n => m.(logText := m.logText + ts[..i]))
  }

  lemma FoldNested(m: RespValue, ts: seq<TextValue>)
    requires forall i | 0 <= i < |ts| :: |EncodeText(ts[i])| < TWO_31
    ensures Fold(Apply, m, RepeatedField(5, EncodeTexts(ts))) ==
            if AllUtf8Texts(ts) then Some(m.(logText := m.logText + ts)) else None
  {
    var n := if AllUtf8Texts(ts) then |ts| else FirstInvalid(ts);
    var m' := m.(logText := m.logText + ts[..n]);
    FoldValidTexts(m, ts, n);
    FoldRepeatedHead(Apply, m', 5, EncodeTexts(ts)[n..]);
    if n < |ts| {
      ApplyNested(m', ts[n]);
    } else {
      assert ts[..n] == ts && EncodeTexts(ts)[n..] == [];
    }
  }

  lemma FoldValidTexts(m: RespValue, ts: seq<TextValue>, n: nat)
    requires n <= |ts| && forall i | 0 <= i < n :: |EncodeText(ts[i])| < TWO_31 && Utf8Text(ts[i])
    ensures Fold(Apply, m, RepeatedField(5, EncodeTexts(ts))) ==
            Fold(Apply, m.(logText := m.logText + ts[..n]), RepeatedField(5, EncodeTexts(ts)[n..]))
  {
    var ss, ms := EncodeTexts(ts), Stages(m, ts, n);
    forall i | 0 <= i < n ensures Apply(ms[i], BytesRecord(5, ss[i])) == Some(ms[i + 1]) {
      NextStage(m, ts, n, i);
    }
    assert ms[0].logText == m.logText;
    FoldRepeated(Apply, 5, ss, ms);
  }

  lemma NextStage(m: RespValue, ts: seq<TextValue>, n: nat, i: nat)
    requires i < n <= |ts| && |EncodeText(ts[i])| < TWO_31 && Utf8Text(ts[i])
    ensures Apply(Stages(m, ts, n)[i], BytesRecord(5, EncodeTexts(ts)[i])) == Some(Stages(m, ts, n)[i + 1])
  {
    hide EncodeText, Utf8Text, Apply;
    var stage := m.(logText := m.logText + ts[..i]);
    ApplyNested(stage, ts[i]);
    OneMoreText(m.logText, ts, i);
  }

  lemma OneMoreText(a: seq<TextValue>, ts: seq<TextValue>, i: nat)
    requires i < |ts|
    ensures a + ts[..i] + [ts[i]] == a + ts[..i + 1]
  {
  }

  function FirstInvalid(ts: seq<TextValue>): (n: nat)
    requires !AllUtf8Texts(ts)
    ensures n < |ts| && !Utf8Text(ts[n]) && forall i | 0 <= i < n :: Utf8Text(ts[i])
  {
    if !Utf8Text(ts[0]) then 0
    else
      assert forall i | 0 < i < |ts| :: ts[i] == ts[1..][i - 1];
      FirstInvalid(ts[1..]) + 1
  }

  lemma FoldOfRecords(a: RespValue, b: RespValue)
    requires forall i | 0 <= i < |b.logText| :: |EncodeText(b.logText[i])| < TWO_31
    ensures Fold(Apply, a, Records(b)) == if Utf8Strings(b) then Some(Merge(a, b)) else None
  {
    NarrowUndoesWiden(b.ret, 0);
    NarrowUndoesWiden(b.fd, 0);
    NarrowUndoesWiden(b.reqBeginTime, 0);
    var m := Merge(a, b);
    var r5 := RepeatedField(5, EncodeTexts(b.logText));
    var r4 := IntField(4, b.reqBeginTime) + r5;
    var r3 := IntField(3, b.fd) + r4;
    FoldInt(a, 1, b.ret, StringField(2, b.retMsg) + r3);
    FoldRetMsg(a.(ret := m.ret), b.retMsg, r3);
    FoldInt(a.(ret := m.ret, retMsg := m.retMsg), 3, b.fd, r4);
    FoldInt(a.(ret := m.ret, retMsg := m.retMsg, fd := m.fd), 4, b.reqBeginTime, r5);
    FoldNested(m.(logText := a.logText), b.logText);
  }

  /** No nested message is larger than the message that holds it. */
  lemma NestedAreSmaller(m: RespValue)
    requires |Encode(m)| < TWO_31
    ensures forall i | 0 <= i < |m.logText| :: |EncodeText(m.logText[i])| < TWO_31
  {
    hide EncodeAll;
    SmallEnoughToRead(Records(m));
    forall i | 0 <= i < |m.logText| ensures |EncodeText(m.logText[i])| < TWO_31 {
      RepeatedFieldAt(5, EncodeTexts(m.logText), i);
      NestedIsLast(m, i);
    }
  }

  lemma NestedIsLast(m: RespValue, i: nat)
    requires i < |RepeatedField(5, EncodeTexts(m.logText))|
    ensures RepeatedField(5, EncodeTexts(m.logText))[i] in Records(m)
  {
    hide RepeatedField;
    var nested := RepeatedField(5, EncodeTexts(m.logText));
    var offset := |Records(m)| - |nested|;
    assert Records(m)[offset + i] == nested[i];
  }

  lemma {:induction false} RepeatedFieldAt(f: nat, ss: seq<seq<byte>>, i: nat)
    requires 1 <= f < 16 && i < |ss|
    ensures |RepeatedField(f, ss)| == |ss|
    ensures RepeatedField(f, ss)[i] == BytesRecord(f, ss[i])
  {
    if i > 0 {
      RepeatedFieldAt(f, ss[1..], i - 1);
    } else if |ss| > 1 {
      RepeatedFieldAt(f, ss[1..], 0);
    }
  }

  /** Decoding an encoded reply into another one merges them, whatever follows. */
  lemma DecodeMerges(a: RespValue, b: RespValue, rest: seq<byte>)
    requires |Encode(b)| < TWO_31
    ensures Decode(a, Encode(b) + rest) == if Utf8Strings(b) then Decode(Merge(a, b), rest) else None
  {
    NestedAreSmaller(b);
    SmallEnoughToRead(Records(b));
    ParseEncoded(Apply, a, Records(b), rest);
    FoldOfRecords(a, b);
  }

  /** A reply survives the wire, nested texts and all, exactly when every string in
      it is UTF-8. */
  lemma RoundTrip(m: RespValue)
    requires |Encode(m)| < TWO_31
    ensures Decode(NO_RESP, Encode(m)) == Some(m) <==> Utf8Strings(m)
    ensures !Utf8Strings(m) ==> Decode(NO_RESP, Encode(m)).None?
  {
    DecodeMerges(NO_RESP, m, []);
    assert Encode(m) + [] == Encode(m);
    assert Merge(NO_RESP, m) == m;
  }

  lemma DecodeNothing(m: RespValue)
    ensures Decode(m, []) == Some(m)
  {
  }

  lemma ConcatenationIsMerge(a: RespValue, b: RespValue)
    requires |Encode(a)| < TWO_31 && |Encode(b)| < TWO_31
    requires Utf8Strings(a) && Utf8Strings(b)
    ensures Decode(NO_RESP, Encode(a) + Encode(b)) == Some(Merge(a, b))
  {
    hide Encode, Parse, Utf8Strings;
    DecodeNothing(Merge(a, b));
    DecodeMerges(NO_RESP, a, Encode(b));
    DecodeMerges(a, b, []);
    assert Encode(b) + [] == Encode(b);
    assert Merge(NO_RESP, a) == a;
  }

  // ------------------------------------------------- last one wins, exactly

  /** What records make of a text message: the last strings, and all texts appended. */
  function TextAfter(m: TextValue, rs: seq<Record>): TextValue {
    TextValue(StringOr(rs, 1, m.ipPort), StringOr(rs, 2, m.gnsName), m.text + AllBytes(rs, 3))
  }

  lemma {:induction false} FoldTextIsLast(m: TextValue, rs: seq<Record>)
    ensures Fold(ApplyText, m, rs) == if Utf8Fields(rs, {1, 2, 3}) then Some(TextAfter(m, rs)) else None
    decreases |rs|
  {
    hide Utf8, Utf8Fields;
    if rs == [] {
      NoRecords();
      assert m.text + [] == m.text;
    } else {
      FoldLast(ApplyText, m, rs);
      FoldTextIsLast(m, rs[..|rs| - 1]);
      Utf8FieldsLast(rs, {1, 2, 3});
      TextAfterLast(m, rs);
    }
  }

  lemma NoRecords()
    ensures Utf8Fields([], {1, 2, 3}) && Acceptable([])
  {
  }

  lemma TextAfterLast(m: TextValue, rs: seq<Record>)
    requires rs != []
    ensures var r := rs[|rs| - 1];
            ApplyText(TextAfter(m, rs[..|rs| - 1]), r) ==
            if r.BytesRecord? && r.field in {1, 2, 3} && !Utf8(r.payload) then None else Some(TextAfter(m, rs))
  {
    hide Utf8;
    var front, r := rs[..|rs| - 1], rs[|rs| - 1];
    if r.BytesRecord? && r.field == 3 {
      assert m.text + (AllBytes(front, 3) + [r.payload]) == m.text + AllBytes(front, 3) + [r.payload];
    } else {
      assert AllBytes(front, 3) + [] == AllBytes(front, 3);
    }
  }

  /** Decoding any input into a text message fails exactly when it is malformed or has a
      string that is not UTF-8; otherwise the last strings on the wire win, and all its
      texts are appended. */
  lemma TextLastOneWins(m: TextValue, data: seq<byte>)
    ensures DecodeText(m, data) ==
            match WireRecords(data)
            case None => None
            case Some(rs) => if Utf8Fields(rs, {1, 2, 3}) then Some(TextAfter(m, rs)) else None
  {
    ParseIsFold(ApplyText, m, data);
    if WireRecords(data).Some? {
      FoldTextIsLast(m, WireRecords(data).value);
    }
  }

  predicate AcceptableRecord(r: Record) {
    r.BytesRecord? ==> && (r.field == 2 ==> Utf8(r.payload))
                       && (r.field == 5 ==> DecodeText(NO_TEXT, r.payload).Some?)
  }

  predicate Acceptable(rs: seq<Record>) {
    forall i | 0 <= i < |rs| :: AcceptableRecord(rs[i])
  }

  /** The nested messages of the records. */
  function Nested(rs: seq<Record>): seq<TextValue>
    requires Acceptable(rs)
  {
    if rs == [] then []
    else
      var r := rs[|rs| - 1];
      assert AcceptableRecord(r);
      Nested(rs[..|rs| - 1]) + if r.BytesRecord? && r.field == 5 then [DecodeText(NO_TEXT, r.payload).value] else []
  }

  function After(m: RespValue, rs: seq<Record>): RespValue
    requires Acceptable(rs)
  {
    RespValue(Int32Or(rs, 1, m.ret), StringOr(rs, 2, m.retMsg), Int32Or(rs, 3, m.fd), Int32Or(rs, 4, m.reqBeginTime),
              m.logText + Nested(rs))
  }

  lemma AcceptableLast(rs: seq<Record>)
    requires rs != []
    ensures Acceptable(rs) <==> Acceptable(rs[..|rs| - 1]) && AcceptableRecord(rs[|rs| - 1])
  {
    hide AcceptableRecord;
    var front := rs[..|rs| - 1];
    assert forall i | 0 <= i < |front| :: front[i] == rs[i];
  }

  lemma AfterLast(m: RespValue, rs: seq<Record>)
    requires rs != [] && Acceptable(rs[..|rs| - 1])
    ensures var r := rs[|rs| - 1];
            && (AcceptableRecord(r) <==> Acceptable(rs))
            && Apply(After(m, rs[..|rs| - 1]), r) == if AcceptableRecord(r) then Some(After(m, rs)) else None
  {
    hide Utf8, DecodeText, Acceptable, ToInt32;
    AcceptableLast(rs);
    var front, r := rs[..|rs| - 1], rs[|rs| - 1];
    if AcceptableRecord(r) {
      if r.BytesRecord? && r.field == 5 {
        var t := DecodeText(NO_TEXT, r.payload).value;
        assert m.logText + (Nested(front) + [t]) == m.logText + Nested(front) + [t];
      } else {
        assert Nested(front) + [] == Nested(front);
      }
    }
  }

  lemma {:induction false} FoldIsLast(m: RespValue, rs: seq<Record>)
    ensures Fold(Apply, m, rs) == if Acceptable(rs) then Some(After(m, rs)) else None
    decreases |rs|
  {
    hide Utf8, Acceptable, AcceptableRecord, Apply;
    if rs == [] {
      NoRecords();
      assert m.logText + [] == m.logText;
    } else {
      FoldLast(Apply, m, rs);
      FoldIsLast(m, rs[..|rs| - 1]);
      AcceptableLast(rs);
      if Acceptable(rs[..|rs| - 1]) {
        AfterLast(m, rs);
      }
    }
  }

  /** The same for a reply: the last scalars win, and every nested message, decoded from
      its own bytes alone, is appended in order. */
  lemma LastOneWins(m: RespValue, data: seq<byte>)
    ensures Decode(m, data) ==
            match WireRecords(data)
            case None => None
            case Some(rs) => if Acceptable(rs) then Some(After(m, rs)) else None
  {
    ParseIsFold(Apply, m, data);
    if WireRecords(data).Some? {
      FoldIsLast(m, WireRecords(data).value);
    }
  }

  /** The last value sent for a field of a text message is its default. */
  predicate TextEndsAsDefault(rs: seq<Record>) { LastBytes(rs, 1) == Some([]) || LastBytes(rs, 2) == Some([]) }

  /** Decoding on top of a text message equals merging the decoded one into it, for every
      message, exactly when neither string ends on the wire as the empty one. */
  lemma TextDecodeIsMergeIff(data: seq<byte>)
    requires DecodeText(NO_TEXT, data).Some?
    ensures WireRecords(data).Some?
    ensures var e := DecodeText(NO_TEXT, data).value;
            (forall m :: DecodeText(m, data) == Some(MergeText(m, e))) <==> !TextEndsAsDefault(WireRecords(data).value)
  {
    hide DecodeText, WireRecords, Utf8Fields, LastBytes, AllBytes;
    TextLastOneWins(NO_TEXT, data);
    var rs := WireRecords(data).value;
    var e := TextAfter(NO_TEXT, rs);
    assert e.text == AllBytes(rs, 3);
    if TextEndsAsDefault(rs) {
      var full := TextValue([65], [65], []);
      TextLastOneWins(full, data);
      assert DecodeText(full, data) != Some(MergeText(full, e));
    } else {
      forall m ensures DecodeText(m, data) == Some(MergeText(m, e)) {
        TextLastOneWins(m, data);
      }
    }
  }

  predicate EndsAsDefault(rs: seq<Record>, f: nat) {
    if f == 2 then LastBytes(rs, f) == Some([])
    else LastVarint(rs, f).Some? && ToInt32(LastVarint(rs, f).value) == 0
  }

  predicate SomeEndsAsDefault(rs: seq<Record>) {
    EndsAsDefault(rs, 1) || EndsAsDefault(rs, 2) || EndsAsDefault(rs, 3) || EndsAsDefault(rs, 4)
  }

  /** The same for a reply; nested messages never make a difference. */
  lemma DecodeIsMergeIff(data: seq<byte>)
    requires Decode(NO_RESP, data).Some?
    ensures WireRecords(data).Some?
    ensures var e := Decode(NO_RESP, data).value;
            (forall m :: Decode(m, data) == Some(Merge(m, e))) <==> !SomeEndsAsDefault(WireRecords(data).value)
  {
    hide Decode, WireRecords, Acceptable, LastBytes, LastVarint, ToInt32, Nested;
    LastOneWins(NO_RESP, data);
    var rs := WireRecords(data).value;
    var e := After(NO_RESP, rs);
    assert e.logText == Nested(rs);
    if SomeEndsAsDefault(rs) {
      var full := RespValue(1, [65], 1, 1, []);
      LastOneWins(full, data);
      assert Decode(full, data) != Some(Merge(full, e));
    } else {
      forall m ensures Decode(m, data) == Some(Merge(m, e)) {
        LastOneWins(m, data);
      }
    }
  }

  // -------------------------------------------------------------- the layout

  lemma TextLayout(m: TextValue)
    ensures EncodeText(m) == StringPart(10, m.ipPort) + (StringPart(18, m.gnsName) + RepeatedPart(26, m.text))
  {
    hide StringField, RepeatedField, StringPart, RepeatedPart, EncodeAll;
    PartsAre(1, m.ipPort, 0);
    PartsAre(2, m.gnsName, 0);
    RepeatedPartIs(3, m.text);
    EncodeAllAppend(StringField(1, m.ipPort), StringField(2, m.gnsName) + RepeatedField(3, m.text));
    EncodeAllAppend(StringField(2, m.gnsName), RepeatedField(3, m.text));
  }

  /** The bytes of a reply: the tags, and the order of the fields. */
  lemma EncodeLayout(m: RespValue)
    ensures Encode(m) ==
            NumberPart(8, m.ret) + (StringPart(18, m.retMsg) + (NumberPart(24, m.fd)
            + (NumberPart(32, m.reqBeginTime) + RepeatedPart(42, EncodeTexts(m.logText)))))
  {
    hide StringField, IntField, RepeatedField, StringPart, NumberPart, RepeatedPart, EncodeAll;
    var r5 := RepeatedField(5, EncodeTexts(m.logText));
    var r4 := IntField(4, m.reqBeginTime) + r5;
    var r3 := IntField(3, m.fd) + r4;
    PartsAre(1, m.retMsg, m.ret);
    PartsAre(2, m.retMsg, m.ret);
    PartsAre(3, m.retMsg, m.fd);
    PartsAre(4, m.retMsg, m.reqBeginTime);
    RepeatedPartIs(5, EncodeTexts(m.logText));
    EncodeAllAppend(IntField(1, m.ret), StringField(2, m.retMsg) + r3);
    EncodeAllAppend(StringField(2, m.retMsg), r3);
    EncodeAllAppend(IntField(3, m.fd), r4);
    EncodeAllAppend(IntField(4, m.reqBeginTime), r5);
  }

  /** Unknown fields in front of anything, groups included, make no difference. */
  lemma UnknownIsSkipped(m: RespValue, xs: seq<Item>, rest: seq<byte>)
    requires forall x <- xs :: ValidItem(x) && (x.field in {1, 3, 4} ==> !x.Varint?) && (x.field in {2, 5} ==> !x.Delimited?)
    ensures Decode(m, EncodeItems(xs) + rest) == Decode(m, rest)
  {
    hide ValidItem, DecodeText;
    SkipItems(Apply, m, xs, rest);
  }

  lemma UnknownInTextIsSkipped(m: TextValue, xs: seq<Item>, rest: seq<byte>)
    requires forall x <- xs :: ValidItem(x) && (x.field in {1, 2, 3} ==> !x.Delimited?)
    ensures DecodeText(m, EncodeItems(xs) + rest) == DecodeText(m, rest)
  {
    hide ValidItem;
    SkipItems(ApplyText, m, xs, rest);
  }

  // ------------------------------------------------------------------ sizes

  function RepeatedSize(ns: seq<nat>): nat {
    if ns == [] then 0 else 1 + LengthDelimitedSize(ns[0]) + RepeatedSize(ns[1..])
  }

  lemma {:induction false} RepeatedSizeAgrees(f: nat, ss: seq<seq<byte>>, ns: seq<nat>)
    requires 1 <= f < 16 && |ns| == |ss|
    requires forall i | 0 <= i < |ss| :: Agrees(ns[i], |ss[i]|)
    ensures Agrees(RepeatedSize(ns), |EncodeAll(RepeatedField(f, ss))|)
  {
    if ss != [] {
      RepeatedSizeAgrees(f, ss[1..], ns[1..]);
      DelimitedSizeAgrees(f, ss[0], ns[0]);
    }
  }

  function TextSize(m: TextValue): nat {
    RepeatedSize(Lengths(m.text)) + StringFieldSize(m.ipPort) + StringFieldSize(m.gnsName)
  }

  function Lengths(ss: seq<seq<byte>>): (ns: seq<nat>)
    ensures |ns| == |ss|
  {
    seq(|ss|, i requires 0 <= i < |ss| => |ss[i]|)
  }

  lemma TextSizeAgrees(m: TextValue)
    ensures Agrees(TextSize(m), |EncodeText(m)|)
  {
    EncodeAllAppend(StringField(1, m.ipPort), StringField(2, m.gnsName) + RepeatedField(3, m.text));
    EncodeAllAppend(StringField(2, m.gnsName), RepeatedField(3, m.text));
    StringFieldSizeAgrees(1, m.ipPort);
    StringFieldSizeAgrees(2, m.gnsName);
    RepeatedSizeAgrees(3, m.text, Lengths(m.text));
  }

  function TextSizes(ts: seq<TextValue>): (ns: seq<nat>)
    ensures |ns| == |ts|
  {
    seq(|ts|, i requires 0 <= i < |ts| => TextSize(ts[i]))
  }

  function Size(m: RespValue): nat {
    RepeatedSize(TextSizes(m.logText)) + StringFieldSize(m.retMsg) + IntFieldSize(m.ret)
    + IntFieldSize(m.fd) + IntFieldSize(m.reqBeginTime)
  }

  lemma SizeAgrees(m: RespValue)
    ensures Agrees(Size(m), |Encode(m)|)
  {
    var r5 := RepeatedField(5, EncodeTexts(m.logText));
    var r4 := IntField(4, m.reqBeginTime) + r5;
    var r3 := IntField(3, m.fd) + r4;
    EncodeAllAppend(IntField(1, m.ret), StringField(2, m.retMsg) + r3);
    EncodeAllAppend(StringField(2, m.retMsg), r3);
    EncodeAllAppend(IntField(3, m.fd), r4);
    EncodeAllAppend(IntField(4, m.reqBeginTime), r5);
    forall i | 0 <= i < |m.logText|
      ensures Agrees(TextSizes(m.logText)[i], |EncodeTexts(m.logText)[i]|)
    {
      TextSizeAgrees(m.logText[i]);
    }
    RepeatedSizeAgrees(5, EncodeTexts(m.logText), TextSizes(m.logText));
    IntFieldSizeExact(1, m.ret);
    StringFieldSizeAgrees(2, m.retMsg);
    IntFieldSizeExact(3, m.fd);
    IntFieldSizeExact(4, m.reqBeginTime);
  }

  /** Below 2 GiB, the tag, the computed size and the nested bytes are the record. */
  lemma NestedRecord(start: seq<byte>, t: TextValue, size: nat)
    requires |EncodeText(t)| < TWO_31 && size == TextSize(t)
    ensures start + ([42] + WriteVarint(size)) + EncodeText(t) == start + EncodeRecord(BytesRecord(5, EncodeText(t)))
  {
    hide EncodeText, WriteVarint, TextSize;
    TextSizeAgrees(t);
    Associative(start, [42] + WriteVarint(size), EncodeText(t));
  }

  lemma NothingToWrite()
    ensures EncodeAll(RepeatedField(5, [])) == []
  {
  }

  // ----------------------------------------------------- the message classes

  class LogText {
    var ipPort: seq<byte>
    var gnsName: seq<byte>
    var text: seq<seq<byte>>

    function Value(): TextValue
      reads this
    {
      TextValue(ipPort, gnsName, text)
    }

    constructor ()
      ensures Value() == NO_TEXT
    {
      ipPort, gnsName, text := [], [], [];
    }

    constructor Of(m: TextValue)
      ensures Value() == m
    {
      ipPort, gnsName, text := m.ipPort, m.gnsName, m.text;
    }

    method Clear()
      modifies this
      ensures Value() == NO_TEXT
    {
      text := [];
      ipPort, gnsName := [], [];
    }

    method InternalParse(data: seq<byte>) returns (ok: bool)
      modifies this
      ensures ok <==> DecodeText(old(Value()), data).Some?
      ensures ok ==> Value() == DecodeText(old(Value()), data).value
    {
      ghost var goal := DecodeText(Value(), data);
      var ptr := 0;
      while ptr < |data|
        invariant 0 <= ptr <= |data|
        invariant DecodeText(Value(), data[ptr..]) == goal
        decreases |data| - ptr
      {
        var t := ReadTag(data[ptr..]);
        if t.Fail? {
          return false;
        }
        var next := ParseTagged(t.value, data, ptr);
        if next.Some? && t.value == 26 {
          next := ParseMoreTexts(data, next.value);
        }
        if next.None? {
          return false;
        }
        ptr := next.value;
      }
      return true;
    }

    /** One field whose tag has been read; the position after it. */
    method ParseTagged(tag: nat, data: seq<byte>, ptr: nat) returns (next: Option<nat>)
      requires ptr < |data| && ReadTag(data[ptr..]).Got? && ReadTag(data[ptr..]).value == tag
      modifies this
      ensures next.None? ==> DecodeText(old(Value()), data[ptr..]).None?
      ensures next.Some? ==> ptr < next.value <= |data|
                             && DecodeText(old(Value()), data[ptr..]) == DecodeText(Value(), data[next.value..])
    {
      hide Parse, PayloadExtent, RecordOf, Utf8;
      ghost var m := Value();
      var k := ReadTag(data[ptr..]).used;
      var rest := data[ptr + k..];
      var used := ParseField(tag, rest);
      if used.None? {
        ParseFailsAt(ApplyText, m, data, ptr, tag, k, rest);
        return None;
      }
      ghost var m' := Value();
      ParseAt(ApplyText, m, data, ptr, tag, k, rest, used.value, m');
      return Some(ptr + k + used.value);
    }

    /** The body of the switch on the tag; the number of bytes it consumes. */
    method ParseField(tag: nat, rest: seq<byte>) returns (used: Option<nat>)
      modifies this
      ensures used.None? ==> || tag / 8 == 0
                             || PayloadExtent(tag, rest).None?
                             || ApplyText(old(Value()), RecordOf(tag, rest)).None?
      ensures used.Some? ==> && tag / 8 != 0
                             && PayloadExtent(tag, rest) == used
                             && ApplyText(old(Value()), RecordOf(tag, rest)) == Some(Value())
    {
      match tag / 8 {
        case 1 => if tag == 10 { used := ParseString(tag, rest); return; }
        case 2 => if tag == 18 { used := ParseString(tag, rest); return; }
        case 3 => if tag == 26 { used := AddText(rest); return; }
        case _ =>
      }
      if tag % 8 == 4 || tag / 8 == 0 {
        return None;
      }
      used := PayloadExtent(tag, rest);
    }

    method ParseString(tag: nat, rest: seq<byte>) returns (used: Option<nat>)
      requires tag in {10, 18}
      modifies this
      ensures used.None? ==> PayloadExtent(tag, rest).None? || ApplyText(old(Value()), RecordOf(tag, rest)).None?
      ensures used.Some? ==> PayloadExtent(tag, rest) == used
                             && ApplyText(old(Value()), RecordOf(tag, rest)) == Some(Value())
    {
      var r := ReadLength(rest);
      if r.Fail? || !Utf8(Payload(rest)) {
        return None;
      }
      if tag == 10 {
        ipPort := Payload(rest);
      } else {
        gnsName := Payload(rest);
      }
      return Some(r.used);
    }

    /** One element of the repeated field, behind its tag. */
    method AddText(rest: seq<byte>) returns (used: Option<nat>)
      modifies this
      ensures used.None? ==> PayloadExtent(26, rest).None? || ApplyText(old(Value()), RecordOf(26, rest)).None?
      ensures used.Some? ==> PayloadExtent(26, rest) == used
                             && ApplyText(old(Value()), RecordOf(26, rest)) == Some(Value())
    {
      var r := ReadLength(rest);
      if r.Fail? || !Utf8(Payload(rest)) {
        return None;
      }
      text := text + [Payload(rest)];
      return Some(r.used);
    }

    /** The shortcut for the repeated field: as long as the next byte is the field's tag,
        the parser steps over it and reads the next element at once, without the general
        tag reader and the switch. */
    method ParseMoreTexts(data: seq<byte>, ptr: nat) returns (next: Option<nat>)
      requires ptr <= |data|
      modifies this
      ensures next.None? ==> DecodeText(old(Value()), data[ptr..]).None?
      ensures next.Some? ==> ptr <= next.value <= |data|
                             && DecodeText(old(Value()), data[ptr..]) == DecodeText(Value(), data[next.value..])
    {
      hide Parse, PayloadExtent, RecordOf, Utf8, ApplyText, ReadLength, ReadVarint;
      ghost var goal := DecodeText(Value(), data[ptr..]);
      var p := ptr;
      while p < |data| && data[p] == 26
        invariant ptr <= p <= |data|
        invariant DecodeText(Value(), data[p..]) == goal
        decreases |data| - p
      {
        ghost var m := Value();
        ExpectedTag(data, p);
        var rest := data[p + 1..];
        var used := AddText(rest);
        if used.None? {
          ParseFailsAt(ApplyText, m, data, p, 26, 1, rest);
          return None;
        }
        ParseAt(ApplyText, m, data, p, 26, 1, rest, used.value, Value());
        p := p + 1 + used.value;
      }
      return Some(p);
    }

    method InternalSerialize(target: seq<byte>) returns (written: seq<byte>)
      ensures written == target + EncodeText(Value())
    {
      var w1 := WriteStringField(1, ipPort, target);
      var w2 := WriteStringField(2, gnsName, w1);
      written := w2;
      var i := 0;
      while i < |text|
        invariant 0 <= i <= |text|
        invariant written + EncodeAll(RepeatedField(3, text[i..])) == w2 + EncodeAll(RepeatedField(3, text))
      {
        WriteNext(written, 3, text, i);
        written := written + EncodeRecord(BytesRecord(3, text[i]));
        i := i + 1;
      }
      WriteOn(w1, StringField(2, gnsName), RepeatedField(3, text));
      WriteOn(target, StringField(1, ipPort), StringField(2, gnsName) + RepeatedField(3, text));
    }

    method ByteSizeLong() returns (totalSize: nat)
      ensures totalSize == TextSize(Value())
      ensures Agrees(totalSize, |EncodeText(Value())|)
    {
      totalSize := |text|;
      ghost var sizes := Lengths(text);
      var i := 0;
      while i < |text|
        invariant 0 <= i <= |text|
        invariant totalSize + RepeatedSize(sizes[i..]) == RepeatedSize(sizes) + |text| - i
      {
        totalSize := totalSize + LengthDelimitedSize(|text[i]|);
        assert sizes[i..][1..] == sizes[i + 1..];
        i := i + 1;
      }
      totalSize := totalSize + StringFieldSize(ipPort);
      totalSize := totalSize + StringFieldSize(gnsName);
      TextSizeAgrees(Value());
    }

    method MergeFrom(from: LogText)
      requires from != this
      modifies this
      ensures Value() == MergeText(old(Value()), from.Value())
    {
      text := text + from.text;
      if |from.ipPort| > 0 {
        ipPort := from.ipPort;
      }
      if |from.gnsName| > 0 {
        gnsName := from.gnsName;
      }
    }
  }

  class GetLogResp {
    var ret: int32
    var retMsg: seq<byte>
    var fd: int32
    var reqBeginTime: int32
    var logText: seq<TextValue>

    function Value(): RespValue
      reads this
    {
      RespValue(ret, retMsg, fd, reqBeginTime, logText)
    }

    constructor ()
      ensures Value() == NO_RESP
    {
      ret, retMsg, fd, reqBeginTime, logText := 0, [], 0, 0, [];
    }

    method Clear()
      modifies this
      ensures Value() == NO_RESP
    {
      logText := [];
      retMsg := [];
      ret, fd, reqBeginTime := 0, 0, 0;
    }

    method InternalParse(data: seq<byte>) returns (ok: bool)
      modifies this
      ensures ok <==> Decode(old(Value()), data).Some?
      ensures ok ==> Value() == Decode(old(Value()), data).value
    {
      ghost var goal := Decode(Value(), data);
      var ptr := 0;
      while ptr < |data|
        invariant 0 <= ptr <= |data|
        invariant Decode(Value(), data[ptr..]) == goal
        decreases |data| - ptr
      {
        var t := ReadTag(data[ptr..]);
        if t.Fail? {
          return false;
        }
        var next := ParseTagged(t.value, data, ptr);
        if next.Some? && t.value == 42 {
          next := ParseMoreNested(data, next.value);
        }
        if next.None? {
          return false;
        }
        ptr := next.value;
      }
      return true;
    }

    /** One field whose tag has been read; the position after it. */
    method ParseTagged(tag: nat, data: seq<byte>, ptr: nat) returns (next: Option<nat>)
      requires ptr < |data| && ReadTag(data[ptr..]).Got? && ReadTag(data[ptr..]).value == tag
      modifies this
      ensures next.None? ==> Decode(old(Value()), data[ptr..]).None?
      ensures next.Some? ==> ptr < next.value <= |data|
                             && Decode(old(Value()), data[ptr..]) == Decode(Value(), data[next.value..])
    {
      hide Parse, PayloadExtent, RecordOf, Utf8;
      ghost var m := Value();
      var k := ReadTag(data[ptr..]).used;
      var rest := data[ptr + k..];
      var used := ParseField(tag, rest);
      if used.None? {
        ParseFailsAt(Apply, m, data, ptr, tag, k, rest);
        return None;
      }
      ghost var m' := Value();
      ParseAt(Apply, m, data, ptr, tag, k, rest, used.value, m');
      return Some(ptr + k + used.value);
    }

    /** The body of the switch on the tag; the number of bytes it consumes. */
    method ParseField(tag: nat, rest: seq<byte>) returns (used: Option<nat>)
      modifies this
      ensures used.None? ==> || tag / 8 == 0
                             || PayloadExtent(tag, rest).None?
                             || Apply(old(Value()), RecordOf(tag, rest)).None?
      ensures used.Some? ==> && tag / 8 != 0
                             && PayloadExtent(tag, rest) == used
                             && Apply(old(Value()), RecordOf(tag, rest)) == Some(Value())
    {
      match tag / 8 {
        case 1 => if tag == 8 { used := ParseScalar(tag, rest); return; }
        case 2 => if tag == 18 {
            var r := ReadLength(rest);
            if r.Fail? || !Utf8(Payload(rest)) {
              return None;
            }
            retMsg := Payload(rest);
            return Some(r.used);
          }
        case 3 => if tag == 24 { used := ParseScalar(tag, rest); return; }
        case 4 => if tag == 32 { used := ParseScalar(tag, rest); return; }
        case 5 => if tag == 42 { used := ParseNested(rest); return; }
        case _ =>
      }
      if tag % 8 == 4 || tag / 8 == 0 {
        return None;
      }
      used := PayloadExtent(tag, rest);
    }

    method ParseScalar(tag: nat, rest: seq<byte>) returns (used: Option<nat>)
      requires tag in {8, 24, 32}
      modifies this
      ensures used == PayloadExtent(tag, rest)
      ensures used.Some? ==> Apply(old(Value()), RecordOf(tag, rest)) == Some(Value())
    {
      var r := ReadScalar(rest);
      if r.Fail? {
        return None;
      }
      if tag == 8 {
        ret := ToInt32(r.value);
      } else if tag == 24 {
        fd := ToInt32(r.value);
      } else {
        reqBeginTime := ToInt32(r.value);
      }
      return Some(r.used);
    }

    /** A nested message: its length, then its own parser on exactly that many bytes. */
    method ParseNested(rest: seq<byte>) returns (used: Option<nat>)
      modifies this
      ensures used.None? ==> PayloadExtent(42, rest).None? || Apply(old(Value()), RecordOf(42, rest)).None?
      ensures used.Some? ==> PayloadExtent(42, rest) == used
                             && Apply(old(Value()), RecordOf(42, rest)) == Some(Value())
    {
      var r := ReadLength(rest);
      if r.Fail? {
        return None;
      }
      assert RecordOf(42, rest) == BytesRecord(5, Payload(rest));
      var nested := new LogText();
      var ok := nested.InternalParse(Payload(rest));
      if !ok {
        return None;
      }
      logText := logText + [nested.Value()];
      return Some(r.used);
    }

    /** The shortcut for the nested messages, as for the texts. */
    method ParseMoreNested(data: seq<byte>, ptr: nat) returns (next: Option<nat>)
      requires ptr <= |data|
      modifies this
      ensures next.None? ==> Decode(old(Value()), data[ptr..]).None?
      ensures next.Some? ==> ptr <= next.value <= |data|
                             && Decode(old(Value()), data[ptr..]) == Decode(Value(), data[next.value..])
    {
      hide Parse, PayloadExtent, RecordOf, Utf8, Apply, ReadLength, ReadVarint;
      ghost var goal := Decode(Value(), data[ptr..]);
      var p := ptr;
      while p < |data| && data[p] == 42
        invariant ptr <= p <= |data|
        invariant Decode(Value(), data[p..]) == goal
        decreases |data| - p
      {
        ghost var m := Value();
        ExpectedTag(data, p);
        var rest := data[p + 1..];
        var used := ParseNested(rest);
        if used.None? {
          ParseFailsAt(Apply, m, data, p, 42, 1, rest);
          return None;
        }
        ParseAt(Apply, m, data, p, 42, 1, rest, used.value, Value());
        p := p + 1 + used.value;
      }
      return Some(p);
    }

    method ParseFromString(data: seq<byte>) returns (ok: bool)
      modifies this
      ensures ok <==> Decode(NO_RESP, data).Some?
      ensures ok ==> Value() == Decode(NO_RESP, data).value
    {
      Clear();
      ok := InternalParse(data);
    }

    /** Below 2 GiB, where the sizes computed before are the lengths written. */
    method InternalSerialize(target: seq<byte>) returns (written: seq<byte>)
      ensures |Encode(Value())| < TWO_31 ==> written == target + Encode(Value())
    {
      hide EncodeAll, EncodeText;
      var w1 := WriteIntField(1, ret, target);
      var w2 := WriteStringField(2, retMsg, w1);
      var w3 := WriteIntField(3, fd, w2);
      var w4 := WriteIntField(4, reqBeginTime, w3);
      written := SerializeNested(w4);
      if |Encode(Value())| < TWO_31 {
        NestedAreSmaller(Value());
      }
      ghost var r5 := RepeatedField(5, EncodeTexts(logText));
      ghost var r4 := IntField(4, reqBeginTime) + r5;
      ghost var r3 := IntField(3, fd) + r4;
      WriteOn(w3, IntField(4, reqBeginTime), r5);
      WriteOn(w2, IntField(3, fd), r4);
      WriteOn(w1, StringField(2, retMsg), r3);
      WriteOn(target, IntField(1, ret), StringField(2, retMsg) + r3);
    }

    /** Each nested message behind its tag and the size computed for it. */
    method SerializeNested(target: seq<byte>) returns (written: seq<byte>)
      ensures (forall i | 0 <= i < |logText| :: |EncodeText(logText[i])| < TWO_31) ==>
                written == target + EncodeAll(RepeatedField(5, EncodeTexts(logText)))
    {
      hide EncodeAll, EncodeText, WriteVarint, TextSize;
      written := target;
      ghost var small := forall i | 0 <= i < |logText| :: |EncodeText(logText[i])| < TWO_31;
      ghost var nested := EncodeTexts(logText);
      var i := 0;
      while i < |logText|
        invariant 0 <= i <= |logText|
        invariant small ==> written + EncodeAll(RepeatedField(5, nested[i..])) == target + EncodeAll(RepeatedField(5, nested))
      {
        var msg := new LogText.Of(logText[i]);
        var size := msg.ByteSizeLong();
        ghost var start := written;
        written := written + ([42] + WriteVarint(size));
        written := msg.InternalSerialize(written);
        if small {
          NestedRecord(start, logText[i], size);
          WriteNext(start, 5, nested, i);
        }
        i := i + 1;
      }
      NothingToWrite();
    }

    method ByteSizeLong() returns (totalSize: nat)
      ensures Agrees(totalSize, |Encode(Value())|)
    {
      hide TextSize, EncodeAll, EncodeText;
      totalSize := |logText|;
      ghost var sizes := TextSizes(logText);
      var i := 0;
      while i < |logText|
        invariant 0 <= i <= |logText|
        invariant totalSize + RepeatedSize(sizes[i..]) == RepeatedSize(sizes) + |logText| - i
      {
        var msg := new LogText.Of(logText[i]);
        var size := msg.ByteSizeLong();
        totalSize := totalSize + LengthDelimitedSize(size);
        assert sizes[i..][1..] == sizes[i + 1..];
        i := i + 1;
      }
      totalSize := totalSize + StringFieldSize(retMsg);
      totalSize := totalSize + IntFieldSize(ret);
      totalSize := totalSize + IntFieldSize(fd);
      totalSize := totalSize + IntFieldSize(reqBeginTime);
      SizeAgrees(Value());
    }

    method SerializeToString() returns (ok: bool, out: seq<byte>)
      ensures ok <==> |Encode(Value())| < TWO_31
      ensures ok ==> out == Encode(Value())
    {
      var size := ByteSizeLong();
      if size >= TWO_31 {
        return false, [];
      }
      out := InternalSerialize([]);
      ok := true;
    }

    method MergeFrom(from: GetLogResp)
      requires from != this
      modifies this
      ensures Value() == Merge(old(Value()), from.Value())
    {
      logText := logText + from.logText;
      if |from.retMsg| > 0 {
        retMsg := from.retMsg;
      }
      if from.ret != 0 {
        ret := from.ret;
      }
      if from.fd != 0 {
        fd := from.fd;
      }
      if from.reqBeginTime != 0 {
        reqBeginTime := from.reqBeginTime;
      }
    }
  }
}
