/** The message that carries a session's configuration from the server to a client. */
module CfgInfoCodec {
  import opened Common
  import opened Wire

  datatype CfgInfo = CfgInfo(
    sessionId: seq<byte>, p1: int32, p2: int64, p3: seq<byte>,
    gnsName: seq<byte>, ipPort: seq<byte>, fd: int32, reqBeginTime: int32)

  const DEFAULT := CfgInfo([], 0, 0, [], [], [], 0, 0)

  /** What one record on the wire does to a message. A record whose field number is
      unknown, or known with another wire type, changes nothing. */
  function Apply(m: CfgInfo, r: Record): Option<CfgInfo> {
    match r
    case BytesRecord(f, s) =>
      if f in {1, 4, 5, 6} then (if Utf8(s) then Some(SetString(m, f, s)) else None) else Some(m)
    case VarintRecord(f, v) =>
      Some(if f == 2 then m.(p1 := ToInt32(v))
           else if f == 3 then m.(p2 := ToInt64(v))
           else if f == 7 then m.(fd := ToInt32(v))
           else if f == 8 then m.(reqBeginTime := ToInt32(v))
           else m)
    case SkippedRecord(_) => Some(m)
  }

  function SetString(m: CfgInfo, f: nat, s: seq<byte>): CfgInfo {
    if f == 1 then m.(sessionId := s)
    else if f == 4 then m.(p3 := s)
    else if f == 5 then m.(gnsName := s)
    else m.(ipPort := s)
  }

  function Decode(m: CfgInfo, data: seq<byte>): Option<CfgInfo> {
    Parse(Apply, m, data)
  }

  /** The records of a message, in field order. */
  function Records(m: CfgInfo): (rs: seq<Record>)
    ensures AllWritable(rs)
  {
    StringField(1, m.sessionId) + (IntField(2, m.p1) + (IntField(3, m.p2) + (StringField(4, m.p3) + LastRecords(m))))
  }

  function LastRecords(m: CfgInfo): (rs: seq<Record>)
    ensures AllWritable(rs)
  {
    StringField(5, m.gnsName) + (StringField(6, m.ipPort) + (IntField(7, m.fd) + IntField(8, m.reqBeginTime)))
  }

  function Encode(m: CfgInfo): seq<byte> {
    EncodeAll(Records(m))
  }

  function Merge(a: CfgInfo, b: CfgInfo): CfgInfo {
    CfgInfo(
      if |b.sessionId| > 0 then b.sessionId else a.sessionId,
      if b.p1 != 0 then b.p1 else a.p1,
      if b.p2 != 0 then b.p2 else a.p2,
      if |b.p3| > 0 then b.p3 else a.p3,
      if |b.gnsName| > 0 then b.gnsName else a.gnsName,
      if |b.ipPort| > 0 then b.ipPort else a.ipPort,
      if b.fd != 0 then b.fd else a.fd,
      if b.reqBeginTime != 0 then b.reqBeginTime else a.reqBeginTime)
  }

  predicate Utf8Strings(m: CfgInfo) {
    Utf8(m.sessionId) && Utf8(m.p3) && Utf8(m.gnsName) && Utf8(m.ipPort)
  }

  // ------------------------------------------------------------- the codec

  lemma FoldString(m: CfgInfo, f: nat, s: seq<byte>, rest: seq<Record>)
    requires f in {1, 4, 5, 6}
    ensures Fold(Apply, m, StringField(f, s) + rest) ==
            if !Utf8(s) then None
            else Fold(Apply, if |s| > 0 then SetString(m, f, s) else m, rest)
  {
    FoldOptional(Apply, m, BytesRecord(f, s), rest);
  }

  lemma FoldInt(m: CfgInfo, f: nat, v: int64, rest: seq<Record>)
    requires f in {2, 3, 7, 8}
    ensures Fold(Apply, m, IntField(f, v) + rest) ==
            Fold(Apply, if v != 0 then Apply(m, VarintRecord(f, ToUnsigned(v))).value else m, rest)
  {
    FoldOptional(Apply, m, VarintRecord(f, ToUnsigned(v)), rest);
  }

  lemma FoldOfRecords(a: CfgInfo, b: CfgInfo)
    ensures Fold(Apply, a, Records(b)) == if Utf8Strings(b) then Some(Merge(a, b)) else None
  {
    FoldFirstHalf(a, b, LastRecords(b));
    FoldSecondHalf(a.(sessionId := Merge(a, b).sessionId, p1 := Merge(a, b).p1,
                      p2 := Merge(a, b).p2, p3 := Merge(a, b).p3), b);
  }

  lemma FoldFirstHalf(a: CfgInfo, b: CfgInfo, rest: seq<Record>)
    ensures var m := Merge(a, b);
            Fold(Apply, a, StringField(1, b.sessionId) + (IntField(2, b.p1) + (IntField(3, b.p2)
                           + (StringField(4, b.p3) + rest)))) ==
            if !Utf8(b.sessionId) || !Utf8(b.p3) then None
            else Fold(Apply, a.(sessionId := m.sessionId, p1 := m.p1, p2 := m.p2, p3 := m.p3), rest)
  {
    NarrowUndoesWiden(b.p1, b.p2);
    var m := Merge(a, b);
    var r4 := StringField(4, b.p3) + rest;
    var r3 := IntField(3, b.p2) + r4;
    FoldString(a, 1, b.sessionId, IntField(2, b.p1) + r3);
    FoldInt(a.(sessionId := m.sessionId), 2, b.p1, r3);
    FoldInt(a.(sessionId := m.sessionId, p1 := m.p1), 3, b.p2, r4);
    FoldString(a.(sessionId := m.sessionId, p1 := m.p1, p2 := m.p2), 4, b.p3, rest);
  }

  lemma FoldSecondHalf(a: CfgInfo, b: CfgInfo)
    ensures var m := Merge(a, b);
            Fold(Apply, a, LastRecords(b)) ==
            if !Utf8(b.gnsName) || !Utf8(b.ipPort) then None
            else Some(a.(gnsName := m.gnsName, ipPort := m.ipPort, fd := m.fd, reqBeginTime := m.reqBeginTime))
  {
    NarrowUndoesWiden(b.fd, b.p2);
    NarrowUndoesWiden(b.reqBeginTime, b.p2);
    var m := Merge(a, b);
    var r8 := IntField(8, b.reqBeginTime);
    var r7 := IntField(7, b.fd) + r8;
    FoldString(a, 5, b.gnsName, StringField(6, b.ipPort) + r7);
    FoldString(a.(gnsName := m.gnsName), 6, b.ipPort, r7);
    FoldInt(a.(gnsName := m.gnsName, ipPort := m.ipPort), 7, b.fd, r8);
    FoldInt(a.(gnsName := m.gnsName, ipPort := m.ipPort, fd := m.fd), 8, b.reqBeginTime, []);
    assert r8 + [] == r8;
  }

  /** Decoding an encoded message into another one merges them, whatever follows. */
  lemma DecodeMerges(a: CfgInfo, b: CfgInfo, rest: seq<byte>)
    requires |Encode(b)| < TWO_31
    ensures Decode(a, Encode(b) + rest) == if Utf8Strings(b) then Decode(Merge(a, b), rest) else None
  {
    SmallEnoughToRead(Records(b));
    ParseEncoded(Apply, a, Records(b), rest);
    FoldOfRecords(a, b);
  }

  /** A message survives the wire exactly when its strings are UTF-8. */
  lemma RoundTrip(m: CfgInfo)
    requires |Encode(m)| < TWO_31
    ensures Decode(DEFAULT, Encode(m)) == Some(m) <==> Utf8Strings(m)
    ensures !Utf8Strings(m) ==> Decode(DEFAULT, Encode(m)).None?
  {
    DecodeMerges(DEFAULT, m, []);
    assert Encode(m) + [] == Encode(m);
  }

  /** The concatenation of two encodings is an encoding of the merged message. */
  lemma ConcatenationIsMerge(a: CfgInfo, b: CfgInfo)
    requires |Encode(a)| < TWO_31 && |Encode(b)| < TWO_31
    requires Utf8Strings(a) && Utf8Strings(b)
    ensures Decode(DEFAULT, Encode(a) + Encode(b)) == Some(Merge(a, b))
  {
    DecodeMerges(DEFAULT, a, Encode(b));
    DecodeMerges(a, b, []);
    assert Encode(b) + [] == Encode(b);
  }

  // ------------------------------------------------- last one wins, exactly

  /** Every field with the last value the records give it, or its old one. */
  function AfterRecords(m: CfgInfo, rs: seq<Record>): CfgInfo {
    CfgInfo(StringOr(rs, 1, m.sessionId), Int32Or(rs, 2, m.p1), Int64Or(rs, 3, m.p2), StringOr(rs, 4, m.p3),
            StringOr(rs, 5, m.gnsName), StringOr(rs, 6, m.ipPort), Int32Or(rs, 7, m.fd), Int32Or(rs, 8, m.reqBeginTime))
  }

  lemma AfterLast(m: CfgInfo, rs: seq<Record>)
    requires rs != []
    ensures var r := rs[|rs| - 1];
            Apply(AfterRecords(m, rs[..|rs| - 1]), r) ==
            if r.BytesRecord? && r.field in {1, 4, 5, 6} && !Utf8(r.payload) then None else Some(AfterRecords(m, rs))
  {
    hide Utf8, ToInt32, ToInt64;
  }

  lemma {:induction false} FoldIsLast(m: CfgInfo, rs: seq<Record>)
    ensures Fold(Apply, m, rs) == if Utf8Fields(rs, {1, 4, 5, 6}) then Some(AfterRecords(m, rs)) else None
    decreases |rs|
  {
    hide Apply, AfterRecords, Utf8Fields;
    if rs == [] {
      NoRecords(m);
    } else {
      FoldLast(Apply, m, rs);
      FoldIsLast(m, rs[..|rs| - 1]);
      Utf8FieldsLast(rs, {1, 4, 5, 6});
      AfterLast(m, rs);
    }
  }

  lemma NoRecords(m: CfgInfo)
    ensures AfterRecords(m, []) == m && Utf8Fields([], {1, 4, 5, 6})
  {
  }

  /** Decoding any input into a message fails exactly when the input is malformed or has
      a string that is not UTF-8, even one that is overwritten later. Otherwise each field
      gets its last value on the wire, or keeps its old one if it is not there. */
  lemma LastOneWins(m: CfgInfo, data: seq<byte>)
    ensures Decode(m, data) ==
            match WireRecords(data)
            case None => None
            case Some(rs) => if Utf8Fields(rs, {1, 4, 5, 6}) then Some(AfterRecords(m, rs)) else None
  {
    ParseIsFold(Apply, m, data);
    if WireRecords(data).Some? {
      FoldIsLast(m, WireRecords(data).value);
    }
  }

  lemma {:induction false} LastBytesIsUtf8(rs: seq<Record>, fields: set<int>, f: nat)
    requires Utf8Fields(rs, fields) && f in fields
    ensures LastBytes(rs, f).Some? ==> Utf8(LastBytes(rs, f).value)
  {
    hide Utf8, Utf8Fields;
    if rs != [] {
      Utf8FieldsLast(rs, fields);
      LastBytesIsUtf8(rs[..|rs| - 1], fields, f);
    }
  }

  /** What has been decoded holds UTF-8, and can be encoded and decoded again. */
  lemma DecodedIsUtf8(data: seq<byte>)
    requires Decode(DEFAULT, data).Some?
    ensures Utf8Strings(Decode(DEFAULT, data).value)
  {
    hide LastBytes, Utf8Fields;
    LastOneWins(DEFAULT, data);
    var rs := WireRecords(data).value;
    LastBytesIsUtf8(rs, {1, 4, 5, 6}, 1);
    LastBytesIsUtf8(rs, {1, 4, 5, 6}, 4);
    LastBytesIsUtf8(rs, {1, 4, 5, 6}, 5);
    LastBytesIsUtf8(rs, {1, 4, 5, 6}, 6);
  }

  /** The last value sent for a field is its default. */
  predicate EndsAsDefault(rs: seq<Record>, f: nat) {
    if f in {1, 4, 5, 6} then LastBytes(rs, f) == Some([])
    else if f == 3 then LastVarint(rs, f).Some? && ToInt64(LastVarint(rs, f).value) == 0
    else LastVarint(rs, f).Some? && ToInt32(LastVarint(rs, f).value) == 0
  }

  /** Decoding on top of a message equals merging the decoded message into it, for
      every message, exactly when no field ends on the wire with its default value. */
  lemma DecodeIsMergeUnlessDefaultSent(data: seq<byte>)
    requires Decode(DEFAULT, data).Some?
    ensures WireRecords(data).Some?
    ensures var e := Decode(DEFAULT, data).value;
            (forall m :: Decode(m, data) == Some(Merge(m, e))) <==>
            forall f | 1 <= f <= 8 :: !EndsAsDefault(WireRecords(data).value, f)
  {
    hide Decode, Merge, AfterRecords, EndsAsDefault, WireRecords, Utf8Fields;
    LastOneWins(DEFAULT, data);
    var rs := WireRecords(data).value;
    var e := AfterRecords(DEFAULT, rs);
    if f :| 1 <= f <= 8 && EndsAsDefault(rs, f) {
      LastOneWins(FULL, data);
      DefaultClears(rs, f);
      assert Decode(FULL, data) != Some(Merge(FULL, e));
    } else {
      forall m ensures Decode(m, data) == Some(Merge(m, e)) {
        LastOneWins(m, data);
        OtherwiseMerge(m, rs);
      }
    }
  }

  const FULL := CfgInfo([65], 1, 1, [65], [65], [65], 1, 1)

  lemma DefaultClears(rs: seq<Record>, f: nat)
    requires 1 <= f <= 8 && EndsAsDefault(rs, f)
    ensures AfterRecords(FULL, rs) != Merge(FULL, AfterRecords(DEFAULT, rs))
  {
    hide LastBytes, LastVarint, ToInt32, ToInt64;
  }

  lemma OtherwiseMerge(m: CfgInfo, rs: seq<Record>)
    requires forall f | 1 <= f <= 8 :: !EndsAsDefault(rs, f)
    ensures AfterRecords(m, rs) == Merge(m, AfterRecords(DEFAULT, rs))
  {
    hide LastBytes, LastVarint, ToInt32, ToInt64;
    assert !EndsAsDefault(rs, 1) && !EndsAsDefault(rs, 2) && !EndsAsDefault(rs, 3) && !EndsAsDefault(rs, 4);
    assert !EndsAsDefault(rs, 5) && !EndsAsDefault(rs, 6) && !EndsAsDefault(rs, 7) && !EndsAsDefault(rs, 8);
  }

  /** A zero sent explicitly clears a field that a merge would keep. */
  lemma ExplicitZeroIsNotMerge()
    ensures Decode(DEFAULT.(p1 := 5), [16, 0]) == Some(DEFAULT)
    ensures Decode(DEFAULT, [16, 0]) == Some(DEFAULT)
    ensures Merge(DEFAULT.(p1 := 5), DEFAULT) != DEFAULT
  {
    var d: seq<byte> := [16, 0];
    assert d[1..] == [0];
    assert ReadVarint(d, 5) == Got(16, 1);
    assert ReadVarint(d[1..], 10) == Got(0, 1);
    assert ReadRecord(d) == Some((VarintRecord(2, 0), 2));
    assert d[2..] == [];
  }

  /** The bytes of a message: the tags, and the order of the fields. */
  lemma EncodeLayout(m: CfgInfo)
    ensures Encode(m) ==
            StringPart(10, m.sessionId) + (NumberPart(16, m.p1) + (NumberPart(24, m.p2) + (StringPart(34, m.p3)
            + (StringPart(42, m.gnsName) + (StringPart(50, m.ipPort)
            + (NumberPart(56, m.fd) + NumberPart(64, m.reqBeginTime)))))))
  {
    hide StringField, IntField, StringPart, NumberPart, EncodeAll;
    LastLayout(m);
    PartsAre(1, m.sessionId, m.p1);
    PartsAre(2, m.sessionId, m.p1);
    PartsAre(3, m.sessionId, m.p2);
    PartsAre(4, m.p3, m.p2);
    var r4 := StringField(4, m.p3) + LastRecords(m);
    var r3 := IntField(3, m.p2) + r4;
    EncodeAllAppend(StringField(1, m.sessionId), IntField(2, m.p1) + r3);
    EncodeAllAppend(IntField(2, m.p1), r3);
    EncodeAllAppend(IntField(3, m.p2), r4);
    EncodeAllAppend(StringField(4, m.p3), LastRecords(m));
  }

  lemma LastLayout(m: CfgInfo)
    ensures EncodeAll(LastRecords(m)) ==
            StringPart(42, m.gnsName) + (StringPart(50, m.ipPort)
            + (NumberPart(56, m.fd) + NumberPart(64, m.reqBeginTime)))
  {
    hide StringField, IntField, StringPart, NumberPart, EncodeAll;
    PartsAre(5, m.gnsName, m.fd);
    PartsAre(6, m.ipPort, m.fd);
    PartsAre(7, m.ipPort, m.fd);
    PartsAre(8, m.ipPort, m.reqBeginTime);
    var r8 := IntField(8, m.reqBeginTime);
    var r7 := IntField(7, m.fd) + r8;
    EncodeAllAppend(StringField(5, m.gnsName), StringField(6, m.ipPort) + r7);
    EncodeAllAppend(StringField(6, m.ipPort), r7);
    EncodeAllAppend(IntField(7, m.fd), r8);
  }

  /** Not a field of this message, by its number or its wire type. */
  predicate Unknown(x: Item) {
    && (x.field in {1, 4, 5, 6} ==> !x.Delimited?)
    && (x.field in {2, 3, 7, 8} ==> !x.Varint?)
  }

  /** Unknown fields in front of anything, groups included, make no difference. */
  lemma UnknownIsSkipped(m: CfgInfo, xs: seq<Item>, rest: seq<byte>)
    requires forall x <- xs :: ValidItem(x) && Unknown(x)
    ensures Decode(m, EncodeItems(xs) + rest) == Decode(m, rest)
  {
    hide ValidItem;
    SkipItems(Apply, m, xs, rest);
  }

  /** The order in which the sizes are added differs from the order of writing. */
  function Size(m: CfgInfo): nat {
    StringFieldSize(m.sessionId) + StringFieldSize(m.p3) + StringFieldSize(m.gnsName) + StringFieldSize(m.ipPort)
    + IntFieldSize(m.p2) + IntFieldSize(m.p1) + IntFieldSize(m.fd) + IntFieldSize(m.reqBeginTime)
  }

  lemma EncodedLength(m: CfgInfo)
    ensures |Encode(m)| == |EncodeAll(StringField(1, m.sessionId))| + |EncodeAll(IntField(2, m.p1))|
                           + |EncodeAll(IntField(3, m.p2))| + |EncodeAll(StringField(4, m.p3))|
                           + |EncodeAll(LastRecords(m))|
  {
    var r4 := StringField(4, m.p3) + LastRecords(m);
    var r3 := IntField(3, m.p2) + r4;
    var r2 := IntField(2, m.p1) + r3;
    EncodeAllAppend(StringField(1, m.sessionId), r2);
    EncodeAllAppend(IntField(2, m.p1), r3);
    EncodeAllAppend(IntField(3, m.p2), r4);
    EncodeAllAppend(StringField(4, m.p3), LastRecords(m));
  }

  lemma LastLength(m: CfgInfo)
    ensures |EncodeAll(LastRecords(m))| ==
            |EncodeAll(StringField(5, m.gnsName))| + |EncodeAll(StringField(6, m.ipPort))|
            + |EncodeAll(IntField(7, m.fd))| + |EncodeAll(IntField(8, m.reqBeginTime))|
  {
    var r8 := IntField(8, m.reqBeginTime);
    var r7 := IntField(7, m.fd) + r8;
    var r6 := StringField(6, m.ipPort) + r7;
    EncodeAllAppend(StringField(5, m.gnsName), r6);
    EncodeAllAppend(StringField(6, m.ipPort), r7);
    EncodeAllAppend(IntField(7, m.fd), r8);
  }

  lemma SizeAgrees(m: CfgInfo)
    ensures Agrees(Size(m), |Encode(m)|)
  {
    EncodedLength(m);
    LastLength(m);
    StringFieldSizeAgrees(1, m.sessionId);
    IntFieldSizeExact(2, m.p1);
    IntFieldSizeExact(3, m.p2);
    StringFieldSizeAgrees(4, m.p3);
    StringFieldSizeAgrees(5, m.gnsName);
    StringFieldSizeAgrees(6, m.ipPort);
    IntFieldSizeExact(7, m.fd);
    IntFieldSizeExact(8, m.reqBeginTime);
  }

  // ------------------------------------------------------- the message class

  class CfgInfoReq {
    var sessionId: seq<byte>
    var p1: int32
    var p2: int64
    var p3: seq<byte>
    var gnsName: seq<byte>
    var ipPort: seq<byte>
    var fd: int32
    var reqBeginTime: int32

    function Value(): CfgInfo
      reads this
    {
      CfgInfo(sessionId, p1, p2, p3, gnsName, ipPort, fd, reqBeginTime)
    }

    constructor ()
      ensures Value() == DEFAULT
    {
      sessionId, p1, p2, p3, gnsName, ipPort, fd, reqBeginTime := [], 0, 0, [], [], [], 0, 0;
    }

    method Clear()
      modifies this
      ensures Value() == DEFAULT
    {
      sessionId, p3, gnsName, ipPort := [], [], [], [];
      p2, p1, fd, reqBeginTime := 0, 0, 0, 0;
    }

    /** The parser's loop. A message that ends early (tag 0, or the end of a group)
        counts as a failure, as it does for every caller in this system. */
    method InternalParse(data: seq<byte>) returns (ok: bool)
      modifies this
      ensures ok <==> Decode(old(Value()), data).Some?
      ensures ok ==> Value() == Decode(old(Value()), data).value
    {
      ghost var goal := Decode(Value(), data);
      var ptr := 0;
      while ptr < |data|
        invariant 0 <= ptr <= |data|
        invariant Decode(Value(), data[ptr..]) == goal
        decreases |data| - ptr
      {
        var t := ReadTag(data[ptr..]);
        if t.Fail? {
          return false;
        }
        var next := ParseTagged(t.value, data, ptr);
        if next.None? {
          return false;
        }
        ptr := next.value;
      }
      return true;
    }

    /** One field whose tag has been read; the position after it. */
    method ParseTagged(tag: nat, data: seq<byte>, ptr: nat) returns (next: Option<nat>)
      requires ptr < |data| && ReadTag(data[ptr..]).Got? && ReadTag(data[ptr..]).value == tag
      modifies this
      ensures next.None? ==> Decode(old(Value()), data[ptr..]).None?
      ensures next.Some? ==> ptr < next.value <= |data|
                             && Decode(old(Value()), data[ptr..]) == Decode(Value(), data[next.value..])
    {
      hide Parse, PayloadExtent, RecordOf, Utf8;
      ghost var m := Value();
      var k := ReadTag(data[ptr..]).used;
      var rest := data[ptr + k..];
      var used := ParseField(tag, rest);
      if used.None? {
        ParseFailsAt(Apply, m, data, ptr, tag, k, rest);
        return None;
      }
      ghost var m' := Value();
      ParseAt(Apply, m, data, ptr, tag, k, rest, used.value, m');
      return Some(ptr + k + used.value);
    }

    /** The body of the switch on the tag; the number of bytes it consumes. */
    method ParseField(tag: nat, rest: seq<byte>) returns (used: Option<nat>)
      modifies this
      ensures used.None? ==> || tag / 8 == 0
                             || PayloadExtent(tag, rest).None?
                             || Apply(old(Value()), RecordOf(tag, rest)).None?
      ensures used.Some? ==> && tag / 8 != 0
                             && PayloadExtent(tag, rest) == used
                             && Apply(old(Value()), RecordOf(tag, rest)) == Some(Value())
    {
      match tag / 8 {
        case 1 => if tag == 10 { used := ParseString(tag, rest); return; }
        case 2 => if tag == 16 { used := ParseScalar(tag, rest); return; }
        case 3 => if tag == 24 { used := ParseScalar(tag, rest); return; }
        case 4 => if tag == 34 { used := ParseString(tag, rest); return; }
        case 5 => if tag == 42 { used := ParseString(tag, rest); return; }
        case 6 => if tag == 50 { used := ParseString(tag, rest); return; }
        case 7 => if tag == 56 { used := ParseScalar(tag, rest); return; }
        case 8 => if tag == 64 { used := ParseScalar(tag, rest); return; }
        case _ =>
      }
      if tag % 8 == 4 || tag / 8 == 0 {
        return None;
      }
      used := PayloadExtent(tag, rest);
    }

    method ParseString(tag: nat, rest: seq<byte>) returns (used: Option<nat>)
      requires tag in {10, 34, 42, 50}
      modifies this
      ensures used.None? ==> PayloadExtent(tag, rest).None? || Apply(old(Value()), RecordOf(tag, rest)).None?
      ensures used.Some? ==> PayloadExtent(tag, rest) == used
                             && Apply(old(Value()), RecordOf(tag, rest)) == Some(Value())
    {
      var r := ReadLength(rest);
      if r.Fail? || !Utf8(Payload(rest)) {
        return None;
      }
      if tag == 10 {
        sessionId := Payload(rest);
      } else if tag == 34 {
        p3 := Payload(rest);
      } else if tag == 42 {
        gnsName := Payload(rest);
      } else {
        ipPort := Payload(rest);
      }
      return Some(r.used);
    }

    method ParseScalar(tag: nat, rest: seq<byte>) returns (used: Option<nat>)
      requires tag in {16, 24, 56, 64}
      modifies this
      ensures used == PayloadExtent(tag, rest)
      ensures used.Some? ==> Apply(old(Value()), RecordOf(tag, rest)) == Some(Value())
    {
      var r := ReadScalar(rest);
      if r.Fail? {
        return None;
      }
      if tag == 16 {
        p1 := ToInt32(r.value);
      } else if tag == 24 {
        p2 := ToInt64(r.value);
      } else if tag == 56 {
        fd := ToInt32(r.value);
      } else {
        reqBeginTime := ToInt32(r.value);
      }
      return Some(r.used);
    }

    method ParseFromString(data: seq<byte>) returns (ok: bool)
      modifies this
      ensures ok <==> Decode(DEFAULT, data).Some?
      ensures ok ==> Value() == Decode(DEFAULT, data).value
    {
      Clear();
      ok := InternalParse(data);
    }

    method InternalSerialize(target: seq<byte>) returns (written: seq<byte>)
      ensures written == target + Encode(Value())
    {
      ghost var m := Value();
      var w1 := WriteStringField(1, sessionId, target);
      var w2 := WriteIntField(2, p1, w1);
      var w3 := WriteIntField(3, p2, w2);
      var w4 := WriteStringField(4, p3, w3);
      written := SerializeLast(w4);
      ghost var r4 := StringField(4, p3) + LastRecords(m);
      ghost var r3 := IntField(3, p2) + r4;
      WriteOn(w3, StringField(4, p3), LastRecords(m));
      WriteOn(w2, IntField(3, p2), r4);
      WriteOn(w1, IntField(2, p1), r3);
      WriteOn(target, StringField(1, sessionId), IntField(2, p1) + r3);
    }

    method SerializeLast(target: seq<byte>) returns (written: seq<byte>)
      ensures written == target + EncodeAll(LastRecords(Value()))
    {
      var w5 := WriteStringField(5, gnsName, target);
      var w6 := WriteStringField(6, ipPort, w5);
      var w7 := WriteIntField(7, fd, w6);
      written := WriteIntField(8, reqBeginTime, w7);
      ghost var r8 := IntField(8, reqBeginTime);
      ghost var r7 := IntField(7, fd) + r8;
      WriteOn(w6, IntField(7, fd), r8);
      WriteOn(w5, StringField(6, ipPort), r7);
      WriteOn(target, StringField(5, gnsName), StringField(6, ipPort) + r7);
    }

    method ByteSizeLong() returns (totalSize: nat)
      ensures Agrees(totalSize, |Encode(Value())|)
    {
      totalSize := 0;
      totalSize := totalSize + StringFieldSize(sessionId);
      totalSize := totalSize + StringFieldSize(p3);
      totalSize := totalSize + StringFieldSize(gnsName);
      totalSize := totalSize + StringFieldSize(ipPort);
      totalSize := totalSize + IntFieldSize(p2);
      totalSize := totalSize + IntFieldSize(p1);
      totalSize := totalSize + IntFieldSize(fd);
      totalSize := totalSize + IntFieldSize(reqBeginTime);
      SizeAgrees(Value());
    }

    /** The runtime refuses messages of 2 GiB and more. */
    method SerializeToString() returns (ok: bool, out: seq<byte>)
      ensures ok <==> |Encode(Value())| < TWO_31
      ensures ok ==> out == Encode(Value())
    {
      var size := ByteSizeLong();
      if size >= TWO_31 {
        return false, [];
      }
      out := InternalSerialize([]);
      ok := true;
    }

    method MergeFrom(from: CfgInfoReq)
      requires from != this
      modifies this
      ensures Value() == Merge(old(Value()), from.Value())
    {
      MergeStrings(from);
      if from.p2 != 0 {
        p2 := from.p2;
      }
      if from.p1 != 0 {
        p1 := from.p1;
      }
      if from.fd != 0 {
        fd := from.fd;
      }
      if from.reqBeginTime != 0 {
        reqBeginTime := from.reqBeginTime;
      }
    }

    method MergeStrings(from: CfgInfoReq)
      requires from != this
      modifies this
      ensures var m := Merge(old(Value()), from.Value());
              Value() == old(Value()).(sessionId := m.sessionId, p3 := m.p3, gnsName := m.gnsName, ipPort := m.ipPort)
    {
      if |from.sessionId| > 0 {
        sessionId := from.sessionId;
      }
      if |from.p3| > 0 {
        p3 := from.p3;
      }
      if |from.gnsName| > 0 {
        gnsName := from.gnsName;
      }
      if |from.ipPort| > 0 {
        ipPort := from.ipPort;
      }
    }

    method CopyFrom(from: CfgInfoReq)
      modifies this
      ensures Value() == old(from.Value())
    {
      if from == this {
        return;
      }
      Clear();
      MergeFrom(from);
    }
  }
}
