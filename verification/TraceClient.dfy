/** The C++ client: its list of session configurations, and which sessions a trace
    statement uploads to. */
module TraceClient {
  import opened Common
  import opened Wire
  import Codec = CfgInfoCodec

  const CFG_INFO_REQ := 0x8a
  const HEARTBEAT_MSG := 0x92
  const CLEAR_SESSION_REQ := 0x93

  const TRACE_LOG_SET_ID := 1

  // ------------------------------------------------- the message ClearSessionReq

  function ApplyClear(sessionId: seq<byte>, r: Record): Option<seq<byte>> {
    match r
    case BytesRecord(f, s) => if f == 1 then (if Utf8(s) then Some(s) else None) else Some(sessionId)
    case _ => Some(sessionId)
  }

  function DecodeClear(data: seq<byte>): Option<seq<byte>> {
    Parse(ApplyClear, [], data)
  }

  function EncodeClear(sessionId: seq<byte>): seq<byte> {
    EncodeAll(StringField(1, sessionId))
  }

  lemma ClearRoundTrip(sessionId: seq<byte>)
    requires |EncodeClear(sessionId)| < TWO_31
    ensures DecodeClear(EncodeClear(sessionId)) == if Utf8(sessionId) then Some(sessionId) else None
  {
    SmallEnoughToRead(StringField(1, sessionId));
    ParseEncoded(ApplyClear, [], StringField(1, sessionId), []);
    FoldOptional(ApplyClear, [], BytesRecord(1, sessionId), []);
    assert EncodeClear(sessionId) + [] == EncodeClear(sessionId);
    assert [BytesRecord(1, sessionId)] + [] == [BytesRecord(1, sessionId)];
  }

  lemma ClearLayout(sessionId: seq<byte>)
    ensures EncodeClear(sessionId) == StringPart(10, sessionId)
  {
    PartsAre(1, sessionId, 0);
  }

  // ------------------------------------------------------------------ the list

  datatype CfgInfo = CfgInfo(sessionId: seq<byte>, p1: int32, p2: int64, p3: seq<byte>)

  predicate Unique(list: seq<CfgInfo>) {
    forall i, j | 0 <= i < j < |list| :: list[i].sessionId != list[j].sessionId
  }

  function Without(list: seq<CfgInfo>, sessionId: seq<byte>): seq<CfgInfo> {
    if list == [] then []
    else (if list[0].sessionId == sessionId then [] else [list[0]]) + Without(list[1..], sessionId)
  }

  function Saved(list: seq<CfgInfo>, c: CfgInfo): seq<CfgInfo> {
    Without(list, c.sessionId) + [c]
  }

  /** Erases the first entry of a session only. */
  function Cleared(list: seq<CfgInfo>, sessionId: seq<byte>): seq<CfgInfo> {
    if list == [] then []
    else if list[0].sessionId == sessionId then list[1..]
    else [list[0]] + Cleared(list[1..], sessionId)
  }

  /** The entry the list has for a session. */
  function Lookup(list: seq<CfgInfo>, sessionId: seq<byte>): (r: Option<CfgInfo>)
    ensures r.Some? ==> r.value in list && r.value.sessionId == sessionId
    ensures r.None? ==> forall c <- list :: c.sessionId != sessionId
  {
    if list == [] then None
    else if list[0].sessionId == sessionId then Some(list[0])
    else Lookup(list[1..], sessionId)
  }

  lemma {:induction false} LookupUnique(list: seq<CfgInfo>, c: CfgInfo)
    requires Unique(list) && c in list
    ensures Lookup(list, c.sessionId) == Some(c)
  {
    if list[0] != c {
      LookupUnique(list[1..], c);
      var i :| 0 <= i < |list| && list[i] == c;
      assert list[0].sessionId != list[i].sessionId;
    }
  }

  lemma {:induction false} WithoutHas(list: seq<CfgInfo>, sessionId: seq<byte>, c: CfgInfo)
    ensures c in Without(list, sessionId) <==> c in list && c.sessionId != sessionId
  {
    if list != [] {
      WithoutHas(list[1..], sessionId, c);
      assert c in list <==> c == list[0] || c in list[1..];
    }
  }

  lemma {:induction false} WithoutUnique(list: seq<CfgInfo>, sessionId: seq<byte>)
    requires Unique(list)
    ensures Unique(Without(list, sessionId))
  {
    if list != [] {
      var tail := Without(list[1..], sessionId);
      WithoutUnique(list[1..], sessionId);
      forall j | 0 <= j < |tail| ensures tail[j].sessionId != list[0].sessionId {
        WithoutHas(list[1..], sessionId, tail[j]);
      }
    }
  }

  lemma WithoutKeeps(list: seq<CfgInfo>, sessionId: seq<byte>)
    requires Unique(list)
    ensures Unique(Without(list, sessionId))
    ensures forall c :: c in Without(list, sessionId) <==> c in list && c.sessionId != sessionId
  {
    WithoutUnique(list, sessionId);
    forall c: CfgInfo ensures c in Without(list, sessionId) <==> c in list && c.sessionId != sessionId {
      WithoutHas(list, sessionId, c);
    }
  }

  /** With unique sessions, stopping at the first match erases all there is to erase. */
  lemma {:induction false} ClearIsWithout(list: seq<CfgInfo>, sessionId: seq<byte>)
    requires Unique(list)
    ensures Cleared(list, sessionId) == Without(list, sessionId)
  {
    if list == [] {
    } else if list[0].sessionId == sessionId {
      NothingToErase(list[1..], sessionId);
    } else {
      ClearIsWithout(list[1..], sessionId);
    }
  }

  lemma {:induction false} NothingToErase(list: seq<CfgInfo>, sessionId: seq<byte>)
    requires forall i | 0 <= i < |list| :: list[i].sessionId != sessionId
    ensures Without(list, sessionId) == list
  {
    if list != [] {
      NothingToErase(list[1..], sessionId);
    }
  }

  /** One turn of the erasing loop at position `i`. */
  lemma WithoutStep(list: seq<CfgInfo>, sessionId: seq<byte>, i: nat)
    requires i < |list|
    ensures var erased := list[..i] + list[i + 1..];
            list[..i] + Without(list[i..], sessionId) ==
            if list[i].sessionId == sessionId then erased[..i] + Without(erased[i..], sessionId)
            else list[..i + 1] + Without(list[i + 1..], sessionId)
  {
    var erased := list[..i] + list[i + 1..];
    assert list[i..][1..] == list[i + 1..] == erased[i..];
    assert erased[..i] == list[..i] && list[..i + 1] == list[..i] + [list[i]];
  }

  lemma WithoutNone(list: seq<CfgInfo>, sessionId: seq<byte>)
    ensures list[..|list|] + Without(list[|list|..], sessionId) == list
  {
  }

  // -------------------------------------------------------- messages and runs

  datatype Msg = Msg(id: int, content: seq<byte>)

  datatype Effect = Set(cfg: CfgInfo) | Clear(sessionId: seq<byte>) | Nothing

  function EffectOf(m: Msg): Effect {
    if m.id == CFG_INFO_REQ then
      match Codec.Decode(Codec.DEFAULT, m.content)
      case None => Nothing
      case Some(v) => if v.p1 == TRACE_LOG_SET_ID then Set(CfgInfo(v.sessionId, v.p1, v.p2, v.p3)) else Nothing
    else if m.id == CLEAR_SESSION_REQ then
      match DecodeClear(m.content)
      case None => Nothing
      case Some(s) => Clear(s)
    else Nothing
  }

  function Act(list: seq<CfgInfo>, e: Effect): seq<CfgInfo> {
    match e
    case Set(c) => Saved(list, c)
    case Clear(s) => Cleared(list, s)
    case Nothing => list
  }

  function Run(history: seq<Msg>): seq<CfgInfo> {
    if history == [] then []
    else Act(Run(history[..|history| - 1]), EffectOf(history[|history| - 1]))
  }

  /** What the history says about a session: its last accepted configuration, unless it
      was cleared afterwards. */
  function Latest(history: seq<Msg>, sessionId: seq<byte>): Option<CfgInfo> {
    if history == [] then None
    else
      match EffectOf(history[|history| - 1])
      case Set(c) =>
        if c.sessionId == sessionId then Some(c) else Latest(history[..|history| - 1], sessionId)
      case Clear(s) =>
        if s == sessionId then None else Latest(history[..|history| - 1], sessionId)
      case Nothing => Latest(history[..|history| - 1], sessionId)
  }

  lemma ActLookup(list: seq<CfgInfo>, e: Effect, sessionId: seq<byte>)
    requires Unique(list)
    ensures Unique(Act(list, e))
    ensures Lookup(Act(list, e), sessionId) ==
            match e
            case Set(c) => if c.sessionId == sessionId then Some(c) else Lookup(list, sessionId)
            case Clear(s) => if s == sessionId then None else Lookup(list, sessionId)
            case Nothing => Lookup(list, sessionId)
  {
    var after := Act(list, e);
    match e
    case Set(c) =>
      WithoutKeeps(list, c.sessionId);
      AppendUnique(Without(list, c.sessionId), c);
      SameEntries(list, after, sessionId, c.sessionId);
    case Clear(s) =>
      ClearIsWithout(list, s);
      WithoutKeeps(list, s);
      SameEntries(list, after, sessionId, s);
    case Nothing =>
  }

  lemma AppendUnique(list: seq<CfgInfo>, c: CfgInfo)
    requires Unique(list) && forall i | 0 <= i < |list| :: list[i].sessionId != c.sessionId
    ensures Unique(list + [c]) && Lookup(list + [c], c.sessionId) == Some(c)
  {
    LookupUnique(list + [c], c);
  }

  lemma SameEntries(a: seq<CfgInfo>, b: seq<CfgInfo>, sessionId: seq<byte>, changed: seq<byte>)
    requires Unique(a) && Unique(b)
    requires forall c: CfgInfo | c.sessionId != changed :: c in a <==> c in b
    ensures sessionId != changed ==> Lookup(a, sessionId) == Lookup(b, sessionId)
  {
    if sessionId != changed {
      if Lookup(a, sessionId).Some? {
        LookupUnique(b, Lookup(a, sessionId).value);
      }
    }
  }

  /** After any sequence of messages the list has at most one entry per session, and it
      is the map from sessions to their latest configuration. */
  lemma {:induction false} ListIsLatest(history: seq<Msg>, sessionId: seq<byte>)
    ensures Unique(Run(history))
    ensures Lookup(Run(history), sessionId) == Latest(history, sessionId)
    decreases |history|
  {
    if history != [] {
      var before := history[..|history| - 1];
      ListIsLatest(before, sessionId);
      ActLookup(Run(before), EffectOf(history[|history| - 1]), sessionId);
    }
  }

  // ------------------------------------------------------------------ uploads

  predicate Check(c: CfgInfo, id: nat) {
    c.p1 == TRACE_LOG_SET_ID && ToUnsigned(c.p2) == id
  }

  function Matching(list: seq<CfgInfo>, id: nat): seq<seq<byte>> {
    if list == [] then []
    else (if Check(list[0], id) then [list[0].sessionId] else []) + Matching(list[1..], id)
  }

  function Sessions(list: seq<CfgInfo>): (r: seq<seq<byte>>)
    ensures |r| == |list|
  {
    seq(|list|, i requires 0 <= i < |list| => list[i].sessionId)
  }

  function Count(s: seq<byte>, ss: seq<seq<byte>>): nat {
    if ss == [] then 0 else (if ss[0] == s then 1 else 0) + Count(s, ss[1..])
  }

  lemma {:induction false} MatchingCounts(list: seq<CfgInfo>, id: nat, s: seq<byte>)
    requires Unique(list)
    ensures Count(s, Matching(list, id)) ==
            match Lookup(list, s) case None => 0 case Some(c) => if Check(c, id) then 1 else 0
  {
    if list != [] {
      var tail := Matching(list[1..], id);
      MatchingCounts(list[1..], id, s);
      LookupUnique(list, list[0]);
      assert [] + tail == tail && ([list[0].sessionId] + tail)[1..] == tail;
    }
  }

  lemma {:induction false} LatestIsSetId(history: seq<Msg>, s: seq<byte>)
    ensures Latest(history, s).Some? ==> Latest(history, s).value.p1 == TRACE_LOG_SET_ID
    decreases |history|
  {
    if history != [] {
      LatestIsSetId(history[..|history| - 1], s);
    }
  }

  /** After any history, a trace statement for an id uploads exactly once to every
      session whose latest configuration asks for that id (compared as an unsigned
      64-bit number), and to no other session. */
  lemma UploadsExactly(history: seq<Msg>, id: nat, s: seq<byte>)
    ensures Count(s, Matching(Run(history), id)) ==
            match Latest(history, s)
            case None => 0
            case Some(c) => if ToUnsigned(c.p2) == id then 1 else 0
  {
    ListIsLatest(history, s);
    MatchingCounts(Run(history), id, s);
    LatestIsSetId(history, s);
  }

  lemma {:induction false} SessionsCounts(list: seq<CfgInfo>, s: seq<byte>)
    requires Unique(list)
    ensures Count(s, Sessions(list)) == if Lookup(list, s).Some? then 1 else 0
  {
    if list == [] {
    } else {
      SessionsCounts(list[1..], s);
      LookupUnique(list, list[0]);
      assert Sessions(list)[1..] == Sessions(list[1..]);
    }
  }

  /** An unconditional trace uploads exactly once to every session that has a
      configuration, and to no other. */
  lemma TraceReachesAll(history: seq<Msg>, s: seq<byte>)
    ensures Count(s, Sessions(Run(history))) == if Latest(history, s).Some? then 1 else 0
  {
    ListIsLatest(history, s);
    SessionsCounts(Run(history), s);
  }

  /** Messages that change nothing: those with another id, malformed ones, and
      configurations for another operation. */
  lemma OthersChangeNothing(m: Msg)
    ensures EffectOf(m).Nothing? <==>
            && (m.id == 0x8a ==> var v := Codec.Decode(Codec.DEFAULT, m.content); v.None? || v.value.p1 != 1)
            && (m.id == 0x93 ==> DecodeClear(m.content).None?)
  {
    hide Codec.Decode, DecodeClear;
  }

  predicate NotNamed(later: seq<Msg>, s: seq<byte>) {
    forall i | 0 <= i < |later| ::
      match EffectOf(later[i])
      case Set(c) => c.sessionId != s
      case Clear(t) => t != s
      case Nothing => true
  }

  /** From the server's message to the upload: once the configuration it encodes has
      arrived, and as long as neither a later configuration nor a clear names the
      session, the client holds its values and a trace of that id reaches it. */
  lemma ConfiguredOverTheWire(history: seq<Msg>, m: Codec.CfgInfo, later: seq<Msg>)
    requires m.p1 == 1 && Codec.Utf8Strings(m) && |Codec.Encode(m)| < TWO_31
    requires NotNamed(later, m.sessionId)
    ensures var h := history + [Msg(0x8a, Codec.Encode(m))] + later;
            && Lookup(Run(h), m.sessionId) == Some(CfgInfo(m.sessionId, 1, m.p2, m.p3))
            && Count(m.sessionId, Matching(Run(h), ToUnsigned(m.p2))) == 1
            && Count(m.sessionId, Sessions(Run(h))) == 1
  {
    hide Codec.Encode, Codec.Decode, Codec.Utf8Strings;
    var first := history + [Msg(0x8a, Codec.Encode(m))];
    Codec.RoundTrip(m);
    assert first[..|history|] == history;
    assert Latest(first, m.sessionId) == Some(CfgInfo(m.sessionId, m.p1, m.p2, m.p3));
    Undisturbed(first, later, m.sessionId);
    ListIsLatest(first + later, m.sessionId);
    UploadsExactly(first + later, ToUnsigned(m.p2), m.sessionId);
    TraceReachesAll(first + later, m.sessionId);
  }

  /** And from a clear message on, none reaches it until it is configured again. */
  lemma ClearedOverTheWire(history: seq<Msg>, s: seq<byte>, later: seq<Msg>, id: nat)
    requires Utf8(s) && |EncodeClear(s)| < TWO_31 && NotNamed(later, s)
    ensures var h := history + [Msg(0x93, EncodeClear(s))] + later;
            && Count(s, Matching(Run(h), id)) == 0
            && Count(s, Sessions(Run(h))) == 0
  {
    hide EncodeClear, DecodeClear, Utf8;
    var first := history + [Msg(0x93, EncodeClear(s))];
    ClearRoundTrip(s);
    assert Latest(first, s) == None;
    Undisturbed(first, later, s);
    UploadsExactly(first + later, id, s);
    TraceReachesAll(first + later, s);
  }

  lemma {:induction false} Undisturbed(h: seq<Msg>, later: seq<Msg>, s: seq<byte>)
    requires NotNamed(later, s)
    ensures Latest(h + later, s) == Latest(h, s)
    decreases |later|
  {
    if later == [] {
      assert h + later == h;
    } else {
      var n := |later| - 1;
      Undisturbed(h, later[..n], s);
      assert (h + later)[..|h + later| - 1] == h + later[..n];
      assert (h + later)[|h + later| - 1] == later[n];
    }
  }

  // --------------------------------------------------------------- the client

  class TraceLog {
    var cfgInfos: seq<CfgInfo>
    /** The sessions to which an upload was attempted, in order. */
    var uploads: seq<seq<byte>>

    constructor ()
      ensures cfgInfos == [] && uploads == []
    {
      cfgInfos, uploads := [], [];
    }

    method HandleMsg(m: Msg)
      modifies this
      ensures cfgInfos == old(Act(cfgInfos, EffectOf(m)))
      ensures uploads == match EffectOf(m)
                         case Set(c) => old(uploads) + [c.sessionId]
                         case _ => old(uploads)
    {
      match m.id {
        case 0x8a => SetConfig(m.content);
        case 0x92 =>
        case 0x93 =>
          var sessionId := DecodeClear(m.content);
          if sessionId.Some? {
            ClearSessionInCfg(sessionId.value);
          }
        case _ =>
      }
    }

    method SetConfig(content: seq<byte>)
      modifies this
      ensures var e := EffectOf(Msg(CFG_INFO_REQ, content));
              && cfgInfos == old(Act(cfgInfos, e))
              && uploads == match e case Set(c) => old(uploads) + [c.sessionId] case _ => old(uploads)
    {
      var pb := new Codec.CfgInfoReq();
      var ok := pb.ParseFromString(content);
      if !ok {
        return;
      }
      if pb.p1 == TRACE_LOG_SET_ID {
        SaveConfig(CfgInfo(pb.sessionId, pb.p1, pb.p2, pb.p3));
        uploads := uploads + [pb.sessionId];
      }
    }

    method SaveConfig(c: CfgInfo)
      modifies this`cfgInfos
      ensures cfgInfos == Saved(old(cfgInfos), c)
    {
      hide Without;
      ghost var goal := Without(cfgInfos, c.sessionId);
      var i := 0;
      assert cfgInfos[..0] + Without(cfgInfos[0..], c.sessionId) == goal by {
        assert cfgInfos[0..] == cfgInfos;
      }
      while i < |cfgInfos|
        invariant 0 <= i <= |cfgInfos|
        invariant cfgInfos[..i] + Without(cfgInfos[i..], c.sessionId) == goal
        decreases |cfgInfos| - i
      {
        WithoutStep(cfgInfos, c.sessionId, i);
        if cfgInfos[i].sessionId == c.sessionId {
          cfgInfos := cfgInfos[..i] + cfgInfos[i + 1..];
        } else {
          i := i + 1;
        }
      }
      WithoutNone(cfgInfos, c.sessionId);
      cfgInfos := cfgInfos + [c];
    }

    method ClearSessionInCfg(sessionId: seq<byte>)
      modifies this`cfgInfos
      ensures cfgInfos == Cleared(old(cfgInfos), sessionId)
    {
      var i := 0;
      while i < |cfgInfos|
        invariant 0 <= i <= |cfgInfos| && cfgInfos == old(cfgInfos)
        invariant cfgInfos[..i] + Cleared(cfgInfos[i..], sessionId) == Cleared(old(cfgInfos), sessionId)
      {
        assert cfgInfos[i..][1..] == cfgInfos[i + 1..];
        if cfgInfos[i].sessionId == sessionId {
          cfgInfos := cfgInfos[..i] + cfgInfos[i + 1..];
          return;
        }
        i := i + 1;
      }
    }

    /** A conditional trace statement; `id` is the number its argument points to. */
    method TLogIf(id: nat)
      modifies this`uploads
      ensures uploads == old(uploads) + Matching(cfgInfos, id)
    {
      var i := 0;
      while i < |cfgInfos|
        invariant 0 <= i <= |cfgInfos|
        invariant uploads + Matching(cfgInfos[i..], id) == old(uploads) + Matching(cfgInfos, id)
      {
        assert cfgInfos[i..][1..] == cfgInfos[i + 1..];
        if Check(cfgInfos[i], id) {
          uploads := uploads + [cfgInfos[i].sessionId];
        }
        i := i + 1;
      }
    }

    /** An unconditional trace statement. */
    method TLog()
      modifies this`uploads
      ensures uploads == old(uploads) + Sessions(cfgInfos)
    {
      var i := 0;
      while i < |cfgInfos|
        invariant 0 <= i <= |cfgInfos|
        invariant uploads == old(uploads) + Sessions(cfgInfos)[..i]
      {
        uploads := uploads + [cfgInfos[i].sessionId];
        i := i + 1;
      }
    }

    /** A whole life of the client: what it has been sent decides its list. */
    method HandleAll(history: seq<Msg>)
      requires cfgInfos == []
      modifies this
      ensures cfgInfos == Run(history)
    {
      var i := 0;
      while i < |history|
        invariant 0 <= i <= |history|
        invariant cfgInfos == Run(history[..i])
      {
        HandleMsg(history[i]);
        assert history[..i + 1][..i] == history[..i];
        i := i + 1;
      }
      assert history[..i] == history;
    }
  }
}
