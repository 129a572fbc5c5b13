/** The server's side of a session: configurations, the log lines stored for each, and
    the fair delivery of those lines. */
module LogDelivery {
  import opened Common
  import opened Wire
  import Codec = LogRespCodec

  /** Lines before `logIdx` have been delivered. */
  datatype Cfg = Cfg(
    ipPort: seq<byte>, gnsName: seq<byte>, p1: int32, p2: int64, p3: seq<byte>,
    logs: seq<seq<byte>>, logIdx: nat)
  {
    predicate Valid() { logIdx <= |logs| }

    function Unread(): seq<seq<byte>>
      requires Valid()
    {
      logs[logIdx..]
    }
  }

  /** A line as a client uploads it. */
  datatype Line = Line(gnsName: seq<byte>, ipPort: seq<byte>, text: seq<byte>)

  const SPACE: byte := 0x20

  function Stored(line: Line): seq<byte> {
    line.gnsName + [SPACE] + line.ipPort + [SPACE, SPACE] + line.text
  }

  function Min(a: nat, b: nat): nat { if a < b then a else b }

  /** The conversion of an int to size_t. */
  function ToSizeT(x: int32): (r: nat)
    ensures x >= 0 ==> r == x
  {
    if x < 0 then x + TWO_64 else x
  }

  lemma SizeTIsModular(x: int32)
    ensures ToSizeT(x) < 0x1_0000_0000_0000_0000 && (ToSizeT(x) - x) % 0x1_0000_0000_0000_0000 == 0
  {
    MultipleIsZero(ToSizeT(x) - x, 0x1_0000_0000_0000_0000, if x < 0 then 1 else 0);
  }

  // --------------------------------------------------------- the stored line

  lemma SameUpToSpace(a: seq<byte>, b: seq<byte>, x: seq<byte>, y: seq<byte>)
    requires a + ([0x20] + x) == b + ([0x20] + y) && 0x20 !in a && 0x20 !in b
    ensures a == b && x == y
  {
    var s, t := a + ([0x20] + x), b + ([0x20] + y);
    assert forall i | 0 <= i < |a| :: s[i] == a[i] != 0x20;
    assert forall i | 0 <= i < |b| :: t[i] == b[i] != 0x20;
    assert s[|a|] == 0x20 && t[|b|] == 0x20;
    assert |a| == |b|;
    assert a == s[..|a|] && b == t[..|b|];
    assert x == s[|a| + 1..] && y == t[|b| + 1..];
  }

  lemma StoredParts(line: Line)
    ensures Stored(line) == line.gnsName + ([0x20] + (line.ipPort + ([0x20] + ([0x20] + line.text))))
  {
    assert [SPACE, SPACE] + line.text == [0x20] + ([0x20] + line.text);
  }

  predicate Spaceless(line: Line) { 0x20 !in line.gnsName && 0x20 !in line.ipPort }

  /** A stored line ends with the uploaded text. */
  lemma StoredText(line: Line)
    ensures |Stored(line)| >= |line.text| && Stored(line)[|Stored(line)| - |line.text|..] == line.text
  {
  }

  /** And it tells service, address and text, as long as neither name holds a space. */
  lemma StoredTells(a: Line, b: Line)
    requires Spaceless(a) && Spaceless(b)
    ensures Stored(a) == Stored(b) <==> a == b
  {
    StoredParts(a);
    StoredParts(b);
    hide Stored;
    if Stored(a) == Stored(b) {
      SameUpToSpace(a.gnsName, b.gnsName, a.ipPort + ([0x20] + ([0x20] + a.text)), b.ipPort + ([0x20] + ([0x20] + b.text)));
      SameUpToSpace(a.ipPort, b.ipPort, [0x20] + a.text, [0x20] + b.text);
      assert ([0x20] + a.text)[1..] == a.text && ([0x20] + b.text)[1..] == b.text;
    }
  }

  predicate AllValid(cfgs: seq<Cfg>) {
    forall i | 0 <= i < |cfgs| :: cfgs[i].Valid()
  }

  // ---------------------------------------------------------------- delivery

  function Quota(maxGetLogs: int32, cfgs: seq<Cfg>): nat
    requires cfgs != []
  {
    ToSizeT(maxGetLogs) / |cfgs|
  }

  function Taken(c: Cfg, quota: nat): (ts: seq<seq<byte>>)
    requires c.Valid()
  {
    c.Unread()[..Min(quota, |c.Unread()|)]
  }

  function Advance(c: Cfg, quota: nat): (r: Cfg)
    requires c.Valid()
    ensures r.Valid()
  {
    c.(logIdx := c.logIdx + |Taken(c, quota)|)
  }

  function AdvanceAll(cfgs: seq<Cfg>, quota: nat): (r: seq<Cfg>)
    requires AllValid(cfgs)
    ensures |r| == |cfgs| && AllValid(r)
  {
    seq(|cfgs|, i requires 0 <= i < |cfgs| => Advance(cfgs[i], quota))
  }

  function ReplyTexts(cfgs: seq<Cfg>, quota: nat): (r: seq<Codec.TextValue>)
    requires AllValid(cfgs)
    ensures |r| == |cfgs|
  {
    seq(|cfgs|, i requires 0 <= i < |cfgs| =>
      Codec.TextValue(cfgs[i].ipPort, cfgs[i].gnsName, Taken(cfgs[i], quota)))
  }

  // ----------------------------------------------------------------- storing

  datatype Push = Push(cfg: Cfg, ok: bool)

  /** Stores a line, dropping delivered lines first when the limit is reached; a
      configuration that is still full takes nothing. */
  function TryPush(c: Cfg, text: seq<byte>, limit: nat): (r: Push)
    requires c.Valid()
    ensures r.cfg.Valid()
    ensures r.cfg.Unread() == if r.ok then c.Unread() + [text] else c.Unread()
    ensures r.ok <==> |c.Unread()| < limit
    ensures |c.logs| < limit ==> r.cfg.logIdx == c.logIdx && r.cfg.logs[..c.logIdx] == c.logs[..c.logIdx]
    ensures |c.logs| >= limit ==> r.cfg.logIdx == 0
  {
    var t := if |c.logs| >= limit then c.(logs := c.logs[c.logIdx..], logIdx := 0) else c;
    if |t.logs| >= limit then Push(t, false)
    else Push(t.(logs := t.logs + [text]), true)
  }

  /** What a line does to one configuration: the lines it stored, and whether the
      whole loop over the configurations ends here. */
  datatype Saved = Saved(cfg: Cfg, stored: seq<seq<byte>>, stop: bool)

  function SaveOne(c: Cfg, line: Line, limit: nat): (r: Saved)
    requires c.Valid()
    ensures r.cfg.Valid()
    ensures r.cfg.Unread() == c.Unread() + r.stored
  {
    var byIp := if c.ipPort == line.ipPort then TryPush(c, Stored(line), limit) else Push(c, true);
    var first := if c.ipPort == line.ipPort && byIp.ok then [Stored(line)] else [];
    if !byIp.ok then Saved(byIp.cfg, [], true)
    else if c.gnsName == line.gnsName then
      var byGns := TryPush(byIp.cfg, Stored(line), limit);
      if byGns.ok then Saved(byGns.cfg, first + [Stored(line)], false) else Saved(byGns.cfg, first, true)
    else Saved(byIp.cfg, first, false)
  }

  function Save(cfgs: seq<Cfg>, line: Line, limit: nat): (r: seq<Cfg>)
    requires AllValid(cfgs)
    ensures |r| == |cfgs| && AllValid(r)
    decreases |cfgs|
  {
    if cfgs == [] then []
    else
      var s := SaveOne(cfgs[0], line, limit);
      [s.cfg] + if s.stop then cfgs[1..] else Save(cfgs[1..], line, limit)
  }

  /** How often a configuration wants a line: by address, by name, or by both. */
  function Matches(c: Cfg, line: Line): (n: nat)
    ensures n <= 2
  {
    (if c.ipPort == line.ipPort then 1 else 0) + (if c.gnsName == line.gnsName then 1 else 0)
  }

  predicate HasRoom(c: Cfg, line: Line, limit: nat)
    requires c.Valid()
  {
    Matches(c, line) == 0 || |c.Unread()| + Matches(c, line) <= limit
  }

  /** How often a line that has come as far as this configuration is stored in it. */
  function Stores(c: Cfg, line: Line, limit: nat): nat
    requires c.Valid()
  {
    if HasRoom(c, line, limit) then Matches(c, line)
    else if |c.Unread()| >= limit then 0
    else limit - |c.Unread()|
  }

  function Copies(line: Line, n: nat): seq<seq<byte>> { seq(n, _ => Stored(line)) }

  /** A configuration breaks the loop exactly when it has no room for the line. */
  lemma StopIff(c: Cfg, line: Line, limit: nat)
    requires c.Valid()
    ensures SaveOne(c, line, limit).stop <==> !HasRoom(c, line, limit)
    ensures SaveOne(c, line, limit).stored == Copies(line, Stores(c, line, limit))
  {
  }

  /** The line gets as far as this configuration: all in front of it have room. */
  predicate Reached(cfgs: seq<Cfg>, line: Line, limit: nat, i: nat)
    requires AllValid(cfgs) && i < |cfgs|
  {
    forall j | 0 <= j < i :: HasRoom(cfgs[j], line, limit)
  }

  lemma {:induction false} SaveReaches(cfgs: seq<Cfg>, line: Line, limit: nat, i: nat)
    requires AllValid(cfgs) && i < |cfgs|
    ensures Save(cfgs, line, limit)[i] ==
            if Reached(cfgs, line, limit, i) then SaveOne(cfgs[i], line, limit).cfg else cfgs[i]
    decreases i
  {
    hide SaveOne, HasRoom;
    StopIff(cfgs[0], line, limit);
    if i > 0 {
      SaveReaches(cfgs[1..], line, limit, i - 1);
      ReachedBehind(cfgs, line, limit, i);
    }
  }

  lemma ReachedBehind(cfgs: seq<Cfg>, line: Line, limit: nat, i: nat)
    requires AllValid(cfgs) && 0 < i < |cfgs|
    ensures Reached(cfgs, line, limit, i) <==>
            HasRoom(cfgs[0], line, limit) && Reached(cfgs[1..], line, limit, i - 1)
  {
    hide HasRoom;
    var tail := cfgs[1..];
    if HasRoom(cfgs[0], line, limit) && Reached(tail, line, limit, i - 1) {
      forall j | 0 <= j < i ensures HasRoom(cfgs[j], line, limit) {
        assert j > 0 ==> HasRoom(tail[j - 1], line, limit);
      }
    } else if Reached(cfgs, line, limit, i) {
      forall j | 0 <= j < i - 1 ensures HasRoom(tail[j], line, limit) {
        assert HasRoom(cfgs[j + 1], line, limit);
      }
    }
  }

  /** What an upload adds to the unread lines of each configuration: the line as often as
      it is wanted and there is room, and nothing at all behind a configuration that wants
      it and has no room. */
  lemma LineStored(cfgs: seq<Cfg>, line: Line, limit: nat, i: nat)
    requires AllValid(cfgs) && i < |cfgs|
    ensures Save(cfgs, line, limit)[i].Unread() ==
            cfgs[i].Unread() + Copies(line, if Reached(cfgs, line, limit, i) then Stores(cfgs[i], line, limit) else 0)
  {
    hide SaveOne, Reached, Stores;
    SaveReaches(cfgs, line, limit, i);
    StopIff(cfgs[i], line, limit);
    assert cfgs[i].Unread() + Copies(line, 0) == cfgs[i].Unread();
  }

  /** A configuration that wants a line and has room for it misses it exactly when one in
      front of it wants it and has no room. */
  lemma MissedIff(cfgs: seq<Cfg>, line: Line, limit: nat, i: nat)
    requires AllValid(cfgs) && i < |cfgs|
    requires Matches(cfgs[i], line) > 0 && HasRoom(cfgs[i], line, limit)
    ensures Save(cfgs, line, limit)[i] == cfgs[i] <==> exists j | 0 <= j < i :: !HasRoom(cfgs[j], line, limit)
  {
    hide SaveOne, HasRoom, Save;
    SaveReaches(cfgs, line, limit, i);
    LineStored(cfgs, line, limit, i);
  }

  /** An upload is stored by every configuration that wants it, as often as it wants it,
      exactly when each of them has room. */
  lemma StoredByAllIff(cfgs: seq<Cfg>, line: Line, limit: nat)
    requires AllValid(cfgs)
    ensures (forall i | 0 <= i < |cfgs| ::
               Save(cfgs, line, limit)[i].Unread() == cfgs[i].Unread() + Copies(line, Matches(cfgs[i], line)))
            <==> forall j | 0 <= j < |cfgs| :: HasRoom(cfgs[j], line, limit)
  {
    hide SaveOne, Save;
    forall i | 0 <= i < |cfgs|
      ensures Save(cfgs, line, limit)[i].Unread() == cfgs[i].Unread() + Copies(line, Matches(cfgs[i], line)) ==>
                HasRoom(cfgs[i], line, limit)
      ensures (forall j | 0 <= j < |cfgs| :: HasRoom(cfgs[j], line, limit)) ==>
                Save(cfgs, line, limit)[i].Unread() == cfgs[i].Unread() + Copies(line, Matches(cfgs[i], line))
    {
      LineStored(cfgs, line, limit, i);
    }
  }

  /** One line lost: the service's instance is configured by address, the service by name,
      and the first has no room. The second, though empty, does not get the line. */
  lemma LineLost()
    ensures var cfgs := [Cfg([1], [], 1, 0, [], [[65]], 0), Cfg([], [2], 1, 0, [], [], 0)];
            var line := Line([2], [1], [66]);
            && AllValid(cfgs)
            && Matches(cfgs[1], line) == 1 && HasRoom(cfgs[1], line, 1)
            && Save(cfgs, line, 1) == cfgs
  {
    var cfgs := [Cfg([1], [], 1, 0, [], [[65]], 0), Cfg([], [2], 1, 0, [], [], 0)];
    var line := Line([2], [1], [66]);
    assert cfgs[0].Unread() == [[65]] == cfgs[0].logs[0..];
    SaveReaches(cfgs, line, 1, 0);
    SaveReaches(cfgs, line, 1, 1);
    assert !HasRoom(cfgs[0], line, 1);
  }

  // ----------------------------------------------------------- configuration

  predicate Replaced(c: Cfg, gnsName: seq<byte>, ipPort: seq<byte>) {
    (ipPort != [] && c.ipPort == ipPort) || (gnsName != [] && c.gnsName == gnsName)
  }

  function Keep(cfgs: seq<Cfg>, gnsName: seq<byte>, ipPort: seq<byte>): (r: seq<Cfg>)
    requires AllValid(cfgs)
    ensures AllValid(r)
    decreases |cfgs|
  {
    if cfgs == [] then []
    else (if Replaced(cfgs[0], gnsName, ipPort) then [] else [cfgs[0]]) + Keep(cfgs[1..], gnsName, ipPort)
  }

  function NewCfg(gnsName: seq<byte>, ipPort: seq<byte>, p1: int32, p2: int64, p3: seq<byte>): (c: Cfg)
    ensures c.Valid()
  {
    Cfg(ipPort, gnsName, p1, p2, p3, [], 0)
  }

  // ----------------------------------------------------- runs of one session

  datatype Event =
    | SetConfig(gnsName: seq<byte>, ipPort: seq<byte>, p1: int32, p2: int64, p3: seq<byte>)
    | SaveLog(line: Line)
    | GetLog

  datatype Conf = Conf(maxGetLogs: int32, maxPreserveLogs: int32)

  /** A session without configurations cannot be asked for logs: the quota divides by
      their number. */
  predicate Legal(cfgs: seq<Cfg>, e: Event) { e.GetLog? ==> cfgs != [] }

  function Step(conf: Conf, cfgs: seq<Cfg>, e: Event): (r: seq<Cfg>)
    requires AllValid(cfgs) && Legal(cfgs, e)
    ensures AllValid(r)
  {
    match e
    case SetConfig(gns, ip, p1, p2, p3) => Keep(cfgs, gns, ip) + [NewCfg(gns, ip, p1, p2, p3)]
    case SaveLog(line) => Save(cfgs, line, ToSizeT(conf.maxPreserveLogs))
    case GetLog => AdvanceAll(cfgs, Quota(conf.maxGetLogs, cfgs))
  }

  /** A configuration with the lines it has stored and delivered since it was set. */
  datatype Track = Track(cfg: Cfg, stored: seq<seq<byte>>, delivered: seq<seq<byte>>)

  predicate Good(t: Track, limit: nat) {
    && t.cfg.Valid()
    && t.stored == t.delivered + t.cfg.Unread()
    && |t.cfg.logs| <= limit
  }

  predicate AllGood(ts: seq<Track>, limit: nat) {
    forall i | 0 <= i < |ts| :: Good(ts[i], limit)
  }

  predicate AllTracked(ts: seq<Track>) {
    forall i | 0 <= i < |ts| :: ts[i].cfg.Valid()
  }

  function Cfgs(ts: seq<Track>): (r: seq<Cfg>)
    ensures |r| == |ts|
    ensures AllTracked(ts) ==> AllValid(r)
  {
    seq(|ts|, i requires 0 <= i < |ts| => ts[i].cfg)
  }

  function KeepTracks(ts: seq<Track>, gnsName: seq<byte>, ipPort: seq<byte>): (r: seq<Track>)
    requires AllTracked(ts)
    ensures AllTracked(r)
    decreases |ts|
  {
    if ts == [] then []
    else (if Replaced(ts[0].cfg, gnsName, ipPort) then [] else [ts[0]]) + KeepTracks(ts[1..], gnsName, ipPort)
  }

  /** The lines a configuration stores for one upload join its history. */
  function SaveTracks(ts: seq<Track>, line: Line, limit: nat): (r: seq<Track>)
    requires AllTracked(ts)
    ensures |r| == |ts| && AllTracked(r)
  {
    seq(|ts|, i requires 0 <= i < |ts| =>
      if Reached(Cfgs(ts), line, limit, i) then
        var s := SaveOne(ts[i].cfg, line, limit);
        Track(s.cfg, ts[i].stored + s.stored, ts[i].delivered)
      else ts[i])
  }

  /** The lines put into a reply join the configuration's history. */
  function DeliverTracks(ts: seq<Track>, quota: nat): (r: seq<Track>)
    requires AllTracked(ts)
    ensures |r| == |ts| && AllTracked(r)
  {
    seq(|ts|, i requires 0 <= i < |ts| =>
      Track(Advance(ts[i].cfg, quota), ts[i].stored, ts[i].delivered + Taken(ts[i].cfg, quota)))
  }

  function TrackStep(conf: Conf, ts: seq<Track>, e: Event): (r: seq<Track>)
    requires AllTracked(ts) && Legal(Cfgs(ts), e)
    ensures AllTracked(r)
  {
    match e
    case SetConfig(gns, ip, p1, p2, p3) => KeepTracks(ts, gns, ip) + [Track(NewCfg(gns, ip, p1, p2, p3), [], [])]
    case SaveLog(line) => SaveTracks(ts, line, ToSizeT(conf.maxPreserveLogs))
    case GetLog => DeliverTracks(ts, Quota(conf.maxGetLogs, Cfgs(ts)))
  }

  predicate LegalRun(conf: Conf, ts: seq<Track>, es: seq<Event>)
    requires AllTracked(ts)
    decreases |es|
  {
    es == [] || (Legal(Cfgs(ts), es[0]) && LegalRun(conf, TrackStep(conf, ts, es[0]), es[1..]))
  }

  lemma KeepsOrSets(conf: Conf, ts: seq<Track>, e: Event)
    requires AllTracked(ts) && Legal(Cfgs(ts), e)
    ensures TrackStep(conf, ts, e) != [] <==> ts != [] || e.SetConfig?
  {
  }

  lemma {:induction false} LegalFrom(conf: Conf, ts: seq<Track>, es: seq<Event>)
    requires AllTracked(ts)
    ensures LegalRun(conf, ts, es) <==>
            forall i | 0 <= i < |es| :: es[i].GetLog? ==> ts != [] || ConfiguredBefore(es, i)
    decreases |es|
  {
    hide TrackStep;
    if es != [] && Legal(Cfgs(ts), es[0]) {
      KeepsOrSets(conf, ts, es[0]);
      LegalFrom(conf, TrackStep(conf, ts, es[0]), es[1..]);
      forall i | 0 < i < |es| ensures ConfiguredBefore(es, i) <==> es[0].SetConfig? || ConfiguredBefore(es[1..], i - 1) {
        BeforeBehind(es, i);
      }
      assert forall i | 0 < i < |es| :: es[i] == es[1..][i - 1];
      assert forall i | 0 <= i < |es| - 1 :: es[1..][i] == es[i + 1];
    }
  }

  predicate ConfiguredBefore(es: seq<Event>, i: nat)
    requires i <= |es|
  {
    exists j | 0 <= j < i :: es[j].SetConfig?
  }

  lemma BeforeBehind(es: seq<Event>, i: nat)
    requires 0 < i <= |es|
    ensures ConfiguredBefore(es, i) <==> es[0].SetConfig? || ConfiguredBefore(es[1..], i - 1)
  {
    if j :| 0 < j < i && es[j].SetConfig? {
      assert es[1..][j - 1].SetConfig?;
    }
  }

  /** A session goes through a run of requests without a division by zero exactly when
      logs are never requested before something has been configured. */
  lemma LegalRunIff(conf: Conf, es: seq<Event>)
    ensures LegalRun(conf, [], es) <==> forall i | 0 <= i < |es| :: es[i].GetLog? ==> ConfiguredBefore(es, i)
  {
    LegalFrom(conf, [], es);
  }

  function Run(conf: Conf, ts: seq<Track>, es: seq<Event>): (r: seq<Track>)
    requires AllTracked(ts) && LegalRun(conf, ts, es)
    ensures AllTracked(r)
    decreases |es|
  {
    if es == [] then ts else Run(conf, TrackStep(conf, ts, es[0]), es[1..])
  }

  lemma KeepTracksHead(t: Track, ts: seq<Track>, gnsName: seq<byte>, ipPort: seq<byte>, limit: nat)
    requires AllTracked([t] + ts) && AllTracked(ts)
    ensures var kept := if Replaced(t.cfg, gnsName, ipPort) then [] else [t];
            && KeepTracks([t] + ts, gnsName, ipPort) == kept + KeepTracks(ts, gnsName, ipPort)
            && Keep(Cfgs([t] + ts), gnsName, ipPort) == Cfgs(kept) + Keep(Cfgs(ts), gnsName, ipPort)
  {
    hide Replaced;
    assert ([t] + ts)[1..] == ts && Cfgs([t] + ts)[1..] == Cfgs(ts);
  }

  lemma GoodAppend(a: seq<Track>, b: seq<Track>, limit: nat)
    requires AllGood(a, limit) && AllGood(b, limit)
    ensures AllGood(a + b, limit) && Cfgs(a + b) == Cfgs(a) + Cfgs(b)
  {
    hide Good;
  }

  lemma {:induction false} KeepTracksGood(ts: seq<Track>, gnsName: seq<byte>, ipPort: seq<byte>, limit: nat)
    requires AllGood(ts, limit) && AllTracked(ts)
    ensures AllGood(KeepTracks(ts, gnsName, ipPort), limit)
    ensures Cfgs(KeepTracks(ts, gnsName, ipPort)) == Keep(Cfgs(ts), gnsName, ipPort)
    decreases |ts|
  {
    hide Replaced, Good, Cfgs;
    if ts == [] {
      NoTracks(gnsName, ipPort);
    } else {
      hide KeepTracks, Keep;
      assert ts == [ts[0]] + ts[1..];
      KeepTracksGood(ts[1..], gnsName, ipPort, limit);
      KeepTracksHead(ts[0], ts[1..], gnsName, ipPort, limit);
      var kept := if Replaced(ts[0].cfg, gnsName, ipPort) then [] else [ts[0]];
      GoodAppend(kept, KeepTracks(ts[1..], gnsName, ipPort), limit);
    }
  }

  lemma NoTracks(gnsName: seq<byte>, ipPort: seq<byte>)
    ensures KeepTracks([], gnsName, ipPort) == [] && Keep(Cfgs([]), gnsName, ipPort) == [] && Cfgs([]) == []
  {
  }

  lemma SaveOneGood(t: Track, line: Line, limit: nat)
    requires Good(t, limit)
    ensures var s := SaveOne(t.cfg, line, limit);
            Good(Track(s.cfg, t.stored + s.stored, t.delivered), limit)
  {
    SaveOneFits(t.cfg, line, limit);
    hide SaveOne;
    var s := SaveOne(t.cfg, line, limit);
    Associative(t.delivered, t.cfg.Unread(), s.stored);
  }

  lemma SaveOneFits(c: Cfg, line: Line, limit: nat)
    requires c.Valid() && |c.logs| <= limit
    ensures |SaveOne(c, line, limit).cfg.logs| <= limit
  {
  }

  lemma DeliverOneGood(t: Track, quota: nat, limit: nat)
    requires Good(t, limit)
    ensures Good(Track(Advance(t.cfg, quota), t.stored, t.delivered + Taken(t.cfg, quota)), limit)
  {
    var ts := Taken(t.cfg, quota);
    assert t.cfg.Unread() == ts + Advance(t.cfg, quota).Unread();
    assert t.delivered + ts + Advance(t.cfg, quota).Unread() == t.delivered + t.cfg.Unread();
  }

  /** One event keeps the accounts of every configuration, and does to the
      configurations what the server does. */
  lemma StepKeepsAccounts(conf: Conf, ts: seq<Track>, e: Event)
    requires AllTracked(ts) && Legal(Cfgs(ts), e) && AllGood(ts, ToSizeT(conf.maxPreserveLogs))
    ensures AllGood(TrackStep(conf, ts, e), ToSizeT(conf.maxPreserveLogs))
    ensures Cfgs(TrackStep(conf, ts, e)) == Step(conf, Cfgs(ts), e)
  {
    var limit := ToSizeT(conf.maxPreserveLogs);
    hide SaveOne, Good, Reached, Advance, Taken;
    match e
    case SetConfig(gns, ip, p1, p2, p3) =>
      KeepTracksGood(ts, gns, ip, limit);
      NewTrackGood(gns, ip, p1, p2, p3, limit);
    case SaveLog(line) =>
      forall i | 0 <= i < |ts|
        ensures Good(SaveTracks(ts, line, limit)[i], limit)
        ensures SaveTracks(ts, line, limit)[i].cfg == Save(Cfgs(ts), line, limit)[i]
      {
        SaveOneGood(ts[i], line, limit);
        SaveReaches(Cfgs(ts), line, limit, i);
      }
    case GetLog =>
      var quota := Quota(conf.maxGetLogs, Cfgs(ts));
      forall i | 0 <= i < |ts| ensures Good(DeliverTracks(ts, quota)[i], limit) {
        DeliverOneGood(ts[i], quota, limit);
      }
  }

  lemma NewTrackGood(gnsName: seq<byte>, ipPort: seq<byte>, p1: int32, p2: int64, p3: seq<byte>, limit: nat)
    ensures Good(Track(NewCfg(gnsName, ipPort, p1, p2, p3), [], []), limit)
  {
  }

  /** Over every run, each configuration has delivered exactly the lines it has stored,
      once each and in order, except those that are still unread; dropping delivered
      lines to make room loses none; and no configuration holds more than the limit. */
  lemma {:induction false} ExactlyOnce(conf: Conf, ts: seq<Track>, es: seq<Event>)
    requires AllTracked(ts) && LegalRun(conf, ts, es) && AllGood(ts, ToSizeT(conf.maxPreserveLogs))
    ensures AllGood(Run(conf, ts, es), ToSizeT(conf.maxPreserveLogs))
    decreases |es|
  {
    hide TrackStep;
    if es != [] {
      StepKeepsAccounts(conf, ts, es[0]);
      ExactlyOnce(conf, TrackStep(conf, ts, es[0]), es[1..]);
    }
  }

  // -------------------------------------------------- one entry for each name

  /** No two configurations have the same service, or the same address, but for none. */
  predicate OnePerName(cfgs: seq<Cfg>) {
    forall i, j | 0 <= i < j < |cfgs| :: Apart(cfgs[i], cfgs[j])
  }

  predicate Apart(c: Cfg, d: Cfg) {
    && (c.gnsName == d.gnsName ==> c.gnsName == [])
    && (c.ipPort == d.ipPort ==> c.ipPort == [])
  }

  lemma {:induction false} KeepHas(cfgs: seq<Cfg>, gnsName: seq<byte>, ipPort: seq<byte>, c: Cfg)
    requires AllValid(cfgs)
    ensures c in Keep(cfgs, gnsName, ipPort) <==> c in cfgs && !Replaced(c, gnsName, ipPort)
    decreases |cfgs|
  {
    hide Replaced;
    if cfgs != [] {
      KeepHas(cfgs[1..], gnsName, ipPort, c);
      assert c in cfgs <==> c == cfgs[0] || c in cfgs[1..];
    }
  }

  lemma {:induction false} KeepOnePerName(cfgs: seq<Cfg>, gnsName: seq<byte>, ipPort: seq<byte>)
    requires AllValid(cfgs) && OnePerName(cfgs)
    ensures OnePerName(Keep(cfgs, gnsName, ipPort))
    decreases |cfgs|
  {
    hide Replaced, Apart;
    if cfgs != [] {
      var tail := Keep(cfgs[1..], gnsName, ipPort);
      KeepOnePerName(cfgs[1..], gnsName, ipPort);
      forall j | 0 <= j < |tail| ensures Apart(cfgs[0], tail[j]) {
        KeepHas(cfgs[1..], gnsName, ipPort, tail[j]);
      }
    }
  }

  lemma NewCfgApart(cfgs: seq<Cfg>, gnsName: seq<byte>, ipPort: seq<byte>, c: Cfg)
    requires AllValid(cfgs) && OnePerName(cfgs) && c.gnsName == gnsName && c.ipPort == ipPort
    ensures OnePerName(Keep(cfgs, gnsName, ipPort) + [c])
  {
    hide Keep;
    var kept := Keep(cfgs, gnsName, ipPort);
    KeepOnePerName(cfgs, gnsName, ipPort);
    forall j | 0 <= j < |kept| ensures Apart(kept[j], c) {
      KeepHas(cfgs, gnsName, ipPort, kept[j]);
    }
    hide Apart;
    assert forall i, j | 0 <= i < j < |kept + [c]| :: Apart((kept + [c])[i], (kept + [c])[j]);
  }

  /** What a configuration request does: it erases exactly the configurations of the same
      service or address, an empty name standing for none, and appends one with the
      requested values and no lines. */
  lemma SetConfigIs(conf: Conf, cfgs: seq<Cfg>, gnsName: seq<byte>, ipPort: seq<byte>, p1: int32, p2: int64, p3: seq<byte>)
    requires AllValid(cfgs)
    ensures var r := Step(conf, cfgs, Event.SetConfig(gnsName, ipPort, p1, p2, p3));
            && r != [] && r[|r| - 1] == Cfg(ipPort, gnsName, p1, p2, p3, [], 0)
            && (forall c :: c in r[..|r| - 1] <==>
                  c in cfgs && !(ipPort != [] && c.ipPort == ipPort) && !(gnsName != [] && c.gnsName == gnsName))
            && (OnePerName(cfgs) ==> OnePerName(r))
  {
    hide Keep, OnePerName;
    var kept, added := Keep(cfgs, gnsName, ipPort), NewCfg(gnsName, ipPort, p1, p2, p3);
    assert (kept + [added])[..|kept|] == kept;
    forall c ensures c in kept <==> c in cfgs && !Replaced(c, gnsName, ipPort) {
      KeepHas(cfgs, gnsName, ipPort, c);
    }
    if OnePerName(cfgs) {
      NewCfgApart(cfgs, gnsName, ipPort, added);
    }
  }

  /** And the new one has an appetite for the lines of its service and of its address. */
  lemma NewCfgMatches(gnsName: seq<byte>, ipPort: seq<byte>, p1: int32, p2: int64, p3: seq<byte>, line: Line)
    ensures Matches(NewCfg(gnsName, ipPort, p1, p2, p3), line) ==
            (if line.ipPort == ipPort then 1 else 0) + (if line.gnsName == gnsName then 1 else 0)
  {
  }

  lemma SaveOneKeepsNames(c: Cfg, line: Line, limit: nat)
    requires c.Valid()
    ensures SaveOne(c, line, limit).cfg.gnsName == c.gnsName && SaveOne(c, line, limit).cfg.ipPort == c.ipPort
  {
    hide Stored;
  }

  lemma SameNames(cfgs: seq<Cfg>, r: seq<Cfg>)
    requires |r| == |cfgs| && OnePerName(cfgs)
    requires forall i | 0 <= i < |cfgs| :: r[i].gnsName == cfgs[i].gnsName && r[i].ipPort == cfgs[i].ipPort
    ensures OnePerName(r)
  {
    forall i, j | 0 <= i < j < |r| ensures Apart(r[i], r[j]) {
      assert Apart(cfgs[i], cfgs[j]);
    }
  }

  lemma StepOnePerName(conf: Conf, cfgs: seq<Cfg>, e: Event)
    requires AllValid(cfgs) && Legal(cfgs, e) && OnePerName(cfgs)
    ensures OnePerName(Step(conf, cfgs, e))
  {
    hide OnePerName, SaveOne, Save, Keep, Reached;
    match e
    case SetConfig(gns, ip, p1, p2, p3) => SetConfigIs(conf, cfgs, gns, ip, p1, p2, p3);
    case SaveLog(line) =>
      var limit := ToSizeT(conf.maxPreserveLogs);
      forall i | 0 <= i < |cfgs|
        ensures Save(cfgs, line, limit)[i].gnsName == cfgs[i].gnsName && Save(cfgs, line, limit)[i].ipPort == cfgs[i].ipPort
      {
        SaveReaches(cfgs, line, limit, i);
        SaveOneKeepsNames(cfgs[i], line, limit);
      }
      SameNames(cfgs, Step(conf, cfgs, e));
    case GetLog => SameNames(cfgs, Step(conf, cfgs, e));
  }

  lemma {:induction false} RunOnePerName(conf: Conf, ts: seq<Track>, es: seq<Event>)
    requires AllTracked(ts) && LegalRun(conf, ts, es) && AllGood(ts, ToSizeT(conf.maxPreserveLogs))
    requires OnePerName(Cfgs(ts))
    ensures OnePerName(Cfgs(Run(conf, ts, es)))
    decreases |es|
  {
    hide TrackStep, Step, OnePerName;
    if es != [] {
      StepKeepsAccounts(conf, ts, es[0]);
      StepOnePerName(conf, Cfgs(ts), es[0]);
      RunOnePerName(conf, TrackStep(conf, ts, es[0]), es[1..]);
    }
  }

  // ---------------------------------------------------------------- fairness

  function Total(ts: seq<Codec.TextValue>): nat {
    if ts == [] then 0 else |ts[0].text| + Total(ts[1..])
  }

  lemma {:induction false} TotalAtMost(ts: seq<Codec.TextValue>, quota: nat)
    requires forall i | 0 <= i < |ts| :: |ts[i].text| <= quota
    ensures Total(ts) <= |ts| * quota
    decreases |ts|
  {
    if ts != [] {
      assert forall i | 0 <= i < |ts[1..]| :: ts[1..][i] == ts[i + 1];
      TotalAtMost(ts[1..], quota);
      assert |ts| * quota == quota + (|ts| - 1) * quota;
    }
  }

  lemma {:induction false} TotalOfEqual(ts: seq<Codec.TextValue>, quota: nat)
    requires forall i | 0 <= i < |ts| :: |ts[i].text| == quota
    ensures Total(ts) == |ts| * quota
    decreases |ts|
  {
    if ts != [] {
      assert forall i | 0 <= i < |ts[1..]| :: ts[1..][i] == ts[i + 1];
      TotalOfEqual(ts[1..], quota);
      assert |ts| * quota == quota + (|ts| - 1) * quota;
    }
  }

  /** A reply gives every configuration the same quota, takes as much as there is up to
      it, and carries no more lines than configured; where there is enough to take, one
      more line for each configuration would be too many. */
  lemma ReplyIsFair(maxGetLogs: int32, cfgs: seq<Cfg>)
    requires AllValid(cfgs) && cfgs != []
    ensures var q := Quota(maxGetLogs, cfgs);
            var r := ReplyTexts(cfgs, q);
            && (forall i | 0 <= i < |cfgs| :: |r[i].text| == Min(q, |cfgs[i].Unread()|))
            && (forall i | 0 <= i < |cfgs| :: r[i].text + AdvanceAll(cfgs, q)[i].Unread() == cfgs[i].Unread())
            && (maxGetLogs >= 0 ==> Total(r) <= maxGetLogs < |cfgs| * (q + 1))
            && (maxGetLogs >= 0 && (forall i | 0 <= i < |cfgs| :: |cfgs[i].Unread()| >= maxGetLogs) ==>
                  maxGetLogs - |cfgs| < Total(r))
  {
    var q := Quota(maxGetLogs, cfgs);
    var r := ReplyTexts(cfgs, q);
    TotalAtMost(r, q);
    QuotaFits(maxGetLogs, cfgs);
    if maxGetLogs >= 0 && forall i | 0 <= i < |cfgs| :: |cfgs[i].Unread()| >= maxGetLogs {
      TotalOfEqual(r, q);
    }
  }

  lemma QuotaFits(maxGetLogs: int32, cfgs: seq<Cfg>)
    requires cfgs != []
    ensures var q := Quota(maxGetLogs, cfgs);
            maxGetLogs >= 0 ==> && q <= maxGetLogs
                                && |cfgs| * q <= maxGetLogs < |cfgs| * (q + 1) == |cfgs| * q + |cfgs|
  {
    hide ToSizeT;
    QuotientBounds(ToSizeT(maxGetLogs), |cfgs|);
  }

  lemma QuotientBounds(m: nat, n: nat)
    requires n > 0
    ensures m / n <= m && n * (m / n) <= m < n * (m / n + 1) == n * (m / n) + n
  {
    var q, r := m / n, m % n;
    assert m == n * q + r && 0 <= r < n;
    OneMoreTimes(n, q);
    assert n * (m / n + 1) == n * (q + 1);
  }

  lemma OneMoreTimes(n: nat, q: nat)
    requires n > 0
    ensures n * (q + 1) == n * q + n && q <= n * q
  {
  }

  /** The configurations after `k` requests with no upload in between. */
  function AfterRequests(cfgs: seq<Cfg>, quota: nat, k: nat): (r: seq<Cfg>)
    requires AllValid(cfgs)
    ensures |r| == |cfgs| && AllValid(r)
  {
    if k == 0 then cfgs else AdvanceAll(AfterRequests(cfgs, quota, k - 1), quota)
  }

  lemma {:induction false} UnreadAfterRequests(cfgs: seq<Cfg>, quota: nat, k: nat, i: nat)
    requires AllValid(cfgs) && i < |cfgs|
    ensures 0 <= k * quota
    ensures AfterRequests(cfgs, quota, k)[i].Unread() == cfgs[i].Unread()[Min(k * quota, |cfgs[i].Unread()|)..]
  {
    hide Min, Advance;
    if k == 0 {
      NoneTaken(cfgs[i].Unread());
    } else {
      UnreadAfterRequests(cfgs, quota, k - 1, i);
      OneMore(k, quota);
      AdvanceDrops(AfterRequests(cfgs, quota, k - 1)[i], cfgs[i].Unread(), (k - 1) * quota, quota);
    }
  }

  lemma NoneTaken(all: seq<seq<byte>>)
    ensures all[Min(0, |all|)..] == all
  {
  }

  lemma OneMore(k: nat, q: nat)
    requires k > 0
    ensures k * q == (k - 1) * q + q
  {
  }

  lemma AdvanceDrops(c: Cfg, all: seq<seq<byte>>, taken: nat, quota: nat)
    requires c.Valid() && c.Unread() == all[Min(taken, |all|)..]
    ensures Advance(c, quota).Unread() == all[Min(taken + quota, |all|)..]
  {
  }

  /** Unread lines are used up after exactly ceil(unread / quota) requests, and never
      with a quota of zero. */
  lemma Drained(cfgs: seq<Cfg>, quota: nat, k: nat, i: nat)
    requires AllValid(cfgs) && i < |cfgs|
    ensures var u := |cfgs[i].Unread()|;
            AfterRequests(cfgs, quota, k)[i].Unread() == [] <==>
            u == 0 || (quota > 0 && (u + quota - 1) / quota <= k)
  {
    hide AfterRequests;
    var u := |cfgs[i].Unread()|;
    UnreadAfterRequests(cfgs, quota, k, i);
    assert AfterRequests(cfgs, quota, k)[i].Unread() == [] <==> u <= k * quota;
    if quota > 0 {
      CeilingAtMost(u, quota, k);
      CeilingAtMost(u, quota, 0);
    }
  }

  lemma QuotaIsZeroIff(maxGetLogs: int32, cfgs: seq<Cfg>)
    requires cfgs != []
    ensures Quota(maxGetLogs, cfgs) == 0 <==> ToSizeT(maxGetLogs) < |cfgs|
  {
    hide ToSizeT;
    QuotientIsZeroIff(ToSizeT(maxGetLogs), |cfgs|);
  }

  lemma QuotientIsZeroIff(m: nat, n: nat)
    requires n > 0
    ensures m / n == 0 <==> m < n
  {
    var q, r := m / n, m % n;
    assert m == n * q + r && 0 <= r < n;
    if q > 0 {
      assert n * q >= n;
    }
  }

  lemma {:induction false} NothingAdvances(cfgs: seq<Cfg>, k: nat)
    requires AllValid(cfgs)
    ensures AfterRequests(cfgs, 0, k) == cfgs
  {
    if k > 0 {
      NothingAdvances(cfgs, k - 1);
    }
  }

  lemma SomethingAdvances(cfgs: seq<Cfg>, quota: nat, i: nat)
    requires AllValid(cfgs) && i < |cfgs| && cfgs[i].Unread() != [] && quota > 0
    ensures AfterRequests(cfgs, quota, 1) != cfgs
  {
    hide AfterRequests;
    UnreadAfterRequests(cfgs, quota, 1, i);
    assert |AfterRequests(cfgs, quota, 1)[i].Unread()| < |cfgs[i].Unread()|;
  }

  predicate NothingLeft(cfgs: seq<Cfg>)
    requires AllValid(cfgs)
  {
    forall i | 0 <= i < |cfgs| :: cfgs[i].Unread() == []
  }

  /** However often logs are requested, nothing is ever delivered and no index moves,
      exactly when there are more configurations than permitted lines, or nothing to
      deliver. */
  lemma StarvedIff(maxGetLogs: int32, cfgs: seq<Cfg>)
    requires AllValid(cfgs) && cfgs != []
    ensures (forall k: nat :: AfterRequests(cfgs, Quota(maxGetLogs, cfgs), k) == cfgs) <==>
            ToSizeT(maxGetLogs) < |cfgs| || NothingLeft(cfgs)
  {
    hide Quota, AfterRequests, ToSizeT, NothingLeft, AllValid;
    var q := Quota(maxGetLogs, cfgs);
    QuotaIsZeroIff(maxGetLogs, cfgs);
    if q == 0 {
      forall k: nat ensures AfterRequests(cfgs, q, k) == cfgs {
        NothingAdvances(cfgs, k);
      }
    } else if NothingLeft(cfgs) {
      forall k: nat ensures AfterRequests(cfgs, q, k) == cfgs {
        NothingUnread(cfgs, q, k);
      }
    } else {
      var i := SomethingLeft(cfgs);
      SomethingAdvances(cfgs, q, i);
    }
  }

  lemma SomethingLeft(cfgs: seq<Cfg>) returns (i: nat)
    requires AllValid(cfgs) && !NothingLeft(cfgs)
    ensures i < |cfgs| && cfgs[i].Unread() != []
  {
    i :| i < |cfgs| && cfgs[i].Unread() != [];
  }

  lemma {:induction false} NothingUnread(cfgs: seq<Cfg>, quota: nat, k: nat)
    requires AllValid(cfgs) && NothingLeft(cfgs)
    ensures AfterRequests(cfgs, quota, k) == cfgs
  {
    if k > 0 {
      NothingUnread(cfgs, quota, k - 1);
    }
  }

  lemma CeilingAtMost(u: nat, q: nat, k: nat)
    requires q > 0
    ensures u <= k * q <==> (u + q - 1) / q <= k
  {
    var c := (u + q - 1) / q;
    var r := (u + q - 1) % q;
    assert u + q - 1 == c * q + r;
    if c <= k {
      assert c * q <= k * q;
    } else {
      assert (k + 1) * q <= c * q;
      assert (k + 1) * q == k * q + q;
    }
  }

  // ------------------------------------------------------------- the session

  class SessionInfo {
    var cfgs: seq<Cfg>

    ghost predicate Valid()
      reads this
    {
      AllValid(cfgs)
    }

    constructor ()
      ensures Valid() && cfgs == []
    {
      cfgs := [];
    }

    /** Adds one message per configuration to the reply, each with at most the quota of
        unread lines, and moves the configuration's index past them. */
    method GetLogByGnsEqually(maxGetLogs: int32, resp: Codec.GetLogResp)
      requires Valid() && cfgs != []
      modifies this, resp
      ensures cfgs == old(Step(Conf(maxGetLogs, 0), cfgs, Event.GetLog))
      ensures resp.Value() ==
              old(resp.Value().(logText := resp.logText + ReplyTexts(cfgs, Quota(maxGetLogs, cfgs))))
      ensures maxGetLogs >= 0 ==>
                forall i | 0 <= i < |cfgs| ::
                  |resp.logText[old(|resp.logText|) + i].text| == old(Min(maxGetLogs / |cfgs|, |cfgs[i].Unread()|))
    {
      var cfgCnt := |cfgs|;
      var getMaxNum := ToSizeT(maxGetLogs) / cfgCnt;
      var i := 0;
      while i < |cfgs|
        invariant 0 <= i <= |cfgs| == cfgCnt && Valid()
        invariant forall j | 0 <= j < i :: cfgs[j] == Advance(old(cfgs[j]), getMaxNum)
        invariant forall j | i <= j < cfgCnt :: cfgs[j] == old(cfgs[j])
        invariant resp.Value() ==
                  old(resp.Value()).(logText := old(resp.logText + ReplyTexts(cfgs, getMaxNum)[..i]))
      {
        var c, text := TakeLogs(cfgs[i], getMaxNum);
        cfgs := cfgs[i := c];
        resp.logText := resp.logText + [Codec.TextValue(c.ipPort, c.gnsName, text)];
        i := i + 1;
      }
    }

    /** The inner loop, over the unread lines of one configuration. */
    method TakeLogs(cfg: Cfg, getMaxNum: nat) returns (c: Cfg, text: seq<seq<byte>>)
      requires cfg.Valid()
      ensures c == Advance(cfg, getMaxNum) && text == Taken(cfg, getMaxNum)
    {
      c, text := cfg, [];
      var cnt := 0;
      var j := c.logIdx;
      while j < |c.logs|
        invariant cfg.logIdx <= c.logIdx == j <= |c.logs|
        invariant c == cfg.(logIdx := j)
        invariant cnt == |text| <= getMaxNum
        invariant text == c.logs[cfg.logIdx..j]
      {
        cnt := cnt + 1;
        if cnt > getMaxNum {
          break;
        }
        c := c.(logIdx := c.logIdx + 1);
        text := text + [c.logs[j]];
        j := j + 1;
      }
    }

    method SaveLog(line: Line, maxPreserveLogs: int32)
      requires Valid()
      modifies this
      ensures Valid() && cfgs == old(Step(Conf(0, maxPreserveLogs), cfgs, Event.SaveLog(line)))
    {
      hide SaveOne;
      var limit := ToSizeT(maxPreserveLogs);
      ghost var goal := Save(cfgs, line, limit);
      var i := 0;
      while i < |cfgs|
        invariant 0 <= i <= |cfgs| && Valid()
        invariant cfgs[..i] + Save(cfgs[i..], line, limit) == goal
      {
        var c, stop := SaveInto(cfgs[i], line, limit);
        SaveStep(cfgs, i, c, stop, line, limit);
        cfgs := cfgs[i := c];
        if stop {
          return;
        }
        i := i + 1;
      }
    }

    /** The body of the loop; `stop` is its break. */
    method SaveInto(cfg: Cfg, line: Line, limit: nat) returns (c: Cfg, stop: bool)
      requires cfg.Valid()
      ensures c == SaveOne(cfg, line, limit).cfg && stop == SaveOne(cfg, line, limit).stop
    {
      c, stop := cfg, false;
      if c.ipPort == line.ipPort {
        c, stop := PushTo(c, line, limit);
      }
      if !stop && c.gnsName == line.gnsName {
        c, stop := PushTo(c, line, limit);
      }
    }

    /** One of the two pushes for a configuration. */
    method PushTo(c: Cfg, line: Line, limit: nat) returns (r: Cfg, full: bool)
      requires c.Valid()
      ensures Push(r, !full) == TryPush(c, Stored(line), limit)
    {
      r := c;
      if |r.logs| >= limit {
        r := r.(logs := r.logs[r.logIdx..], logIdx := 0);
        if |r.logs| >= limit {
          return r, true;
        }
      }
      r := r.(logs := r.logs + [Stored(line)]);
      full := false;
    }

    /** Erases what the new configuration replaces, then appends it. */
    method SetConfig(gnsName: seq<byte>, ipPort: seq<byte>, p1: int32, p2: int64, p3: seq<byte>)
      requires Valid()
      modifies this
      ensures Valid() && cfgs == old(Step(Conf(0, 0), cfgs, Event.SetConfig(gnsName, ipPort, p1, p2, p3)))
    {
      ghost var goal := Keep(cfgs, gnsName, ipPort);
      var i := 0;
      while i < |cfgs|
        invariant 0 <= i <= |cfgs| && Valid()
        invariant cfgs[..i] + Keep(cfgs[i..], gnsName, ipPort) == goal
        decreases |cfgs| - i
      {
        KeepStep(cfgs, i, gnsName, ipPort);
        if ipPort != [] && cfgs[i].ipPort == ipPort {
          cfgs := cfgs[..i] + cfgs[i + 1..];
        } else if gnsName != [] && cfgs[i].gnsName == gnsName {
          cfgs := cfgs[..i] + cfgs[i + 1..];
        } else {
          i := i + 1;
        }
      }
      cfgs := cfgs + [NewCfg(gnsName, ipPort, p1, p2, p3)];
    }

    /** The reply to a request for logs, as it goes on the wire. */
    method GetLog(fd: int32, reqBeginTime: int32, maxGetLogs: int32) returns (ok: bool, out: seq<byte>)
      requires Valid() && cfgs != []
      modifies this
      ensures cfgs == old(Step(Conf(maxGetLogs, 0), cfgs, Event.GetLog))
      ensures var encoded := Codec.Encode(Reply(fd, reqBeginTime, maxGetLogs, old(cfgs)));
              (ok <==> |encoded| < TWO_31) && (ok ==> out == encoded)
    {
      hide Codec.Encode, ReplyTexts, AdvanceAll, Quota;
      ghost var reply := Reply(fd, reqBeginTime, maxGetLogs, cfgs);
      var resp := new Codec.GetLogResp();
      GetLogByGnsEqually(maxGetLogs, resp);
      resp.fd := fd;
      resp.reqBeginTime := reqBeginTime;
      resp.ret := 0;
      resp.retMsg := [];
      assert resp.Value() == reply;
      ok, out := resp.SerializeToString();
    }
  }

  lemma KeepStep(cfgs: seq<Cfg>, i: nat, gnsName: seq<byte>, ipPort: seq<byte>)
    requires AllValid(cfgs) && i < |cfgs|
    ensures var erased := cfgs[..i] + cfgs[i + 1..];
            && AllValid(erased)
            && cfgs[..i] + Keep(cfgs[i..], gnsName, ipPort) ==
               if Replaced(cfgs[i], gnsName, ipPort)
               then erased[..i] + Keep(erased[i..], gnsName, ipPort)
               else cfgs[..i + 1] + Keep(cfgs[i + 1..], gnsName, ipPort)
  {
    hide Replaced;
    var erased := cfgs[..i] + cfgs[i + 1..];
    assert cfgs[i..][1..] == cfgs[i + 1..] == erased[i..];
    assert erased[..i] == cfgs[..i] && cfgs[..i + 1] == cfgs[..i] + [cfgs[i]];
  }

  lemma SaveStep(cfgs: seq<Cfg>, i: nat, c: Cfg, stop: bool, line: Line, limit: nat)
    requires AllValid(cfgs) && i < |cfgs|
    requires c == SaveOne(cfgs[i], line, limit).cfg && stop == SaveOne(cfgs[i], line, limit).stop
    ensures AllValid(cfgs[i := c])
    ensures cfgs[..i] + Save(cfgs[i..], line, limit) ==
            if stop then cfgs[i := c] else cfgs[i := c][..i + 1] + Save(cfgs[i := c][i + 1..], line, limit)
  {
    hide SaveOne;
    assert cfgs[i..][1..] == cfgs[i + 1..] == cfgs[i := c][i + 1..];
  }

  function Reply(fd: int32, reqBeginTime: int32, maxGetLogs: int32, cfgs: seq<Cfg>): Codec.RespValue
    requires AllValid(cfgs) && cfgs != []
  {
    Codec.RespValue(0, [], fd, reqBeginTime, ReplyTexts(cfgs, Quota(maxGetLogs, cfgs)))
  }

  // ------------------------------------------------------------------- UTF-8

  predicate Utf8Cfg(c: Cfg) {
    Utf8(c.ipPort) && Utf8(c.gnsName) && AllUtf8Lines(c.logs)
  }

  predicate AllUtf8(cfgs: seq<Cfg>) {
    forall i | 0 <= i < |cfgs| :: Utf8Cfg(cfgs[i])
  }

  /** What comes from a parsed message is UTF-8. */
  predicate Utf8Event(e: Event) {
    match e
    case SetConfig(gns, ip, _, _, _) => Utf8(gns) && Utf8(ip)
    case SaveLog(line) => Utf8(line.gnsName) && Utf8(line.ipPort) && Utf8(line.text)
    case GetLog => true
  }

  lemma StoredIsUtf8(line: Line)
    requires Utf8(line.gnsName) && Utf8(line.ipPort) && Utf8(line.text)
    ensures Utf8(Stored(line))
  {
    assert Utf8([SPACE]) && Utf8([SPACE, SPACE]) by {
      assert [SPACE][1..] == [] && [SPACE, SPACE][1..] == [SPACE];
    }
    Utf8Concat(line.gnsName, [SPACE]);
    Utf8Concat(line.gnsName + [SPACE], line.ipPort);
    Utf8Concat(line.gnsName + [SPACE] + line.ipPort, [SPACE, SPACE]);
    Utf8Concat(line.gnsName + [SPACE] + line.ipPort + [SPACE, SPACE], line.text);
  }

  predicate AllUtf8Lines(ls: seq<seq<byte>>) {
    forall i | 0 <= i < |ls| :: Utf8(ls[i])
  }

  lemma LinesFromOn(ls: seq<seq<byte>>, from: nat)
    requires from <= |ls| && AllUtf8Lines(ls)
    ensures AllUtf8Lines(ls[from..])
  {
    hide Utf8;
    assert forall i | 0 <= i < |ls[from..]| :: ls[from..][i] == ls[from + i];
  }

  lemma OneMoreLine(ls: seq<seq<byte>>, text: seq<byte>)
    requires AllUtf8Lines(ls) && Utf8(text)
    ensures AllUtf8Lines(ls + [text])
  {
    hide Utf8;
    assert forall i | 0 <= i < |ls + [text]| :: (ls + [text])[i] == if i < |ls| then ls[i] else text;
  }

  lemma PushIsUtf8(c: Cfg, text: seq<byte>, limit: nat)
    requires c.Valid() && Utf8Cfg(c) && Utf8(text)
    ensures Utf8Cfg(TryPush(c, text, limit).cfg)
  {
    hide Utf8, AllUtf8Lines;
    LinesFromOn(c.logs, c.logIdx);
    OneMoreLine(c.logs, text);
    OneMoreLine(c.logs[c.logIdx..], text);
  }

  lemma SaveOneIsUtf8(c: Cfg, line: Line, limit: nat)
    requires c.Valid() && Utf8Cfg(c) && Utf8(Stored(line))
    ensures Utf8Cfg(SaveOne(c, line, limit).cfg)
  {
    hide Utf8Cfg, TryPush, Utf8, Stored;
    PushIsUtf8(c, Stored(line), limit);
    PushIsUtf8(TryPush(c, Stored(line), limit).cfg, Stored(line), limit);
  }

  lemma {:induction false} KeepIsUtf8(cfgs: seq<Cfg>, gnsName: seq<byte>, ipPort: seq<byte>)
    requires AllValid(cfgs) && AllUtf8(cfgs)
    ensures AllUtf8(Keep(cfgs, gnsName, ipPort))
  {
    hide Utf8Cfg, Replaced;
    if cfgs != [] {
      KeepIsUtf8(cfgs[1..], gnsName, ipPort);
    }
  }

  lemma StepIsUtf8(conf: Conf, cfgs: seq<Cfg>, e: Event)
    requires AllValid(cfgs) && Legal(cfgs, e) && AllUtf8(cfgs) && Utf8Event(e)
    ensures AllUtf8(Step(conf, cfgs, e))
  {
    hide Utf8, Stored, SaveOne, Save, Keep, Reached;
    match e
    case SetConfig(gns, ip, p1, p2, p3) => KeepIsUtf8(cfgs, gns, ip);
    case SaveLog(line) =>
      var limit := ToSizeT(conf.maxPreserveLogs);
      StoredIsUtf8(line);
      forall i | 0 <= i < |cfgs| ensures Utf8Cfg(Save(cfgs, line, limit)[i]) {
        SaveReaches(cfgs, line, limit, i);
        SaveOneIsUtf8(cfgs[i], line, limit);
      }
    case GetLog =>
  }

  lemma {:induction false} RunIsUtf8(conf: Conf, ts: seq<Track>, es: seq<Event>)
    requires AllTracked(ts) && LegalRun(conf, ts, es) && AllGood(ts, ToSizeT(conf.maxPreserveLogs))
    requires AllUtf8(Cfgs(ts)) && forall e <- es :: Utf8Event(e)
    ensures AllUtf8(Cfgs(Run(conf, ts, es)))
    decreases |es|
  {
    hide TrackStep, Step, AllUtf8, Utf8Event;
    if es != [] {
      StepKeepsAccounts(conf, ts, es[0]);
      StepIsUtf8(conf, Cfgs(ts), es[0]);
      RunIsUtf8(conf, TrackStep(conf, ts, es[0]), es[1..]);
    }
  }

  lemma ReplyIsUtf8(fd: int32, reqBeginTime: int32, maxGetLogs: int32, cfgs: seq<Cfg>)
    requires AllValid(cfgs) && cfgs != [] && AllUtf8(cfgs)
    ensures Codec.Utf8Strings(Reply(fd, reqBeginTime, maxGetLogs, cfgs))
  {
    hide Utf8, Quota;
    var q := Quota(maxGetLogs, cfgs);
    forall i | 0 <= i < |cfgs| ensures Codec.Utf8Text(ReplyTexts(cfgs, q)[i]) {
      var ts := Taken(cfgs[i], q);
      assert forall j | 0 <= j < |ts| :: ts[j] == cfgs[i].logs[cfgs[i].logIdx + j];
    }
    EmptyIsUtf8();
  }

  /** After any run of a session, what a reader decodes from a reply is, for every
      configuration, the front of its unread lines; what stays unread follows it. */
  lemma DeliveredOverTheWire(conf: Conf, es: seq<Event>, fd: int32, reqBeginTime: int32, i: nat)
    requires LegalRun(conf, [], es) && forall e <- es :: Utf8Event(e)
    requires i < |Run(conf, [], es)|
    requires |Codec.Encode(Reply(fd, reqBeginTime, conf.maxGetLogs, Cfgs(Run(conf, [], es))))| < TWO_31
    ensures var cfgs := Cfgs(Run(conf, [], es));
            var d := Codec.Decode(Codec.NO_RESP, Codec.Encode(Reply(fd, reqBeginTime, conf.maxGetLogs, cfgs)));
            && d.Some? && |d.value.logText| == |cfgs|
            && d.value.fd == fd && d.value.reqBeginTime == reqBeginTime && d.value.ret == 0 && d.value.retMsg == []
            && d.value.logText[i].gnsName == cfgs[i].gnsName && d.value.logText[i].ipPort == cfgs[i].ipPort
            && d.value.logText[i].text + Step(conf, cfgs, Event.GetLog)[i].Unread() == cfgs[i].Unread()
  {
    hide Run, Codec.Decode, Codec.Encode, Codec.Utf8Strings, AllUtf8, LegalRun;
    RunIsUtf8Start(conf, es);
    var cfgs := Cfgs(Run(conf, [], es));
    ReplyIsUtf8(fd, reqBeginTime, conf.maxGetLogs, cfgs);
    Codec.RoundTrip(Reply(fd, reqBeginTime, conf.maxGetLogs, cfgs));
    ReplyIsFair(conf.maxGetLogs, cfgs);
  }

  lemma RunIsUtf8Start(conf: Conf, es: seq<Event>)
    requires LegalRun(conf, [], es) && forall e <- es :: Utf8Event(e)
    ensures AllUtf8(Cfgs(Run(conf, [], es)))
  {
    hide Run, LegalRun;
    RunIsUtf8(conf, [], es);
  }
}
