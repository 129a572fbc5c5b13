/** The Python client: the handlers of its messages, and the socket that calls them. */
module PythonClient {
  import opened Common
  import opened Wire
  import opened NetBuffer
  import opened Framing
  import Codec = CfgInfoCodec
  import opened TraceClient

  // --------------------------------------------------------------- handlers

  /** Clearing walks over the indices the list had at first, while it deletes from the
      list; an index that is gone raises. */
  function ClearFrom(cfgs: seq<CfgInfo>, sessionId: seq<byte>, i: nat, count: nat): Option<seq<CfgInfo>>
    decreases count - i
  {
    if i >= count then Some(cfgs)
    else if i >= |cfgs| then None
    else if cfgs[i].sessionId == sessionId then ClearFrom(cfgs[..i] + cfgs[i + 1..], sessionId, i + 1, count)
    else ClearFrom(cfgs, sessionId, i + 1, count)
  }

  predicate Has(cfgs: seq<CfgInfo>, sessionId: seq<byte>) {
    exists i | 0 <= i < |cfgs| :: cfgs[i].sessionId == sessionId
  }

  lemma {:induction false} ShortListRaises(cfgs: seq<CfgInfo>, sessionId: seq<byte>, i: nat, count: nat)
    requires i < count && |cfgs| < count
    ensures ClearFrom(cfgs, sessionId, i, count).None?
    decreases count - i
  {
    if i < |cfgs| {
      if cfgs[i].sessionId == sessionId {
        ShortListRaises(cfgs[..i] + cfgs[i + 1..], sessionId, i + 1, count);
      } else {
        ShortListRaises(cfgs, sessionId, i + 1, count);
      }
    }
  }

  /** Up to `i + 1` there is an entry of the session if there is up to `i`, or at `i`. */
  lemma HasOneMore(cfgs: seq<CfgInfo>, sessionId: seq<byte>, i: nat)
    requires i < |cfgs|
    ensures Has(cfgs[..i + 1], sessionId) <==> Has(cfgs[..i], sessionId) || cfgs[i].sessionId == sessionId
  {
    if j :| 0 <= j < i + 1 && cfgs[j].sessionId == sessionId {
      assert cfgs[..i + 1][j] == cfgs[j] && (j < i ==> cfgs[..i][j] == cfgs[j]);
    }
  }

  /** Entries at the front are entries of the longer list. */
  lemma HasMore(cfgs: seq<CfgInfo>, sessionId: seq<byte>, i: nat, n: nat)
    requires i <= n <= |cfgs| && Has(cfgs[..i], sessionId)
    ensures Has(cfgs[..n], sessionId)
  {
    var j :| 0 <= j < i && cfgs[..i][j].sessionId == sessionId;
    assert cfgs[..n][j] == cfgs[..i][j];
  }

  lemma WholeList(cfgs: seq<CfgInfo>)
    ensures cfgs[..|cfgs|] == cfgs
    ensures cfgs != [] ==> cfgs[..|cfgs| - 1] + cfgs[|cfgs|..] == cfgs[..|cfgs| - 1]
  {
  }

  lemma {:induction false} ClearFromIs(cfgs: seq<CfgInfo>, sessionId: seq<byte>, i: nat)
    requires i <= |cfgs| && !Has(cfgs[..i], sessionId)
    ensures ClearFrom(cfgs, sessionId, i, |cfgs|) == ClearedOrRaised(cfgs, sessionId)
    decreases |cfgs| - i
  {
    hide Has;
    var n := |cfgs| - 1;
    WholeList(cfgs);
    if i == |cfgs| {
      if n >= 0 {
        HasOneMore(cfgs, sessionId, n);
      }
    } else {
      HasOneMore(cfgs, sessionId, i);
      if cfgs[i].sessionId != sessionId {
        ClearFromIs(cfgs, sessionId, i + 1);
      } else if i < n {
        ShortListRaises(cfgs[..i] + cfgs[i + 1..], sessionId, i + 1, |cfgs|);
        HasMore(cfgs, sessionId, i + 1, n);
      }
    }
  }

  function ClearedOrRaised(cfgs: seq<CfgInfo>, sessionId: seq<byte>): Option<seq<CfgInfo>> {
    if cfgs == [] then Some([])
    else
      var n := |cfgs| - 1;
      if Has(cfgs[..n], sessionId) then None
      else Some(if cfgs[n].sessionId == sessionId then cfgs[..n] else cfgs)
  }

  /** Clearing a session raises exactly when some entry but the last is of that session;
      otherwise it removes what there is. */
  lemma ClearRaisesIff(cfgs: seq<CfgInfo>, sessionId: seq<byte>)
    ensures ClearFrom(cfgs, sessionId, 0, |cfgs|).None? <==> cfgs != [] && Has(cfgs[..|cfgs| - 1], sessionId)
    ensures ClearFrom(cfgs, sessionId, 0, |cfgs|).Some? ==>
              ClearFrom(cfgs, sessionId, 0, |cfgs|).value == Without(cfgs, sessionId)
  {
    ClearFromIs(cfgs, sessionId, 0);
    if cfgs != [] {
      var n := |cfgs| - 1;
      assert cfgs == cfgs[..n] + [cfgs[n]];
      if !Has(cfgs[..n], sessionId) {
        WithoutLast(cfgs[..n], cfgs[n], sessionId);
      }
    }
  }

  lemma {:induction false} WithoutLast(front: seq<CfgInfo>, c: CfgInfo, sessionId: seq<byte>)
    requires !Has(front, sessionId)
    ensures Without(front + [c], sessionId) == front + if c.sessionId == sessionId then [] else [c]
  {
    if front == [] {
      assert front + [c] == [c];
    } else {
      assert (front + [c])[1..] == front[1..] + [c];
      assert !Has(front[1..], sessionId) by {
        assert forall i | 0 <= i < |front[1..]| :: front[1..][i] == front[i + 1];
      }
      WithoutLast(front[1..], c, sessionId);
    }
  }

  /** What the handler of a message does to the list; None if there is no handler, or it
      raises. */
  function Handle(cfgs: seq<CfgInfo>, m: Message): Option<seq<CfgInfo>> {
    if m.id == CFG_INFO_REQ then
      match Codec.Decode(Codec.DEFAULT, m.body)
      case None => None
      case Some(v) => Some(cfgs + [CfgInfo(v.sessionId, v.p1, v.p2, v.p3)])
    else if m.id == HEARTBEAT_MSG then Some(cfgs)
    else if m.id == CLEAR_SESSION_REQ then
      match DecodeClear(m.body)
      case None => None
      case Some(s) => ClearFrom(cfgs, s, 0, |cfgs|)
    else None
  }

  function CfgsAfter(handled: seq<Message>): seq<CfgInfo> {
    if handled == [] then []
    else
      var before := CfgsAfter(handled[..|handled| - 1]);
      match Handle(before, handled[|handled| - 1])
      case None => before
      case Some(after) => after
  }

  /** The handlers of the example client. */
  predicate Returns(handled: seq<Message>, m: Message) { Handle(CfgsAfter(handled), m).Some? }

  /** The handlers of the base class, which saves no configurations. */
  predicate BaseReturns(handled: seq<Message>, m: Message) {
    || m.id in {CFG_INFO_REQ, HEARTBEAT_MSG}
    || (m.id == CLEAR_SESSION_REQ && DecodeClear(m.body).Some?)
  }

  /** Which messages the example client survives. */
  lemma ReturnsIff(handled: seq<Message>, m: Message)
    ensures Returns(handled, m) <==>
            || (m.id == 0x8a && Codec.Decode(Codec.DEFAULT, m.body).Some?)
            || m.id == 0x92
            || (m.id == 0x93 && DecodeClear(m.body).Some?
                && var cfgs := CfgsAfter(handled);
                   cfgs == [] || !Has(cfgs[..|cfgs| - 1], DecodeClear(m.body).value))
  {
    hide Codec.Decode, DecodeClear, ClearFrom, Has;
    if DecodeClear(m.body).Some? {
      ClearRaisesIff(CfgsAfter(handled), DecodeClear(m.body).value);
    }
  }

  lemma AfterOneMore(handled: seq<Message>, m: Message)
    requires Returns(handled, m)
    ensures Some(CfgsAfter(handled + [m])) == Handle(CfgsAfter(handled), m)
  {
    hide Handle;
    assert (handled + [m])[..|handled|] == handled;
  }

  /** A session that has just been configured can be cleared exactly if it was not
      configured before: the example client appends without erasing. */
  lemma ReconfiguredCannotBeCleared(handled: seq<Message>, config: Message, clear: Message)
    requires config.id == CFG_INFO_REQ && Codec.Decode(Codec.DEFAULT, config.body).Some?
    requires clear.id == CLEAR_SESSION_REQ
    requires DecodeClear(clear.body) == Some(Codec.Decode(Codec.DEFAULT, config.body).value.sessionId)
    ensures Returns(handled, config)
    ensures Returns(handled + [config], clear) <==> !Has(CfgsAfter(handled), DecodeClear(clear.body).value)
  {
    hide Codec.Decode, DecodeClear;
    var before := CfgsAfter(handled);
    var v := Codec.Decode(Codec.DEFAULT, config.body).value;
    var c := CfgInfo(v.sessionId, v.p1, v.p2, v.p3);
    assert Handle(before, config) == Some(before + [c]);
    AfterOneMore(handled, config);
    ClearRaisesIff(before + [c], v.sessionId);
    assert (before + [c])[..|before|] == before;
  }

  /** In the base class one malformed clear message ends the thread and stays in the
      buffer, though its frame is the only one. */
  lemma MalformedClearWaits()
    ensures var ms := [Message(0x93, [0xff])];
            AllPackable(ms) && LongFrames(ms) && LongTails(ms)
            && !NeverWaits(BaseReturns, ms) && !HandledInFull(BaseReturns, ms)
  {
    hide NeverWaits, HandledInFull;
    var m := Message(0x93, [0xff]);
    var d: seq<byte> := [0xff];
    assert ReadVarint(d, 5) == Fail by {
      assert d[1..] == [];
    }
    assert DecodeClear(d).None?;
    assert !BaseReturns([m][..0], [m][0]);
    NeverWaitsIff(BaseReturns, [m]);
    HandledInFullIff(BaseReturns, [m]);
  }

  /** Two heartbeats without a body are short enough for the second to wait, and to stay
      unhandled when all has arrived. */
  lemma ShortHeartbeatsWait()
    ensures var ms := [Message(0x92, []), Message(0x92, [])];
            AllPackable(ms) && AllReturn(BaseReturns, ms)
            && !NeverWaits(BaseReturns, ms) && !HandledInFull(BaseReturns, ms)
  {
    hide NeverWaits, HandledInFull, Frame;
    var m := Message(0x92, []);
    var ms := [m, m];
    NeverWaitsIff(BaseReturns, ms);
    HandledInFullIff(BaseReturns, ms);
    assert |Frame(ms[1])| == 8;
    FramesSplit(ms, 1, []);
    assert ms[2..] == [];
  }

  class MyTraceClient {
    var cfgs: seq<CfgInfo>

    constructor ()
      ensures cfgs == []
    {
      cfgs := [];
    }

    /** Looks up the handler and calls it. */
    method Dispatch(m: Message) returns (known: bool, returned: bool)
      modifies this
      ensures known <==> m.id in {CFG_INFO_REQ, HEARTBEAT_MSG, CLEAR_SESSION_REQ}
      ensures returned <==> Handle(old(cfgs), m).Some?
      ensures returned ==> cfgs == Handle(old(cfgs), m).value
    {
      hide DecodeClear, Has, Without;
      known, returned := true, true;
      if DecodeClear(m.body).Some? {
        ClearRaisesIff(cfgs, DecodeClear(m.body).value);
      }
      match m.id {
        case 0x8a => returned := HandleCfg(m.body);
        case 0x92 =>
        case 0x93 => returned := HandleClearSession(m.body);
        case _ => known, returned := false, false;
      }
    }

    method HandleCfg(body: seq<byte>) returns (returned: bool)
      modifies this
      ensures returned <==> Codec.Decode(Codec.DEFAULT, body).Some?
      ensures returned ==> var v := Codec.Decode(Codec.DEFAULT, body).value;
                           cfgs == old(cfgs) + [CfgInfo(v.sessionId, v.p1, v.p2, v.p3)]
    {
      var resp := new Codec.CfgInfoReq();
      returned := resp.ParseFromString(body);
      if returned {
        cfgs := cfgs + [CfgInfo(resp.sessionId, resp.p1, resp.p2, resp.p3)];
      }
    }

    /** The loop whose index can run off the list it deletes from. */
    method HandleClearSession(body: seq<byte>) returns (returned: bool)
      modifies this
      ensures returned <==> && DecodeClear(body).Some?
                            && (old(cfgs) == [] || !Has(old(cfgs)[..|old(cfgs)| - 1], DecodeClear(body).value))
      ensures returned ==> cfgs == Without(old(cfgs), DecodeClear(body).value)
    {
      hide DecodeClear, Has, Without;
      var sessionId := DecodeClear(body);
      if sessionId.None? {
        return false;
      }
      ClearRaisesIff(cfgs, sessionId.value);
      ghost var goal := ClearFrom(cfgs, sessionId.value, 0, |cfgs|);
      var i, count := 0, |cfgs|;
      while i < count
        invariant 0 <= i <= count
        invariant ClearFrom(cfgs, sessionId.value, i, count) == goal
      {
        if i >= |cfgs| {
          return false;
        }
        if cfgs[i].sessionId == sessionId.value {
          cfgs := cfgs[..i] + cfgs[i + 1..];
        }
        i := i + 1;
      }
      return true;
    }
  }

  // -------------------------------------------------------------- the socket

  /** What one call to send meets: room for so many bytes, possibly none, or a kernel
      buffer that is full, on which a non-blocking socket raises. */
  datatype Kernel = Takes(n: nat) | WouldBlock

  /** The bytes the kernel takes before it blocks. */
  function Room(calls: seq<Kernel>): nat {
    if calls == [] || calls[0].WouldBlock? then 0 else calls[0].n + Room(calls[1..])
  }

  predicate Blocks(calls: seq<Kernel>) { exists i | 0 <= i < |calls| :: calls[i].WouldBlock? }

  /** How sending ends, or that all the calls are used up and the loop goes on asking. */
  datatype Sending = Done | BlockingError | StillTrying

  /** How a wake-up ends: in an exception in the last three cases. */
  datatype Outcome = Waiting | Dispatched | Broken | UnknownId | Raised

  class MySocket {
    const container: MyTraceClient
    var readBuf: seq<byte>
    var handled: seq<Message>
    var alive: bool

    ghost predicate Valid()
      reads this, container
    {
      alive ==> container.cfgs == CfgsAfter(handled)
    }

    function Value(): Session
      reads this
    {
      Session(handled, readBuf, alive)
    }

    constructor (container: MyTraceClient)
      requires container.cfgs == []
      ensures Valid() && Value() == START && this.container == container
    {
      this.container := container;
      readBuf, handled, alive := [], [], true;
    }

    /** One wake-up, with what the read delivered. The handler runs before the buffer is
        cut, so a message without a handler, or one whose handler raises, stays in it. */
    method MyReceive(chunk: seq<byte>) returns (outcome: Outcome)
      requires Valid() && alive && |chunk| <= RECV_SIZE
      modifies this, container
      ensures Valid() && Value() == Receive(Returns, old(Value()), chunk)
      ensures outcome.Dispatched? <==> alive && handled != old(handled)
      ensures outcome.Waiting? <==> alive && handled == old(handled)
      ensures outcome.Broken? <==> chunk == []
      ensures alive <==> outcome.Waiting? || outcome.Dispatched?
      ensures !outcome.Dispatched? ==> readBuf == old(readBuf) + chunk && handled == old(handled)
      ensures outcome.UnknownId? ==> FirstMessage(readBuf).id !in {CFG_INFO_REQ, HEARTBEAT_MSG, CLEAR_SESSION_REQ}
      ensures outcome.Raised? ==> FirstMessage(readBuf).id in {CFG_INFO_REQ, HEARTBEAT_MSG, CLEAR_SESSION_REQ}
    {
      hide Handle;
      if chunk == [] {
        alive := false;
        return Broken;
      }
      readBuf := readBuf + chunk;
      if |readBuf| < MSG_HEAD_LEN {
        return Waiting;
      }
      var bodyLen := FromBytes(readBuf[..4]);
      var msgId := FromBytes(readBuf[4..MSG_HEAD_LEN]);
      if |readBuf| < MSG_HEAD_LEN + bodyLen {
        return Waiting;
      }
      var m := Message(msgId, readBuf[MSG_HEAD_LEN..MSG_HEAD_LEN + bodyLen]);
      assert Complete(readBuf) && m == FirstMessage(readBuf);
      var known, returned := container.Dispatch(m);
      if !returned {
        alive := false;
        return if known then Raised else UnknownId;
      }
      AfterOneMore(handled, m);
      handled := handled + [m];
      readBuf := readBuf[MSG_HEAD_LEN + bodyLen..];
      return Dispatched;
    }

    /** Packs a message and sends it. */
    method SendMsg(m: Message, calls: seq<Kernel>) returns (wire: seq<byte>, end: Sending)
      requires Packable(m)
      ensures wire == if Room(calls) < |Frame(m)| then Frame(m)[..Room(calls)] else Frame(m)
      ensures end == if Room(calls) >= |Frame(m)| then Done else if Blocks(calls) then BlockingError else StillTrying
    {
      wire, end := MySend(Frame(m), calls);
    }

    /** The sending loop; `calls` tells what each call to send meets. A message that the
        kernel has no room for is on the wire in part when the call raises. */
    method MySend(msg: seq<byte>, calls: seq<Kernel>) returns (wire: seq<byte>, end: Sending)
      ensures wire == if Room(calls) < |msg| then msg[..Room(calls)] else msg
      ensures end == if Room(calls) >= |msg| then Done else if Blocks(calls) then BlockingError else StillTrying
    {
      var totalSent: nat := 0;
      var call := 0;
      wire := [];
      while totalSent < |msg| && call < |calls|
        invariant totalSent <= |msg| && 0 <= call <= |calls|
        invariant wire == msg[..totalSent]
        invariant totalSent < |msg| ==> totalSent + Room(calls[call..]) == Room(calls)
        invariant totalSent == |msg| ==> Room(calls) >= |msg|
        invariant forall i | 0 <= i < call :: calls[i].Takes?
      {
        assert calls[call..][1..] == calls[call + 1..];
        if calls[call].WouldBlock? {
          return wire, BlockingError;
        }
        var rest := msg[totalSent..];
        var sent := if calls[call].n < |rest| then calls[call].n else |rest|;
        wire := wire + rest[..sent];
        totalSent := totalSent + sent;
        call := call + 1;
      }
      end := if totalSent < |msg| then StillTrying else Done;
    }
  }
}
