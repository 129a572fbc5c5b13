/** Stream framing in the Python client: a header of two 32-bit integers in network
    order (body length, message id), then the body. */
module Framing {
  import opened Common
  import opened Wire
  import opened NetBuffer

  const MSG_HEAD_LEN: nat := 8
  const RECV_SIZE: nat := 10

  datatype Message = Message(id: nat, body: seq<byte>)

  /** What the sender can pack: both integers are unsigned 32-bit. */
  predicate Packable(m: Message) { m.id < TWO_32 && |m.body| < TWO_32 }

  /** Whether the handler of a message returns, given the messages handled before it. A
      message without a handler, or one whose handler raises, ends the client's thread. */
  type Handler = (seq<Message>, Message) -> bool

  function Frame(m: Message): (s: seq<byte>)
    ensures |s| == MSG_HEAD_LEN + |m.body|
  {
    ToBytes(|m.body|, 4) + ToBytes(m.id, 4) + m.body
  }

  function Frames(ms: seq<Message>): seq<byte> {
    if ms == [] then [] else Frame(ms[0]) + Frames(ms[1..])
  }

  function BodyLength(buf: seq<byte>): nat
    requires |buf| >= MSG_HEAD_LEN
  {
    FromBytes(buf[..4])
  }

  function FirstMessage(buf: seq<byte>): Message
    requires Complete(buf)
  {
    Message(FromBytes(buf[4..8]), buf[MSG_HEAD_LEN..MSG_HEAD_LEN + BodyLength(buf)])
  }

  /** A whole frame is waiting at the front. */
  predicate Complete(buf: seq<byte>) {
    |buf| >= MSG_HEAD_LEN && |buf| >= MSG_HEAD_LEN + BodyLength(buf)
  }

  lemma {:induction false} FramesAppend(a: seq<Message>, b: seq<Message>)
    ensures Frames(a + b) == Frames(a) + Frames(b)
  {
    hide Frame, Frames;
    if a == [] {
      assert a + b == b;
      FramesOfNone(b);
    } else {
      FramesAppend(a[1..], b);
      assert (a + b)[1..] == a[1..] + b;
      FramesHead(a);
      FramesHead(a + b);
      Associative(Frame(a[0]), Frames(a[1..]), Frames(b));
    }
  }

  lemma FramesOfNone(b: seq<Message>)
    ensures Frames([]) + Frames(b) == Frames(b)
  {
  }

  lemma FramesHead(a: seq<Message>)
    requires a != []
    ensures Frames(a) == Frame(a[0]) + Frames(a[1..])
  {
  }

  lemma Pow256Of4()
    ensures Pow256(4) == TWO_32
  {
    assert Pow256(2) == 256 * Pow256(1);
  }

  /** The header: four bytes of body length, then four of the id, each most significant
      byte first. */
  lemma FrameLayout(m: Message, i: nat)
    requires Packable(m) && i < 4
    ensures Frame(m)[i] == (|m.body| / Pow256(3 - i)) % 256
    ensures Frame(m)[4 + i] == (m.id / Pow256(3 - i)) % 256
    ensures Frame(m)[8..] == m.body
  {
    ByteAt(|m.body|, 4, i);
    ByteAt(m.id, 4, i);
  }

  /** Any buffer that starts with a frame is complete, and its first message is that. */
  lemma FrameIsFirst(m: Message, rest: seq<byte>)
    requires Packable(m)
    ensures Complete(Frame(m) + rest) && FirstMessage(Frame(m) + rest) == m
    ensures BodyLength(Frame(m) + rest) == |m.body|
  {
    var buf := Frame(m) + rest;
    Pow256Of4();
    FromUndoesTo(|m.body|, 4);
    FromUndoesTo(m.id, 4);
    assert buf[..4] == ToBytes(|m.body|, 4) && buf[4..8] == ToBytes(m.id, 4);
  }

  /** The bytes of a complete frame are the frame of its message. */
  lemma FirstIsFrame(buf: seq<byte>)
    requires Complete(buf)
    ensures var m := FirstMessage(buf);
            Packable(m) && Frame(m) + buf[MSG_HEAD_LEN + BodyLength(buf)..] == buf
  {
    Pow256Of4();
    ToUndoesFrom(buf[..4]);
    ToUndoesFrom(buf[4..8]);
  }

  // ----------------------------------------------------------- the receiver

  /** What a session has handled, and what it has read and not used yet. */
  datatype Session = Session(handled: seq<Message>, readBuf: seq<byte>, alive: bool)

  const START := Session([], [], true)

  /** One wake-up. An exception, on an empty read or from a message's handling, ends the
      client's thread; the buffer is cut only after the handler has returned. */
  function Receive(handler: Handler, s: Session, chunk: seq<byte>): Session {
    if !s.alive then s
    else
      var buf := s.readBuf + chunk;
      if chunk == [] then s.(alive := false)
      else if !Complete(buf) then s.(readBuf := buf)
      else if !handler(s.handled, FirstMessage(buf)) then s.(readBuf := buf, alive := false)
      else Session(s.handled + [FirstMessage(buf)], buf[MSG_HEAD_LEN + BodyLength(buf)..], true)
  }

  function Run(handler: Handler, s: Session, chunks: seq<seq<byte>>): Session
    decreases |chunks|
  {
    if chunks == [] then s else Run(handler, Receive(handler, s, chunks[0]), chunks[1..])
  }

  function Flatten(chunks: seq<seq<byte>>): seq<byte> {
    if chunks == [] then [] else chunks[0] + Flatten(chunks[1..])
  }

  predicate ValidChunks(chunks: seq<seq<byte>>) {
    forall i | 0 <= i < |chunks| :: 1 <= |chunks[i]| <= RECV_SIZE
  }

  predicate AllPackable(ms: seq<Message>) {
    forall i | 0 <= i < |ms| :: Packable(ms[i])
  }

  /** Every message of a stream is handled without an exception. */
  predicate AllReturn(handler: Handler, ms: seq<Message>) {
    forall i | 0 <= i < |ms| :: handler(ms[..i], ms[i])
  }

  /** No byte is lost, invented or reordered by a wake-up, whatever it receives. */
  lemma ReceiveConserves(handler: Handler, s: Session, chunk: seq<byte>)
    requires s.alive
    ensures var r := Receive(handler, s, chunk);
            Frames(r.handled) + r.readBuf == Frames(s.handled) + s.readBuf + chunk
  {
    hide FirstMessage, Frame;
    var buf := s.readBuf + chunk;
    Associative(Frames(s.handled), s.readBuf, chunk);
    if chunk == [] {
      assert s.readBuf + chunk == s.readBuf;
    } else if Complete(buf) && handler(s.handled, FirstMessage(buf)) {
      var m := FirstMessage(buf);
      FirstIsFrame(buf);
      FramesOfOne(m);
      FramesAppend(s.handled, [m]);
      Associative(Frames(s.handled), Frame(m), buf[MSG_HEAD_LEN + BodyLength(buf)..]);
    }
  }

  lemma FramesOfOne(m: Message)
    ensures Frames([m]) == Frame(m)
  {
    assert [m][1..] == [];
  }

  lemma {:induction false} DeadStays(handler: Handler, s: Session, chunks: seq<seq<byte>>)
    requires !s.alive
    ensures Run(handler, s, chunks) == s
    decreases |chunks|
  {
    if chunks != [] {
      DeadStays(handler, s, chunks[1..]);
    }
  }

  /** Over any run the handled frames and the unused bytes are what was received, up
      to the wake-up that ends the thread. */
  lemma {:induction false} RunConserves(handler: Handler, s: Session, chunks: seq<seq<byte>>)
    ensures var r := Run(handler, s, chunks);
            && Frames(r.handled) + r.readBuf <= Frames(s.handled) + s.readBuf + Flatten(chunks)
            && (r.alive ==> Frames(r.handled) + r.readBuf == Frames(s.handled) + s.readBuf + Flatten(chunks))
    decreases |chunks|
  {
    hide Receive, Frames;
    if chunks == [] {
    } else if !s.alive {
      DeadStays(handler, s, chunks);
    } else {
      RunConserves(handler, Receive(handler, s, chunks[0]), chunks[1..]);
      ReceiveConserves(handler, s, chunks[0]);
      Associative(Frames(s.handled) + s.readBuf, chunks[0], Flatten(chunks[1..]));
    }
  }

  /** A wake-up handles at most one message, and forgets none. */
  lemma {:induction false} HandledGrows(handler: Handler, s: Session, chunks: seq<seq<byte>>)
    ensures var r := Run(handler, s, chunks);
            s.handled <= r.handled && |r.handled| <= |s.handled| + |chunks|
    decreases |chunks|
  {
    if chunks != [] {
      HandledGrows(handler, Receive(handler, s, chunks[0]), chunks[1..]);
    }
  }

  /** What is handled was packable, and its handler returned. */
  lemma {:induction false} HandledReturned(handler: Handler, s: Session, chunks: seq<seq<byte>>)
    requires AllPackable(s.handled) && AllReturn(handler, s.handled)
    ensures var r := Run(handler, s, chunks);
            AllPackable(r.handled) && AllReturn(handler, r.handled)
    decreases |chunks|
  {
    if chunks != [] {
      ReceiveReturned(handler, s, chunks[0]);
      HandledReturned(handler, Receive(handler, s, chunks[0]), chunks[1..]);
    }
  }

  lemma ReceiveReturned(handler: Handler, s: Session, chunk: seq<byte>)
    requires AllPackable(s.handled) && AllReturn(handler, s.handled)
    ensures var r := Receive(handler, s, chunk);
            AllPackable(r.handled) && AllReturn(handler, r.handled)
  {
    hide FirstMessage, Complete, Packable;
    var buf := s.readBuf + chunk;
    var r := Receive(handler, s, chunk);
    if r.handled != s.handled {
      FirstIsFrame(buf);
      forall i | 0 <= i < |r.handled| ensures handler(r.handled[..i], r.handled[i]) {
        assert r.handled[..i] == s.handled[..i];
        assert i == |s.handled| ==> s.handled[..i] == s.handled;
      }
    }
  }

  lemma {:induction false} RunAppend(handler: Handler, s: Session, a: seq<seq<byte>>, b: seq<seq<byte>>)
    ensures Run(handler, s, a + b) == Run(handler, Run(handler, s, a), b)
    ensures Flatten(a + b) == Flatten(a) + Flatten(b)
    decreases |a|
  {
    hide Receive;
    if a == [] {
      assert a + b == b;
    } else {
      assert (a + b)[1..] == a[1..] + b;
      RunAppend(handler, Receive(handler, s, a[0]), a[1..], b);
    }
  }

  // ---------------------------------------------------- streams of messages

  /** A stream is messages followed by a part of a frame that never becomes complete. The
      session has handled the first `k` messages and holds the start of what follows. */
  predicate Tracks(s: Session, ms: seq<Message>, part: seq<byte>, k: nat) {
    && s.alive && k <= |ms|
    && s.handled == ms[..k]
    && s.readBuf <= Frames(ms[k..]) + part
  }

  lemma FramesSplit(ms: seq<Message>, k: nat, part: seq<byte>)
    requires k < |ms|
    ensures Frames(ms[k..]) + part == Frame(ms[k]) + (Frames(ms[k + 1..]) + part)
  {
    hide Frame;
    assert ms[k..][1..] == ms[k + 1..];
  }

  /** What has become complete stays so. */
  lemma CompleteMonotone(p: seq<byte>, q: seq<byte>)
    requires p <= q && Complete(p)
    ensures Complete(q)
  {
    assert q[..4] == p[..4];
  }

  /** The front of a stream is complete exactly when it covers the next frame. */
  lemma CompletePrefix(buf: seq<byte>, ms: seq<Message>, part: seq<byte>, k: nat)
    requires AllPackable(ms) && !Complete(part) && k <= |ms| && buf <= Frames(ms[k..]) + part
    ensures Complete(buf) <==> k < |ms| && |Frame(ms[k])| <= |buf|
    ensures Complete(buf) ==> && FirstMessage(buf) == ms[k]
                              && MSG_HEAD_LEN + BodyLength(buf) == |Frame(ms[k])|
                              && buf[|Frame(ms[k])|..] <= Frames(ms[k + 1..]) + part
  {
    hide FirstMessage, Packable, Frame;
    if k == |ms| {
      assert Frames(ms[k..]) + part == part;
      if Complete(buf) {
        CompleteMonotone(buf, part);
      }
    } else {
      var m, tail := ms[k], Frames(ms[k + 1..]) + part;
      FramesSplit(ms, k, part);
      if |Frame(m)| <= |buf| {
        var rest := buf[|Frame(m)|..];
        assert buf == Frame(m) + rest && rest <= tail;
        FrameIsFirst(m, rest);
      } else {
        ShortOfFrame(m, tail, buf);
      }
    }
  }

  lemma ShortOfFrame(m: Message, tail: seq<byte>, buf: seq<byte>)
    requires Packable(m) && buf <= Frame(m) + tail && |buf| < |Frame(m)|
    ensures !Complete(buf)
  {
    FrameIsFirst(m, tail);
    if |buf| >= MSG_HEAD_LEN {
      assert buf[..4] == (Frame(m) + tail)[..4];
    }
  }

  /** One wake-up on a stream: when the next message has become complete, it is handled
      and taken out of the buffer, or ends the thread and stays in it. */
  lemma ReceiveTracks(handler: Handler, s: Session, ms: seq<Message>, part: seq<byte>, k: nat, chunk: seq<byte>)
    requires AllPackable(ms) && !Complete(part) && Tracks(s, ms, part, k)
    requires chunk != [] && s.readBuf + chunk <= Frames(ms[k..]) + part
    ensures var buf, r := s.readBuf + chunk, Receive(handler, s, chunk);
            if k == |ms| || |buf| < |Frame(ms[k])| then Tracks(r, ms, part, k) && r.readBuf == buf && !Complete(buf)
            else if handler(ms[..k], ms[k]) then Tracks(r, ms, part, k + 1) && r.readBuf == buf[|Frame(ms[k])|..]
            else r == Session(ms[..k], buf, false) && Complete(buf)
  {
    hide FirstMessage, Complete, Packable, Frame, Frames;
    CompletePrefix(s.readBuf + chunk, ms, part, k);
    if k < |ms| {
      assert ms[..k] + [ms[k]] == ms[..k + 1];
    }
  }

  /** However a stream of messages is split into reads, the messages handled are its
      first ones, in order, and no byte is lost. */
  lemma {:induction false} RunTracks(handler: Handler, s: Session, ms: seq<Message>, part: seq<byte>, k: nat,
                                     chunks: seq<seq<byte>>) returns (n: nat)
    requires AllPackable(ms) && AllReturn(handler, ms) && !Complete(part)
    requires Tracks(s, ms, part, k) && ValidChunks(chunks)
    requires s.readBuf + Flatten(chunks) <= Frames(ms[k..]) + part
    ensures k <= n && Tracks(Run(handler, s, chunks), ms, part, n)
    ensures Frames(ms[..n]) + Run(handler, s, chunks).readBuf == Frames(ms[..k]) + s.readBuf + Flatten(chunks)
    decreases |chunks|
  {
    hide Receive, Frame, Frames, Packable, Complete;
    RunConserves(handler, s, chunks);
    if chunks == [] {
      n := k;
    } else {
      n := StreamStep(handler, s, ms, part, k, chunks);
      n := RunTracks(handler, Receive(handler, s, chunks[0]), ms, part, n, chunks[1..]);
    }
  }

  lemma StreamStep(handler: Handler, s: Session, ms: seq<Message>, part: seq<byte>, k: nat,
                   chunks: seq<seq<byte>>) returns (n: nat)
    requires AllPackable(ms) && AllReturn(handler, ms) && !Complete(part)
    requires Tracks(s, ms, part, k) && ValidChunks(chunks) && chunks != []
    requires s.readBuf + Flatten(chunks) <= Frames(ms[k..]) + part
    ensures ValidChunks(chunks[1..])
    ensures var r, buf := Receive(handler, s, chunks[0]), s.readBuf + chunks[0];
            && n == (if k < |ms| && |Frame(ms[k])| <= |buf| then k + 1 else k)
            && Tracks(r, ms, part, n)
            && r.readBuf == (if n == k then buf else buf[|Frame(ms[k])|..])
            && (n == k ==> !Complete(r.readBuf))
            && r.readBuf + Flatten(chunks[1..]) <= Frames(ms[n..]) + part
  {
    hide Receive, Frame, Frames, Packable, Complete;
    var buf, more := s.readBuf + chunks[0], Flatten(chunks[1..]);
    Associative(s.readBuf, chunks[0], more);
    assert buf <= buf + more;
    ReceiveTracks(handler, s, ms, part, k, chunks[0]);
    n := k;
    if k < |ms| && |Frame(ms[k])| <= |buf| {
      n := k + 1;
      FramesSplit(ms, k, part);
      RestOfStream(buf, more, Frame(ms[k]), Frames(ms[k + 1..]) + part);
    }
  }

  lemma RestOfStream(buf: seq<byte>, more: seq<byte>, frame: seq<byte>, tail: seq<byte>)
    requires buf + more <= frame + tail && |frame| <= |buf|
    ensures buf[|frame|..] + more <= tail
  {
    assert buf[|frame|..] + more == (buf + more)[|frame|..];
  }

  lemma StartTracks(ms: seq<Message>, part: seq<byte>)
    ensures Tracks(START, ms, part, 0) && !Complete(START.readBuf)
    ensures ms[0..] == ms && ms[..0] == [] && Frames([]) == []
  {
  }

  // -------------------------------------------- frames that wait in the buffer

  /** Every frame but the first fills at least one read. */
  predicate LongFrames(ms: seq<Message>) {
    forall i | 1 <= i < |ms| :: |Frame(ms[i])| >= RECV_SIZE
  }

  /** Then one dispatch a wake-up is enough: no complete frame is ever left waiting. */
  lemma {:induction false} NothingWaits(handler: Handler, s: Session, ms: seq<Message>, part: seq<byte>, k: nat,
                                        chunks: seq<seq<byte>>)
    requires AllPackable(ms) && AllReturn(handler, ms) && LongFrames(ms) && !Complete(part)
    requires Tracks(s, ms, part, k) && !Complete(s.readBuf) && ValidChunks(chunks)
    requires s.readBuf + Flatten(chunks) <= Frames(ms[k..]) + part
    ensures !Complete(Run(handler, s, chunks).readBuf)
    decreases |chunks|
  {
    hide Receive, Frame, Frames, Packable, Complete;
    if chunks != [] {
      var n := StreamStep(handler, s, ms, part, k, chunks);
      var r := Receive(handler, s, chunks[0]);
      CompletePrefix(s.readBuf, ms, part, k);
      if n == k + 1 {
        assert |r.readBuf| < |chunks[0]| <= RECV_SIZE;
        CompletePrefix(r.readBuf, ms, part, n);
      }
      NothingWaits(handler, r, ms, part, n, chunks[1..]);
    }
  }

  /** No complete frame is left in the buffer after a wake-up, however the stream is
      split and however much of it has arrived. */
  ghost predicate NeverWaits(handler: Handler, ms: seq<Message>) {
    forall chunks | ValidChunks(chunks) && Flatten(chunks) <= Frames(ms) ::
      !Complete(Run(handler, START, chunks).readBuf)
  }

  function Bytewise(s: seq<byte>): (chunks: seq<seq<byte>>)
    ensures ValidChunks(chunks)
  {
    if s == [] then [] else [[s[0]]] + Bytewise(s[1..])
  }

  lemma {:induction false} FlattenBytewise(s: seq<byte>)
    ensures Flatten(Bytewise(s)) == s
  {
    if s != [] {
      FlattenBytewise(s[1..]);
      assert Bytewise(s)[1..] == Bytewise(s[1..]);
    }
  }

  function Held(m: Message): (s: seq<byte>)
    ensures |s| == |Frame(m)| - 1
  {
    Frame(m)[..|Frame(m)| - 1]
  }

  function LastByte(m: Message): (s: seq<byte>)
    ensures |s| == 1 && Held(m) + s == Frame(m)
  {
    Frame(m)[|Frame(m)| - 1..]
  }

  /** After every byte of a stream but the last of message `k`, one at a time, the
      messages before `k` are handled and the rest is in the buffer. */
  lemma BeforeLastByte(handler: Handler, ms: seq<Message>, k: nat)
    requires AllPackable(ms) && k < |ms| && AllReturn(handler, ms[..k]) && LongFrames(ms[..k])
    ensures var s := Run(handler, START, Bytewise(Frames(ms[..k]) + Held(ms[k])));
            s == Session(ms[..k], Held(ms[k]), true)
  {
    hide Frame, Held, Frames, Packable, Complete, Run, Bytewise;
    var done, part := ms[..k], Held(ms[k]);
    var early := Frames(done) + part;
    var chunks := Bytewise(early);
    FlattenBytewise(early);
    HeldIsPart(ms[k]);
    StartTracks(done, part);
    assert START.readBuf + early == early;
    var n := RunTracks(handler, START, done, part, 0, chunks);
    NothingWaits(handler, START, done, part, 0, chunks);
    var buf := Run(handler, START, chunks).readBuf;
    CompletePrefix(buf, done, part, n);
    assert [] + START.readBuf + early == early;
    DoneIsAll(done, part, n, buf);
  }

  lemma HeldIsPart(m: Message)
    requires Packable(m)
    ensures !Complete(Held(m))
  {
    hide Packable;
    ShortOfFrame(m, [], Held(m));
    assert Held(m) <= Frame(m) + [];
  }

  /** All frames of a stream are used up when what is left is shorter than the next. */
  lemma DoneIsAll(ms: seq<Message>, part: seq<byte>, n: nat, buf: seq<byte>)
    requires n <= |ms| && Frames(ms[..n]) + buf == Frames(ms) + part
    requires n < |ms| ==> |buf| < |Frame(ms[n])|
    ensures n == |ms| && ms[..n] == ms && buf == part
  {
    hide Frame, Frames;
    assert ms == ms[..n] + ms[n..];
    FramesAppend(ms[..n], ms[n..]);
    if n < |ms| {
      FramesSplit(ms, n, part);
    } else {
      assert ms[..n] == ms;
      assert buf == (Frames(ms) + buf)[|Frames(ms)|..] && part == (Frames(ms) + part)[|Frames(ms)|..];
    }
  }

  /** A message that is not handled stays in the buffer when it has arrived. */
  lemma RaisedWaits(handler: Handler, ms: seq<Message>, k: nat) returns (chunks: seq<seq<byte>>)
    requires AllPackable(ms) && k < |ms| && !handler(ms[..k], ms[k])
    requires AllReturn(handler, ms[..k]) && LongFrames(ms[..k])
    ensures ValidChunks(chunks) && Flatten(chunks) <= Frames(ms)
    ensures Complete(Run(handler, START, chunks).readBuf)
  {
    hide Frame, Frames, Packable, Complete, Receive;
    var m, done := ms[k], Frames(ms[..k]);
    var s := Run(handler, START, Bytewise(done + Held(m)));
    BeforeLastByte(handler, ms, k);
    StartTracks(ms, []);
    chunks := Bytewise(done + Held(m)) + [LastByte(m)];
    FlattenBytewise(done + Held(m));
    RunAppend(handler, START, Bytewise(done + Held(m)), [LastByte(m)]);
    RunOne(handler, s, LastByte(m));
    Associative(done, Held(m), LastByte(m));
    CutStream(ms, k);
    ReceiveTracks(handler, s, ms, [], k, LastByte(m));
  }

  lemma RunOne(handler: Handler, s: Session, chunk: seq<byte>)
    ensures Run(handler, s, [chunk]) == Receive(handler, s, chunk) && Flatten([chunk]) == chunk
  {
    hide Receive;
    assert [chunk][1..] == [];
  }

  lemma CutStream(ms: seq<Message>, k: nat)
    requires k < |ms|
    ensures Frames(ms) == Frames(ms[..k]) + (Frame(ms[k]) + Frames(ms[k + 1..]))
    ensures Frames(ms[..k]) + Frame(ms[k]) <= Frames(ms)
    ensures Held(ms[k]) <= Frames(ms[k..]) + [] && Frame(ms[k]) <= Frames(ms[k..]) + []
  {
    hide Frame, Frames;
    assert ms == ms[..k] + ms[k..];
    FramesAppend(ms[..k], ms[k..]);
    FramesSplit(ms, k, []);
    assert Frames(ms[k..]) + [] == Frames(ms[k..]) && Frames(ms[k + 1..]) + [] == Frames(ms[k + 1..]);
    Associative(Frames(ms[..k]), Frame(ms[k]), Frames(ms[k + 1..]));
  }

  /** A short frame after the first one can be left waiting: let one read bring the
      last byte of the frame before it together with all of it. */
  lemma ShortFrameWaits(handler: Handler, ms: seq<Message>, i: nat) returns (chunks: seq<seq<byte>>)
    requires AllPackable(ms) && 1 <= i < |ms| && |Frame(ms[i])| < RECV_SIZE
    requires AllReturn(handler, ms[..i]) && LongFrames(ms[..i])
    ensures ValidChunks(chunks) && Flatten(chunks) <= Frames(ms)
    ensures Complete(Run(handler, START, chunks).readBuf)
  {
    hide Frame, Frames, Packable, Complete, Receive;
    var m, g, done := ms[i - 1], Frame(ms[i]), Frames(ms[..i - 1]);
    assert ms[..i][..i - 1] == ms[..i - 1];
    assert AllReturn(handler, ms[..i - 1]) by {
      assert forall j | 0 <= j < i - 1 :: ms[..i][..j] == ms[..i - 1][..j];
    }
    var s := Run(handler, START, Bytewise(done + Held(m)));
    BeforeLastByte(handler, ms, i - 1);
    StartTracks(ms, []);
    var last := LastByte(m) + g;
    chunks := Bytewise(done + Held(m)) + [last];
    FlattenBytewise(done + Held(m));
    RunAppend(handler, START, Bytewise(done + Held(m)), [last]);
    RunOne(handler, s, last);
    TwoFrames(ms, i, Held(m), LastByte(m));
    ReceiveTracks(handler, s, ms, [], i - 1, last);
    assert handler(ms[..i][..i - 1], ms[..i][i - 1]);
    FrameIsFirst(ms[i], []);
    assert g + [] == g;
  }

  lemma TwoFrames(ms: seq<Message>, i: nat, held: seq<byte>, last: seq<byte>)
    requires 1 <= i < |ms| && held + last == Frame(ms[i - 1])
    ensures var g := Frame(ms[i]);
            && Frames(ms[..i - 1]) + held + (last + g) <= Frames(ms)
            && held + (last + g) <= Frames(ms[i - 1..]) + []
            && held <= Frames(ms[i - 1..]) + []
            && (held + (last + g))[|Frame(ms[i - 1])|..] == g
  {
    hide Frame, Frames;
    var done, f, g := Frames(ms[..i - 1]), Frame(ms[i - 1]), Frame(ms[i]);
    CutStream(ms, i - 1);
    FramesSplit(ms, i, []);
    FramesSplit(ms, i - 1, []);
    var tail := Frames(ms[i + 1..]) + [];
    assert Frames(ms[i..]) + [] == Frames(ms[i..]);
    Associative(held, last, g);
    Associative(f, g, tail);
    Associative(done, held, last + g);
    Associative(done, f + g, tail);
  }

  /** The first message that is not handled, or whose frame is short behind another. */
  lemma FirstBad(handler: Handler, ms: seq<Message>) returns (i: nat)
    requires !AllReturn(handler, ms) || !LongFrames(ms)
    ensures i < |ms| && AllReturn(handler, ms[..i]) && LongFrames(ms[..i])
    ensures !handler(ms[..i], ms[i]) || (i >= 1 && |Frame(ms[i])| < RECV_SIZE)
  {
    hide Frame;
    i := 0;
    while i < |ms| && handler(ms[..i], ms[i]) && (i == 0 || |Frame(ms[i])| >= RECV_SIZE)
      invariant i <= |ms| && AllReturn(handler, ms[..i]) && LongFrames(ms[..i])
    {
      assert forall j | 0 <= j <= i :: ms[..i + 1][..j] == ms[..j] && (j < i ==> ms[..i][..j] == ms[..j]);
      i := i + 1;
    }
    assert ms[..|ms|] == ms;
  }

  /** Complete frames never wait exactly when every message is handled without an
      exception and every frame after the first has at least ten bytes, that is, a body
      of at least two. */
  lemma NeverWaitsIff(handler: Handler, ms: seq<Message>)
    requires AllPackable(ms)
    ensures NeverWaits(handler, ms) <==> AllReturn(handler, ms) && LongFrames(ms)
  {
    hide Frames, Run, Flatten, Packable, Complete, Frame, LongFrames, AllReturn;
    if AllReturn(handler, ms) && LongFrames(ms) {
      StartTracks(ms, []);
      forall chunks | ValidChunks(chunks) && Flatten(chunks) <= Frames(ms)
        ensures !Complete(Run(handler, START, chunks).readBuf)
      {
        assert [] + Flatten(chunks) == Flatten(chunks) && Frames(ms) + [] == Frames(ms);
        NothingWaits(handler, START, ms, [], 0, chunks);
      }
    } else {
      var i := FirstBad(handler, ms);
      var chunks: seq<seq<byte>>;
      if !handler(ms[..i], ms[i]) {
        chunks := RaisedWaits(handler, ms, i);
      } else {
        chunks := ShortFrameWaits(handler, ms, i);
      }
    }
  }

  // --------------------------------------------- streams that arrive in full

  /** From every frame after the first on, the frames are ten bytes long on average. */
  predicate LongTails(ms: seq<Message>) {
    forall i | 1 <= i < |ms| :: |Frames(ms[i..])| >= RECV_SIZE * (|ms| - i)
  }

  /** However the stream is split, all of it is handled when all of it has arrived. */
  ghost predicate HandledInFull(handler: Handler, ms: seq<Message>) {
    forall chunks | ValidChunks(chunks) && Flatten(chunks) == Frames(ms) ::
      Run(handler, START, chunks) == Session(ms, [], true)
  }

  /** So many bytes are still to come that there is a wake-up for each message left. */
  predicate EnoughToCome(ms: seq<Message>, k: nat, rest: nat) {
    k == |ms| || rest > RECV_SIZE * (|ms| - k - 1)
  }

  lemma EnoughIfIncomplete(ms: seq<Message>, k: nat, buf: seq<byte>, rest: nat)
    requires AllPackable(ms) && LongTails(ms) && k <= |ms|
    requires !Complete(buf) && buf <= Frames(ms[k..]) + [] && |buf| + rest == |Frames(ms[k..])|
    ensures EnoughToCome(ms, k, rest)
  {
    hide Frame, Frames, Packable, Complete;
    StartTracks([], []);
    CompletePrefix(buf, ms, [], k);
    if k < |ms| {
      FramesSplit(ms, k, []);
      assert k + 1 < |ms| ==> |Frames(ms[k + 1..])| >= RECV_SIZE * (|ms| - (k + 1));
    }
  }

  lemma {:induction false} EnoughWakeUps(handler: Handler, s: Session, ms: seq<Message>, k: nat, chunks: seq<seq<byte>>)
    requires AllPackable(ms) && AllReturn(handler, ms) && LongTails(ms)
    requires Tracks(s, ms, [], k) && ValidChunks(chunks)
    requires s.readBuf + Flatten(chunks) == Frames(ms[k..])
    requires EnoughToCome(ms, k, |Flatten(chunks)|)
    ensures Run(handler, s, chunks) == Session(ms, [], true)
    decreases |chunks|
  {
    hide Receive, Frame, Frames, AllPackable, Complete, LongTails, AllReturn, EnoughToCome, Tracks;
    if chunks == [] {
      AllArrived(s, ms, k);
    } else {
      var n := EnoughStep(handler, s, ms, k, chunks);
      EnoughWakeUps(handler, Receive(handler, s, chunks[0]), ms, n, chunks[1..]);
    }
  }

  lemma AllArrived(s: Session, ms: seq<Message>, k: nat)
    requires Tracks(s, ms, [], k) && s.readBuf == Frames(ms[k..]) && EnoughToCome(ms, k, 0)
    ensures s == Session(ms, [], true)
  {
    EnoughForNone(ms, k);
    assert ms[k..] == [] && ms[..k] == ms;
  }

  lemma EnoughStep(handler: Handler, s: Session, ms: seq<Message>, k: nat, chunks: seq<seq<byte>>) returns (n: nat)
    requires AllPackable(ms) && AllReturn(handler, ms) && LongTails(ms)
    requires Tracks(s, ms, [], k) && ValidChunks(chunks) && chunks != []
    requires s.readBuf + Flatten(chunks) == Frames(ms[k..])
    requires EnoughToCome(ms, k, |Flatten(chunks)|)
    ensures ValidChunks(chunks[1..])
    ensures var r, more := Receive(handler, s, chunks[0]), Flatten(chunks[1..]);
            && Tracks(r, ms, [], n)
            && r.readBuf + more == Frames(ms[n..])
            && EnoughToCome(ms, n, |more|)
  {
    hide Receive, Frame, Frames, AllPackable, Complete, LongTails, AllReturn, EnoughToCome;
    StartTracks(ms, []);
    assert Frames(ms[k..]) + [] == Frames(ms[k..]);
    var r, more := Receive(handler, s, chunks[0]), Flatten(chunks[1..]);
    n := StreamStep(handler, s, ms, [], k, chunks);
    Associative(s.readBuf, chunks[0], more);
    StepLength(ms, k, n, s.readBuf + chunks[0], r.readBuf, more);
    if n == k {
      EnoughIfIncomplete(ms, n, r.readBuf, |more|);
    } else {
      OneLess(ms, k, |chunks[0]|, |more|);
    }
  }

  lemma EnoughForNone(ms: seq<Message>, k: nat)
    requires k <= |ms|
    ensures EnoughToCome(ms, k, 0) ==> k == |ms|
  {
  }

  lemma OneLess(ms: seq<Message>, k: nat, taken: nat, rest: nat)
    requires k < |ms| && taken <= RECV_SIZE && EnoughToCome(ms, k, taken + rest)
    ensures EnoughToCome(ms, k + 1, rest)
  {
  }

  lemma StepLength(ms: seq<Message>, k: nat, n: nat, buf: seq<byte>, buf': seq<byte>, more: seq<byte>)
    requires k <= |ms| && n <= |ms| && buf + more == Frames(ms[k..]) && buf' + more <= Frames(ms[n..]) + []
    requires n == k || (n == k + 1 && |Frame(ms[k])| <= |buf|)
    requires buf' == if n == k then buf else buf[|Frame(ms[k])|..]
    ensures buf' + more == Frames(ms[n..])
  {
    hide Frame, Frames;
    assert Frames(ms[n..]) + [] == Frames(ms[n..]);
    if n == k + 1 {
      FramesSplit(ms, k, []);
      assert |buf' + more| == |Frames(ms[n..])|;
    }
  }

  /** The bytes in reads of ten, as far as they go. */
  function Tens(s: seq<byte>): (chunks: seq<seq<byte>>)
    ensures ValidChunks(chunks)
    ensures RECV_SIZE * |chunks| < |s| + RECV_SIZE
  {
    if s == [] then []
    else
      var n := if |s| < RECV_SIZE then |s| else RECV_SIZE;
      [s[..n]] + Tens(s[n..])
  }

  lemma {:induction false} FlattenTens(s: seq<byte>)
    ensures Flatten(Tens(s)) == s
  {
    if s != [] {
      var n := if |s| < RECV_SIZE then |s| else RECV_SIZE;
      FlattenTens(s[n..]);
      assert Tens(s)[1..] == Tens(s[n..]);
      assert s[..n] + s[n..] == s;
    }
  }

  /** Too short a tail can be late: after all but one byte of what stands before it, there
      are not enough wake-ups left for its frames and the one before. */
  lemma ShortTailIsLate(handler: Handler, ms: seq<Message>, i: nat) returns (chunks: seq<seq<byte>>)
    requires 1 <= i < |ms| && |Frames(ms[i..])| < RECV_SIZE * (|ms| - i)
    ensures ValidChunks(chunks) && Flatten(chunks) == Frames(ms)
    ensures Run(handler, START, chunks).handled != ms
  {
    hide Frame, Frames, Receive, Complete;
    var front, tail := Frames(ms[..i]), Frames(ms[i..]);
    assert ms == ms[..i] + ms[i..];
    FramesAppend(ms[..i], ms[i..]);
    FramesGrow(ms, i - 1);
    var early, late := Bytewise(front[..|front| - 1]), Tens(front[|front| - 1..] + tail);
    FlattenBytewise(front[..|front| - 1]);
    FlattenTens(front[|front| - 1..] + tail);
    chunks := early + late;
    RunAppend(handler, START, early, late);
    Associative(front[..|front| - 1], front[|front| - 1..], tail);
    assert front[..|front| - 1] + front[|front| - 1..] == front;
    LateCount(handler, ms, i, early, late);
  }

  lemma LateCount(handler: Handler, ms: seq<Message>, i: nat, early: seq<seq<byte>>, late: seq<seq<byte>>)
    requires 1 <= i < |ms| && |Flatten(early)| < |Frames(ms[..i])| && |late| <= |ms| - i
    ensures Run(handler, Run(handler, START, early), late).handled != ms
  {
    hide Frame, Frames, Receive, Complete;
    var s := Run(handler, START, early);
    RunConserves(handler, START, early);
    HandledGrows(handler, s, late);
    StartTracks(ms, []);
    var n := |s.handled|;
    assert |Frames(s.handled)| <= |Flatten(early)|;
    if i <= n && s.handled <= ms {
      assert s.handled == ms[..n];
      FramesMonotone(ms, i, n);
    }
  }

  lemma FramesGrow(ms: seq<Message>, n: nat)
    requires n < |ms|
    ensures |Frames(ms[..n + 1])| == |Frames(ms[..n])| + |Frame(ms[n])|
  {
    assert ms[..n + 1] == ms[..n] + [ms[n]];
    FramesAppend(ms[..n], [ms[n]]);
  }

  lemma FramesMonotone(ms: seq<Message>, a: nat, b: nat)
    requires a <= b <= |ms|
    ensures |Frames(ms[..a])| <= |Frames(ms[..b])|
  {
    assert ms[..b] == ms[..a] + ms[a..b];
    FramesAppend(ms[..a], ms[a..b]);
  }

  /** A stream that arrives in full is handled in full, for every split, exactly when its
      messages can be packed and are handled without an exception, and no tail of it
      behind the first frame has frames shorter than ten bytes on average. */
  lemma HandledInFullIff(handler: Handler, ms: seq<Message>)
    ensures HandledInFull(handler, ms) <==> AllPackable(ms) && AllReturn(handler, ms) && LongTails(ms)
  {
    hide Frames, Run, Flatten, Packable, Complete, Frame;
    StartTracks(ms, []);
    if AllPackable(ms) && AllReturn(handler, ms) && LongTails(ms) {
      forall chunks | ValidChunks(chunks) && Flatten(chunks) == Frames(ms)
        ensures Run(handler, START, chunks) == Session(ms, [], true)
      {
        assert [] + Flatten(chunks) == Flatten(chunks);
        EnoughIfIncomplete(ms, 0, [], |Frames(ms)|);
        EnoughWakeUps(handler, START, ms, 0, chunks);
      }
    } else if HandledInFull(handler, ms) {
      var bytes := Bytewise(Frames(ms));
      FlattenBytewise(Frames(ms));
      HandledReturned(handler, START, bytes);
      assert Run(handler, START, bytes).handled == ms;
      var i :| 1 <= i < |ms| && |Frames(ms[i..])| < RECV_SIZE * (|ms| - i);
      var chunks := ShortTailIsLate(handler, ms, i);
      assert false;
    }
  }

  /** Where frames never wait, they are handled in full. */
  lemma NeverWaitsIsStronger(handler: Handler, ms: seq<Message>)
    requires AllPackable(ms) && NeverWaits(handler, ms)
    ensures HandledInFull(handler, ms)
  {
    NeverWaitsIff(handler, ms);
    HandledInFullIff(handler, ms);
    forall i | 1 <= i < |ms| ensures |Frames(ms[i..])| >= RECV_SIZE * (|ms| - i) {
      LongFramesLongTail(ms, i);
    }
  }

  /** Not conversely: frames of 12, 9 and 11 bytes can wait, but not for ever. */
  lemma WaitingNotForEver(handler: Handler, ms: seq<Message>)
    requires AllPackable(ms) && AllReturn(handler, ms)
    requires |ms| == 3 && |Frame(ms[0])| == 12 && |Frame(ms[1])| == 9 && |Frame(ms[2])| == 11
    ensures !NeverWaits(handler, ms) && HandledInFull(handler, ms)
  {
    hide Frame, NeverWaits, HandledInFull, AllReturn, AllPackable;
    NeverWaitsIff(handler, ms);
    HandledInFullIff(handler, ms);
    FramesSplit(ms, 1, []);
    FramesSplit(ms, 2, []);
    assert ms[3..] == [];
  }

  lemma {:induction false} LongFramesLongTail(ms: seq<Message>, i: nat)
    requires 1 <= i <= |ms| && LongFrames(ms)
    ensures |Frames(ms[i..])| >= RECV_SIZE * (|ms| - i)
    decreases |ms| - i
  {
    hide Frame;
    if i < |ms| {
      LongFramesLongTail(ms, i + 1);
      FramesSplit(ms, i, []);
    }
  }
}
