/** The network buffer: a window of readable bytes that moves inside an array. */
module NetBuffer {
  import opened Common
  import opened Wire

  const CHEAP_PREPEND: nat := 8
  const INITIAL_SIZE: nat := 1024
  const EXTRA_BUFFER: nat := 65536

  // ------------------------------------------------------------- the window

  /** Where the readable bytes lie in an array of `size` bytes. */
  datatype Window = Window(size: nat, reader: nat, writer: nat) {
    predicate Valid() { CHEAP_PREPEND <= size && reader <= writer <= size }

    function Readable(): int { writer - reader }

    function Writable(): int { size - writer }
  }

  function Make(w: Window, len: nat): (r: Window)
    requires w.Valid() && w.Writable() < len
    ensures r.Valid() && r.Readable() == w.Readable() && r.Writable() >= len
  {
    if w.Writable() + w.reader < len + CHEAP_PREPEND then w.(size := w.writer + len)
    else Window(w.size, CHEAP_PREPEND, CHEAP_PREPEND + w.Readable())
  }

  function Ensure(w: Window, len: nat): (r: Window)
    requires w.Valid()
    ensures r.Valid() && r.Readable() == w.Readable() && r.Writable() >= len
  {
    if w.Writable() < len then Make(w, len) else w
  }

  /** The move inside the array is reached only when there is room in front of the
      readable bytes, so it always copies towards the front; and an enlarged array
      stays below 8 + readable + 2 * len - writable. */
  lemma MakeSpaceBounds(w: Window, len: nat)
    requires w.Valid() && w.Writable() < len
    ensures w.Writable() + w.reader >= len + 8 ==> 8 < w.reader
    ensures w.Writable() + w.reader < len + 8 ==>
              w.size < Make(w, len).size < 8 + w.Readable() + 2 * len - w.Writable()
  {
  }

  /** Room is made in the cheapest way that suffices: not at all if there is room behind,
      by moving to index 8 if there is room in the array, and else by growing the array to
      exactly what is needed, with everything where it was. */
  lemma EnsureIsCheapest(w: Window, len: nat)
    requires w.Valid()
    ensures Ensure(w, len) == w <==> w.writer + len <= w.size
    ensures Ensure(w, len).size > w.size <==> w.size < w.writer + len && w.size < 8 + w.Readable() + len
    ensures Ensure(w, len).size == w.size && Ensure(w, len) != w ==> Ensure(w, len).reader == 8
    ensures Ensure(w, len).size > w.size ==>
              Ensure(w, len).size == w.writer + len && Ensure(w, len).reader == w.reader
  {
  }

  // --------------------------------------------------------- runs of a buffer

  datatype Op =
    | Append(data: seq<byte>)
    | Retrieve(len: nat)
    | Prepend(data: seq<byte>)
    | Unwrite(len: nat)
    | ReadFd(data: seq<byte>)
    | Shrink(reserve: nat)

  /** What a caller must respect, and how much one scatter read can deliver. */
  predicate Legal(w: Window, op: Op) {
    match op
    case Append(_) => true
    case Retrieve(len) => len <= w.Readable()
    case Prepend(data) => |data| <= w.reader
    case Unwrite(len) => len <= w.Readable()
    case ReadFd(data) => |data| <= w.Writable() + (if w.Writable() < EXTRA_BUFFER then EXTRA_BUFFER else 0)
    case Shrink(_) => true
  }

  function Step(w: Window, op: Op): (r: Window)
    requires w.Valid() && Legal(w, op)
    ensures r.Valid()
  {
    match op
    case Append(data) => AppendStep(w, |data|)
    case Retrieve(len) => RetrieveStep(w, len)
    case Prepend(data) => w.(reader := w.reader - |data|)
    case Unwrite(len) => w.(writer := w.writer - len)
    case ReadFd(data) =>
      if |data| <= w.Writable() then w.(writer := w.writer + |data|)
      else AppendStep(w.(writer := w.size), |data| - w.Writable())
    case Shrink(reserve) => ShrinkStep(w, reserve)
  }

  function AppendStep(w: Window, len: nat): (r: Window)
    requires w.Valid()
    ensures r.Valid() && r.Readable() == w.Readable() + len
  {
    var e := Ensure(w, len);
    e.(writer := e.writer + len)
  }

  function RetrieveStep(w: Window, len: nat): (r: Window)
    requires w.Valid() && len <= w.Readable()
    ensures r.Valid() && r.Readable() == w.Readable() - len
  {
    if len < w.Readable() then w.(reader := w.reader + len)
    else Window(w.size, CHEAP_PREPEND, CHEAP_PREPEND)
  }

  function ShrinkStep(w: Window, reserve: nat): (r: Window)
    requires w.Valid()
    ensures r.Valid() && r.Readable() == w.Readable()
  {
    var blank := Window(CHEAP_PREPEND + INITIAL_SIZE, CHEAP_PREPEND, CHEAP_PREPEND);
    AppendStep(Ensure(blank, w.Readable() + reserve), w.Readable())
  }

  /** The same operation on a plain queue of bytes. */
  function Queue(s: seq<byte>, op: Op): seq<byte> {
    match op
    case Append(data) => s + data
    case Retrieve(len) => if len <= |s| then s[len..] else []
    case Prepend(data) => data + s
    case Unwrite(len) => if len <= |s| then s[..|s| - len] else []
    case ReadFd(data) => s + data
    case Shrink(_) => s
  }

  predicate LegalRun(w: Window, ops: seq<Op>)
    requires w.Valid()
    decreases |ops|
  {
    ops == [] || (Legal(w, ops[0]) && LegalRun(Step(w, ops[0]), ops[1..]))
  }

  function RunWindow(w: Window, ops: seq<Op>): (r: Window)
    requires w.Valid() && LegalRun(w, ops)
    ensures r.Valid()
    decreases |ops|
  {
    if ops == [] then w else RunWindow(Step(w, ops[0]), ops[1..])
  }

  function RunQueue(s: seq<byte>, ops: seq<Op>): seq<byte>
    decreases |ops|
  {
    if ops == [] then s else RunQueue(Queue(s, ops[0]), ops[1..])
  }

  /** What an operation needs room for: the bytes readable once it is done, and what
      a shrink is asked to keep in reserve. */
  function Demand(w: Window, op: Op): int
    requires w.Valid()
  {
    match op
    case Append(data) => w.Readable() + |data|
    case ReadFd(data) => w.Readable() + |data|
    case Shrink(reserve) => w.Readable() + reserve
    case _ => 0
  }

  function Max(a: int, b: int): int { if a < b then b else a }

  function Peak(w: Window, ops: seq<Op>): int
    requires w.Valid() && LegalRun(w, ops)
    decreases |ops|
  {
    if ops == [] then 0
    else Max(Demand(w, ops[0]), Peak(Step(w, ops[0]), ops[1..]))
  }

  lemma StepBound(w: Window, op: Op)
    requires w.Valid() && Legal(w, op)
    ensures Step(w, op).size <= Max(Max(w.size, CHEAP_PREPEND + 2 * Demand(w, op)),
                                    if op.Shrink? then CHEAP_PREPEND + INITIAL_SIZE else 0)
    ensures !op.Shrink? ==> w.size <= Step(w, op).size
  {
  }

  /** Over any run the array never exceeds its first size, the size a shrink starts
      from, or 8 plus twice the largest demand ever made. */
  lemma {:induction false} SpaceBound(w: Window, ops: seq<Op>)
    requires w.Valid() && LegalRun(w, ops)
    ensures RunWindow(w, ops).size <=
            Max(Max(w.size, 8 + 1024), 8 + 2 * Peak(w, ops))
    ensures (forall op <- ops :: !op.Shrink?) ==>
              w.size <= RunWindow(w, ops).size <= Max(w.size, 8 + 2 * Peak(w, ops))
    decreases |ops|
  {
    hide Step, Demand;
    if ops != [] {
      StepBound(w, ops[0]);
      SpaceBound(Step(w, ops[0]), ops[1..]);
      assert (forall op <- ops :: !op.Shrink?) ==> !ops[0].Shrink? && forall op <- ops[1..] :: !op.Shrink?;
    }
  }

  /** The window of a buffer always holds as many bytes as the queue it stands for. */
  lemma {:induction false} WindowFitsQueue(w: Window, s: seq<byte>, ops: seq<Op>)
    requires w.Valid() && LegalRun(w, ops) && w.Readable() == |s|
    ensures RunWindow(w, ops).Readable() == |RunQueue(s, ops)|
    decreases |ops|
  {
    if ops != [] {
      WindowFitsQueue(Step(w, ops[0]), Queue(s, ops[0]), ops[1..]);
    }
  }

  /** A shrunk buffer has exactly the space of a new one that is asked for the readable
      bytes and the reserve; an array smaller than a new one grows. */
  lemma ShrinkSize(w: Window, reserve: nat)
    requires w.Valid()
    ensures var r := ShrinkStep(w, reserve);
            && r.size == 8 + Max(1024, w.Readable() + reserve)
            && r.reader == 8
            && r.Writable() >= reserve
  {
  }

  // ------------------------------------------------------ runs of two buffers

  datatype Two<T> = Two(first: T, second: T)

  datatype PairOp = First(op: Op) | Second(op: Op) | Swap

  predicate BothValid(w: Two<Window>) { w.first.Valid() && w.second.Valid() }

  predicate LegalOn(w: Two<Window>, p: PairOp) {
    match p
    case First(op) => Legal(w.first, op)
    case Second(op) => Legal(w.second, op)
    case Swap => true
  }

  function StepOn(w: Two<Window>, p: PairOp): (r: Two<Window>)
    requires BothValid(w) && LegalOn(w, p)
    ensures BothValid(r)
  {
    match p
    case First(op) => w.(first := Step(w.first, op))
    case Second(op) => w.(second := Step(w.second, op))
    case Swap => Two(w.second, w.first)
  }

  /** The same on two plain queues of bytes. */
  function QueueOn(q: Two<seq<byte>>, p: PairOp): Two<seq<byte>> {
    match p
    case First(op) => q.(first := Queue(q.first, op))
    case Second(op) => q.(second := Queue(q.second, op))
    case Swap => Two(q.second, q.first)
  }

  predicate LegalPairRun(w: Two<Window>, ps: seq<PairOp>)
    requires BothValid(w)
    decreases |ps|
  {
    ps == [] || (LegalOn(w, ps[0]) && LegalPairRun(StepOn(w, ps[0]), ps[1..]))
  }

  function RunWindows(w: Two<Window>, ps: seq<PairOp>): (r: Two<Window>)
    requires BothValid(w) && LegalPairRun(w, ps)
    ensures BothValid(r)
    decreases |ps|
  {
    if ps == [] then w else RunWindows(StepOn(w, ps[0]), ps[1..])
  }

  function RunQueues(q: Two<seq<byte>>, ps: seq<PairOp>): Two<seq<byte>>
    decreases |ps|
  {
    if ps == [] then q else RunQueues(QueueOn(q, ps[0]), ps[1..])
  }

  // ------------------------------------------------- integers, network order

  function Pow256(n: nat): (r: int)
    ensures r > 0
  {
    if n == 0 then 1 else 256 * Pow256(n - 1)
  }

  function ToBytes(v: nat, width: nat): (s: seq<byte>)
    ensures |s| == width
  {
    if width == 0 then [] else ToBytes(v / 256, width - 1) + [v % 256]
  }

  function FromBytes(s: seq<byte>): (v: nat)
    ensures v < Pow256(|s|)
  {
    if s == [] then 0 else 256 * FromBytes(s[..|s| - 1]) + s[|s| - 1]
  }

  lemma {:induction false} FromUndoesTo(v: nat, width: nat)
    requires v < Pow256(width)
    ensures FromBytes(ToBytes(v, width)) == v
  {
    if width > 0 {
      FromUndoesTo(v / 256, width - 1);
      var s := ToBytes(v, width);
      assert s[..width - 1] == ToBytes(v / 256, width - 1);
    }
  }

  lemma {:induction false} ToUndoesFrom(s: seq<byte>)
    ensures ToBytes(FromBytes(s), |s|) == s
    decreases |s|
  {
    if s != [] {
      var n := |s| - 1;
      ToUndoesFrom(s[..n]);
      assert FromBytes(s) / 256 == FromBytes(s[..n]) && FromBytes(s) % 256 == s[n];
      assert s == s[..n] + [s[n]];
    }
  }

  /** The signed integers of `width` bytes. */
  predicate Fits(x: int, width: nat) {
    -Pow256(width) <= 2 * x < Pow256(width)
  }

  function ToNetwork(x: int, width: nat): (s: seq<byte>)
    requires Fits(x, width)
    ensures |s| == width
  {
    ToBytes(if x < 0 then x + Pow256(width) else x, width)
  }

  function FromNetwork(s: seq<byte>): (x: int)
    ensures Fits(x, |s|)
  {
    var v := FromBytes(s);
    if 2 * v < Pow256(|s|) then v else v - Pow256(|s|)
  }

  /** Every integer of a width and every byte string of that length correspond. */
  lemma NetworkOrder(x: int, width: nat, s: seq<byte>)
    requires Fits(x, width)
    ensures FromNetwork(ToNetwork(x, width)) == x
    ensures ToNetwork(FromNetwork(s), |s|) == s
  {
    FromUndoesTo(if x < 0 then x + Pow256(width) else x, width);
    ToUndoesFrom(s);
  }

  lemma ReadFdStep(w: Window, received: seq<byte>)
    requires w.Valid() && Legal(w, Op.ReadFd(received))
    ensures |received| <= w.Writable() + 65536
    ensures Step(w, Op.ReadFd(received)) ==
            if |received| <= w.Writable() then w.(writer := w.writer + |received|)
            else AppendStep(w.(writer := w.size), |received| - w.Writable())
  {
    hide AppendStep;
  }

  lemma SplitAt(before: seq<byte>, data: seq<byte>, n: nat)
    requires n <= |data|
    ensures before + data[..n] + data[n..] == before + data
  {
  }

  /** Most significant byte first; a negative integer as its two's complement, since the
      division rounds down. */
  lemma {:induction false} ByteAt(v: nat, width: nat, i: nat)
    requires i < width
    ensures ToBytes(v, width)[i] == (v / Pow256(width - 1 - i)) % 256
    decreases width
  {
    if i < width - 1 {
      ByteAt(v / 256, width - 1, i);
      DivDiv(v, 256, Pow256(width - 2 - i));
    }
  }

  lemma AddMultiple(x: int, d: int, k: int)
    requires d > 0
    ensures (x + d * k) / d == x / d + k && (x + d * k) % d == x % d
  {
    var q, r := x / d, x % d;
    assert x == d * q + r;
    Distribute(d, q, -k);
    assert d * -k == -(d * k);
    DivIs(x + d * k, d, q + k, r);
  }

  lemma ShiftByMultiple(x: int, n: nat, i: nat)
    requires i < n
    ensures ((x + Pow256(n)) / Pow256(i)) % 256 == (x / Pow256(i)) % 256
  {
    var k := Pow256(n - 1 - i);
    PowersMultiply(i, n - i);
    AddMultiple(x, Pow256(i), 256 * k);
    AddMultiple(x / Pow256(i), 256, k);
  }

  lemma {:induction false} PowersMultiply(a: nat, b: nat)
    ensures Pow256(a + b) == Pow256(a) * Pow256(b)
    decreases a
  {
    if a > 0 {
      PowersMultiply(a - 1, b);
      assert Pow256(a + b) == 256 * Pow256(a - 1 + b);
      assert 256 * (Pow256(a - 1) * Pow256(b)) == 256 * Pow256(a - 1) * Pow256(b);
    }
  }

  /** Network order: byte `i` of the integer, from the most significant on. */
  lemma NetworkBytes(x: int, width: nat, i: nat)
    requires Fits(x, width) && i < width
    ensures ToNetwork(x, width)[i] == (x / Pow256(width - 1 - i)) % 256
  {
    ByteAt(if x < 0 then x + Pow256(width) else x, width, i);
    if x < 0 {
      ShiftByMultiple(x, width, width - 1 - i);
    }
  }

  /** One and minus one, in four bytes. */
  lemma NetworkExamples()
    ensures ToNetwork(1, 4) == [0, 0, 0, 1] && ToNetwork(-1, 4) == [255, 255, 255, 255]
    ensures ToNetwork(-2, 1) == [254] && ToNetwork(258, 2) == [1, 2]
  {
    assert Pow256(1) == 256 && Pow256(2) == 65536 && Pow256(3) == 16777216 && Pow256(4) == 4294967296;
    forall i | 0 <= i < 4 ensures ToNetwork(1, 4)[i] == [0, 0, 0, 1][i] && ToNetwork(-1, 4)[i] == 255 {
      NetworkBytes(1, 4, i);
      NetworkBytes(-1, 4, i);
    }
    NetworkBytes(-2, 1, 0);
    NetworkBytes(258, 2, 0);
    NetworkBytes(258, 2, 1);
  }

  // -------------------------------------------------------------- the buffer

  class Buffer {
    var buffer: array<byte>
    var readerIndex: nat
    var writerIndex: nat

    function Geometry(): Window
      reads this
    {
      Window(buffer.Length, readerIndex, writerIndex)
    }

    ghost predicate Valid()
      reads this
    {
      Geometry().Valid()
    }

    function Contents(): (s: seq<byte>)
      reads this, buffer
      requires Valid()
      ensures |s| == Geometry().Readable()
    {
      buffer[readerIndex..writerIndex]
    }

    constructor (initialSize: nat)
      ensures Valid() && fresh(buffer)
      ensures Contents() == []
      ensures Geometry() == Window(CHEAP_PREPEND + initialSize, CHEAP_PREPEND, CHEAP_PREPEND)
    {
      buffer := new byte[CHEAP_PREPEND + initialSize];
      readerIndex := CHEAP_PREPEND;
      writerIndex := CHEAP_PREPEND;
    }

    method Swap(rhs: Buffer)
      requires Valid() && rhs.Valid()
      modifies this, rhs
      ensures Valid() && rhs.Valid()
      ensures buffer == old(rhs.buffer) && rhs.buffer == old(buffer)
      ensures Geometry() == old(rhs.Geometry()) && rhs.Geometry() == old(Geometry())
    {
      buffer, rhs.buffer := rhs.buffer, buffer;
      readerIndex, rhs.readerIndex := rhs.readerIndex, readerIndex;
      writerIndex, rhs.writerIndex := rhs.writerIndex, writerIndex;
    }

    method RetrieveAll()
      requires Valid()
      modifies this
      ensures Valid() && buffer == old(buffer)
      ensures Contents() == [] && readerIndex == writerIndex == 8
      ensures Geometry() == old(RetrieveStep(Geometry(), Geometry().Readable()))
    {
      readerIndex := CHEAP_PREPEND;
      writerIndex := CHEAP_PREPEND;
    }

    method Retrieve(len: nat)
      requires Valid() && len <= |Contents()|
      modifies this
      ensures Valid() && buffer == old(buffer)
      ensures Contents() == old(Contents())[len..]
      ensures Geometry() == old(RetrieveStep(Geometry(), len))
      ensures if len < old(|Contents()|) then readerIndex == old(readerIndex) + len && writerIndex == old(writerIndex)
              else readerIndex == writerIndex == 8
    {
      if len < writerIndex - readerIndex {
        readerIndex := readerIndex + len;
      } else {
        RetrieveAll();
      }
    }

    method RetrieveAsString(len: nat) returns (result: seq<byte>)
      requires Valid() && len <= |Contents()|
      modifies this
      ensures Valid() && buffer == old(buffer)
      ensures result + Contents() == old(Contents()) && |result| == len
      ensures Geometry() == old(RetrieveStep(Geometry(), len))
    {
      result := buffer[readerIndex..readerIndex + len];
      Retrieve(len);
    }

    method MakeSpace(len: nat)
      requires Valid() && Geometry().Writable() < len
      modifies this, buffer
      ensures Valid() && (buffer == old(buffer) || fresh(buffer))
      ensures Contents() == old(Contents())
      ensures Geometry() == old(Make(Geometry(), len))
    {
      if buffer.Length - writerIndex + readerIndex < len + CHEAP_PREPEND {
        var larger := new byte[writerIndex + len];
        forall i | 0 <= i < buffer.Length {
          larger[i] := buffer[i];
        }
        buffer := larger;
      } else {
        assert CHEAP_PREPEND < readerIndex;
        var readable := writerIndex - readerIndex;
        MoveToFront(readable);
        readerIndex := CHEAP_PREPEND;
        writerIndex := readerIndex + readable;
      }
    }

    /** The overlapping copy, byte by byte towards the front. */
    method MoveToFront(readable: nat)
      requires Valid() && CHEAP_PREPEND < readerIndex && readable == writerIndex - readerIndex
      modifies buffer
      ensures buffer[CHEAP_PREPEND..CHEAP_PREPEND + readable] == old(Contents())
    {
      ghost var bytes := Contents();
      assert forall j | 0 <= j < readable :: bytes[j] == buffer[readerIndex + j];
      var i := 0;
      while i < readable
        invariant 0 <= i <= readable
        invariant forall j | 0 <= j < i :: buffer[CHEAP_PREPEND + j] == bytes[j]
        invariant forall j | i <= j < readable :: bytes[j] == buffer[readerIndex + j]
      {
        buffer[CHEAP_PREPEND + i] := buffer[readerIndex + i];
        i := i + 1;
      }
    }

    method EnsureWritableBytes(len: nat)
      requires Valid()
      modifies this, buffer
      ensures Valid() && (buffer == old(buffer) || fresh(buffer))
      ensures Contents() == old(Contents())
      ensures Geometry() == old(Ensure(Geometry(), len))
    {
      if buffer.Length - writerIndex < len {
        MakeSpace(len);
      }
    }

    method Append(data: seq<byte>)
      requires Valid()
      modifies this, buffer
      ensures Valid() && (buffer == old(buffer) || fresh(buffer))
      ensures Contents() == old(Contents()) + data
      ensures Geometry() == old(AppendStep(Geometry(), |data|))
    {
      EnsureWritableBytes(|data|);
      Deliver(data);
    }

    /** Copies bytes behind the readable ones and takes them in. */
    method Deliver(data: seq<byte>)
      requires Valid() && |data| <= Geometry().Writable()
      modifies this, buffer
      ensures Valid() && buffer == old(buffer)
      ensures Contents() == old(Contents()) + data
      ensures Geometry() == old(Geometry()).(writer := old(writerIndex) + |data|)
    {
      CopyIn(data, writerIndex);
      assert buffer[readerIndex..writerIndex] == buffer[..writerIndex][readerIndex..];
      writerIndex := writerIndex + |data|;
    }

    /** Copies bytes into the array; nothing else in it changes. */
    method CopyIn(data: seq<byte>, at: nat)
      requires at + |data| <= buffer.Length
      modifies buffer
      ensures buffer[..at] == old(buffer[..at])
      ensures buffer[at..at + |data|] == data
      ensures buffer[at + |data|..] == old(buffer[at + |data|..])
    {
      var i := 0;
      while i < |data|
        invariant 0 <= i <= |data|
        invariant buffer[..at] == old(buffer[..at])
        invariant buffer[at..at + i] == data[..i]
        invariant buffer[at + i..] == old(buffer[at + i..])
      {
        buffer[at + i] := data[i];
        i := i + 1;
      }
    }

    method Unwrite(len: nat)
      requires Valid() && len <= |Contents()|
      modifies this
      ensures Valid() && buffer == old(buffer)
      ensures Contents() == old(Contents()[..|Contents()| - len])
      ensures Geometry() == old(Geometry()).(writer := old(writerIndex) - len)
    {
      writerIndex := writerIndex - len;
    }

    method Prepend(data: seq<byte>)
      requires Valid() && |data| <= readerIndex
      modifies this, buffer
      ensures Valid() && buffer == old(buffer)
      ensures Contents() == data + old(Contents())
      ensures Geometry() == old(Geometry()).(reader := old(readerIndex) - |data|)
    {
      readerIndex := readerIndex - |data|;
      var kept := readerIndex + |data|;
      CopyIn(data, readerIndex);
      assert buffer[kept..writerIndex] == buffer[kept..][..writerIndex - kept];
    }

    method Shrink(reserve: nat)
      requires Valid()
      modifies this
      ensures Valid() && fresh(buffer)
      ensures Contents() == old(Contents())
      ensures Geometry() == old(ShrinkStep(Geometry(), reserve))
    {
      var other := new Buffer(INITIAL_SIZE);
      other.EnsureWritableBytes(writerIndex - readerIndex + reserve);
      other.Append(Contents());
      Swap(other);
    }

    /** `received` is what the scatter read delivered: first into the writable part of
        the array, then into the extra buffer on the stack. */
    method ReadFd(received: seq<byte>)
      requires Valid() && Legal(Geometry(), Op.ReadFd(received))
      modifies this, buffer
      ensures Valid() && (buffer == old(buffer) || fresh(buffer))
      ensures Contents() == old(Contents()) + received
      ensures Geometry() == old(Step(Geometry(), Op.ReadFd(received)))
    {
      hide Legal, Step, AppendStep;
      ReadFdStep(Geometry(), received);
      var writable := buffer.Length - writerIndex;
      if |received| <= writable {
        Deliver(received);
      } else {
        ghost var before := Contents();
        Deliver(received[..writable]);
        Append(received[writable..]);
        SplitAt(before, received, writable);
      }
    }

    method AppendInt(x: int, width: nat)
      requires Valid() && width in {1, 2, 4, 8} && Fits(x, width)
      modifies this, buffer
      ensures Valid() && (buffer == old(buffer) || fresh(buffer))
      ensures Contents() == old(Contents()) + ToNetwork(x, width)
    {
      Append(ToNetwork(x, width));
    }

    method PrependInt(x: int, width: nat)
      requires Valid() && width in {1, 2, 4, 8} && Fits(x, width)
      requires width <= readerIndex
      modifies this, buffer
      ensures Valid() && buffer == old(buffer)
      ensures Contents() == ToNetwork(x, width) + old(Contents())
    {
      Prepend(ToNetwork(x, width));
    }

    method PeekInt(width: nat) returns (x: int)
      requires Valid() && width in {1, 2, 4, 8} && width <= |Contents()|
      ensures Fits(x, width) && ToNetwork(x, width) == Contents()[..width]
    {
      var s := buffer[readerIndex..readerIndex + width];
      assert s == Contents()[..width];
      x := FromNetwork(s);
      NetworkOrder(x, width, s);
    }

    method ReadInt(width: nat) returns (x: int)
      requires Valid() && width in {1, 2, 4, 8} && width <= |Contents()|
      modifies this
      ensures Valid() && buffer == old(buffer)
      ensures Fits(x, width) && ToNetwork(x, width) + Contents() == old(Contents())
    {
      x := PeekInt(width);
      Retrieve(width);
    }

    /** Any run of operations acts on the readable bytes as on a plain queue. */
    method Run(ops: seq<Op>)
      requires Valid() && LegalRun(Geometry(), ops)
      modifies this, buffer
      ensures Valid() && (buffer == old(buffer) || fresh(buffer))
      ensures Contents() == old(RunQueue(Contents(), ops))
      ensures Geometry() == old(RunWindow(Geometry(), ops))
    {
      var i := 0;
      while i < |ops|
        invariant 0 <= i <= |ops|
        invariant Valid() && (buffer == old(buffer) || fresh(buffer))
        invariant LegalRun(Geometry(), ops[i..])
        invariant RunQueue(Contents(), ops[i..]) == old(RunQueue(Contents(), ops))
        invariant RunWindow(Geometry(), ops[i..]) == old(RunWindow(Geometry(), ops))
      {
        assert ops[i..][1..] == ops[i + 1..];
        Perform(ops[i]);
        i := i + 1;
      }
    }

    method Perform(op: Op)
      requires Valid() && Legal(Geometry(), op)
      modifies this, buffer
      ensures Valid() && (buffer == old(buffer) || fresh(buffer))
      ensures Contents() == old(Queue(Contents(), op))
      ensures Geometry() == old(Step(Geometry(), op))
    {
      match op {
        case Append(data) => Append(data);
        case Retrieve(len) => Retrieve(len);
        case Prepend(data) => Prepend(data);
        case Unwrite(len) => Unwrite(len);
        case ReadFd(data) => ReadFd(data);
        case Shrink(reserve) => Shrink(reserve);
      }
    }
  }

  /** Two buffers that do not share an array. */
  ghost predicate Apart(a: Buffer, b: Buffer)
    reads a, b
  {
    a.Valid() && b.Valid() && a != b && a.buffer != b.buffer
  }

  function Queues(a: Buffer, b: Buffer): Two<seq<byte>>
    reads a, b, a.buffer, b.buffer
    requires a.Valid() && b.Valid()
  {
    Two(a.Contents(), b.Contents())
  }

  function Windows(a: Buffer, b: Buffer): Two<Window>
    reads a, b
  {
    Two(a.Geometry(), b.Geometry())
  }

  /** Any run of operations on two buffers, swaps included, acts on their readable bytes
      as on two plain queues, and the buffers never come to share an array. */
  method RunPair(a: Buffer, b: Buffer, ps: seq<PairOp>)
    requires Apart(a, b) && LegalPairRun(Windows(a, b), ps)
    modifies a, b, a.buffer, b.buffer
    ensures Apart(a, b) && fresh({a.buffer, b.buffer} - {old(a.buffer), old(b.buffer)})
    ensures Queues(a, b) == old(RunQueues(Queues(a, b), ps))
    ensures Windows(a, b) == old(RunWindows(Windows(a, b), ps))
  {
    hide StepOn, QueueOn, LegalOn;
    var i := 0;
    while i < |ps|
      invariant 0 <= i <= |ps|
      invariant Apart(a, b) && fresh({a.buffer, b.buffer} - {old(a.buffer), old(b.buffer)})
      invariant LegalPairRun(Windows(a, b), ps[i..])
      invariant RunQueues(Queues(a, b), ps[i..]) == old(RunQueues(Queues(a, b), ps))
      invariant RunWindows(Windows(a, b), ps[i..]) == old(RunWindows(Windows(a, b), ps))
    {
      assert ps[i..][1..] == ps[i + 1..];
      PerformOn(a, b, ps[i]);
      i := i + 1;
    }
  }

  method PerformOn(a: Buffer, b: Buffer, p: PairOp)
    requires Apart(a, b) && LegalOn(Windows(a, b), p)
    modifies a, b, a.buffer, b.buffer
    ensures Apart(a, b) && fresh({a.buffer, b.buffer} - {old(a.buffer), old(b.buffer)})
    ensures Queues(a, b) == old(QueueOn(Queues(a, b), p))
    ensures Windows(a, b) == old(StepOn(Windows(a, b), p))
  {
    hide Queue, Step, Legal;
    match p {
      case First(op) => a.Perform(op);
      case Second(op) => b.Perform(op);
      case Swap => a.Swap(b);
    }
  }

  /** Two different integers never read the same: reading undoes appending and
      prepending, whatever follows. */
  lemma ReadUndoesAppend(x: int, y: int, width: nat, before: seq<byte>, after: seq<byte>)
    requires Fits(x, width) && Fits(y, width)
    requires ToNetwork(y, width) + after == ToNetwork(x, width) + before
    ensures y == x && after == before
  {
    NetworkOrder(x, width, []);
    NetworkOrder(y, width, []);
    assert (ToNetwork(y, width) + after)[..width] == ToNetwork(y, width);
    assert (ToNetwork(x, width) + before)[..width] == ToNetwork(x, width);
    assert (ToNetwork(y, width) + after)[width..] == after;
    assert (ToNetwork(x, width) + before)[width..] == before;
  }
}
