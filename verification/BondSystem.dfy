/** One direction of a bonded connection end to end: sender, lanes, one reader
    per lane, the bounded receive queue and the receiver, interleaved freely.
    A lane may lose its reader, and either end may be cancelled, at any time. */
module BondSystem {
  import opened Bytes
  import opened BondCodec
  import opened BondReceiver
  import opened BondSender
  import Runs

  const QUEUE_CAP := 1024

  /** The reader of a lane has taken `read` bytes and passed on `delivered`. */
  datatype Reader = Reader(read: nat, delivered: seq<Frame>, up: bool)

  datatype System = System(
    snd: Sender,
    readers: seq<Reader>,
    queue: seq<Frame>,
    consumed: seq<Frame>,
    rcv: Receiver)

  datatype Op =
    | Send(op: SenderOp)
    | Deliver(lane: nat)
    | ReaderExit(lane: nat)
    | Take
    | TakeWriteFails(w: seq<byte>)
    | CancelReceiver

  predicate Step(s: System, op: Op, s': System) {
    match op
    case Send(sop) =>
      && SenderStep(s.snd, sop, s'.snd)
      && s' == s.(snd := s'.snd, readers := if sop.Attach? then s.readers + [Reader(0, [], true)] else s.readers)
    case Deliver(l) =>
      && l < |s.readers| && l < |s.snd.wires| && s.readers[l].up && |s.queue| < QUEUE_CAP
      && s.readers[l].read <= |s.snd.wires[l].bytes|
      && var r := ReadFrame(s.snd.wires[l].bytes[s.readers[l].read..]);
         && r.Got?
         && var reader := Reader(|s.snd.wires[l].bytes| - |r.rest|, s.readers[l].delivered + [r.frame], true);
            s' == s.(readers := s.readers[l := reader], queue := s.queue + [r.frame])
    case ReaderExit(l) =>
      && l < |s.readers|
      && s' == s.(readers := s.readers[l := s.readers[l].(up := false)])
    case Take =>
      && s.rcv.status == Running && s.queue != []
      && s' == s.(queue := s.queue[1..], consumed := s.consumed + [s.queue[0]], rcv := Consume(s.rcv, s.queue[0]))
    case TakeWriteFails(w) =>
      && s.rcv.status == Running && s.queue != []
      && s.rcv.out <= w <= Consume(s.rcv, s.queue[0]).out
      && s' == s.(queue := s.queue[1..], consumed := s.consumed + [s.queue[0]],
                  rcv := s.rcv.(status := Stopped, out := w))
    case CancelReceiver =>
      && s.rcv.status == Running
      && s' == s.(rcv := s.rcv.(status := Stopped))
  }

  ghost predicate Next(s: System, s': System) {
    s == s' || exists op :: Step(s, op, s')
  }

  predicate Init(s: System) {
    && SenderInit(s.snd) && |s.readers| == |s.snd.wires|
    && (forall l :: 0 <= l < |s.readers| ==> s.readers[l] == Reader(0, [], true))
    && s.queue == [] && s.consumed == [] && s.rcv == START
  }

  ghost predicate Run(trace: seq<System>) {
    Runs.Steps(Next, trace) && Init(trace[0])
  }

  /** The bytes read from the sending endpoint so far. */
  function Input(s: System): seq<byte> {
    Flatten(s.snd.chunks)
  }

  // ------------------------------------------------------------- invariants

  /** A reader has passed on a prefix of the whole frames on its lane. */
  ghost predicate ReaderOk(r: Reader, w: Wire) {
    && r.delivered <= Parse(w.bytes).frames
    && r.read == |EncodeAll(r.delivered)| <= |w.bytes|
  }

  ghost predicate InQueueOrConsumed(f: Frame, s: System) {
    f in s.queue || f in s.consumed
  }

  ghost predicate Inv(s: System) {
    && SenderInv(s.snd)
    && |s.readers| == |s.snd.wires|
    && (forall l :: 0 <= l < |s.readers| ==> ReaderOk(s.readers[l], s.snd.wires[l]))
    && (forall l, f :: 0 <= l < |s.readers| && f in s.readers[l].delivered ==> InQueueOrConsumed(f, s))
    && AllGenuine(s.queue, s.snd.chunks, s.snd.ended)
    && AllGenuine(s.consumed, s.snd.chunks, s.snd.ended)
    && (s.rcv.status != Stopped ==> s.rcv == Receive(s.consumed))
    && s.rcv.out <= Input(s)
  }

  lemma InitInv(s: System)
    requires Init(s)
    ensures Inv(s)
  {
    ParseEmpty();
  }

  /** The next whole frame a reader decodes is the next frame written: never
      a bogus one, whatever failed write cut off the end of the lane. */
  lemma ReaderDecodesNext(r: Reader, w: Wire)
    requires ReaderOk(r, w)
    ensures
      var p := Parse(w.bytes);
      var d := |r.delivered|;
      var head := ReadFrame(w.bytes[r.read..]);
      if d < |p.frames| then
        && head.Got? && head.frame == p.frames[d]
        && |w.bytes| - |head.rest| == |EncodeAll(r.delivered + [head.frame])| <= |w.bytes|
        && r.delivered + [head.frame] <= p.frames
      else !head.Got?
  {
    hide Parse, EncodeAll, ReadFrame, Encode;
    var p := Parse(w.bytes);
    var after := p.frames[|r.delivered|..];
    ParseCanonical(w.bytes);
    UnreadBytes(r, w);
    if after != [] {
      HeadOfStream(after, p.rest);
      EncodeAllSnoc(r.delivered, after[0]);
    } else {
      EncodeNone(p.rest);
    }
  }

  lemma EncodeNone(rest: seq<byte>)
    ensures EncodeAll([]) + rest == rest
  {
  }

  lemma UnreadBytes(r: Reader, w: Wire)
    requires ReaderOk(r, w)
    ensures w.bytes[r.read..] == EncodeAll(Parse(w.bytes).frames[|r.delivered|..]) + Parse(w.bytes).rest
  {
    var p := Parse(w.bytes);
    var after := p.frames[|r.delivered|..];
    ParseCanonical(w.bytes);
    assert p.frames == r.delivered + after;
    EncodeAllAppend(r.delivered, after);
    ConcatAssoc(EncodeAll(r.delivered), EncodeAll(after), p.rest);
  }

  lemma GenuineMonotone(fs: seq<Frame>, s: Sender, s': Sender)
    requires Grows(s, s') && AllGenuine(fs, s.chunks, s.ended)
    ensures AllGenuine(fs, s'.chunks, s'.ended)
  {
    forall f | f in fs
      ensures Genuine(f, s'.chunks, s'.ended)
    {
      assert Genuine(f, s.chunks, s.ended);
    }
  }

  lemma InputMonotone(s: System, s': System)
    requires Grows(s.snd, s'.snd)
    ensures Input(s) <= Input(s')
  {
    FlattenPrefix(s'.snd.chunks, |s.snd.chunks|);
    assert s'.snd.chunks[..|s.snd.chunks|] == s.snd.chunks;
  }

  lemma SendKeepsReaders(s: System, op: Op, s': System)
    requires Inv(s) && Step(s, op, s') && op.Send? && Grows(s.snd, s'.snd)
    ensures |s'.readers| == |s'.snd.wires|
    ensures forall l :: 0 <= l < |s'.readers| ==> ReaderOk(s'.readers[l], s'.snd.wires[l])
  {
    hide SenderInv, AllGenuine, Flatten;
    forall l | 0 <= l < |s.readers|
      ensures ReaderOk(s'.readers[l], s'.snd.wires[l])
    {
      ReaderAfterGrowth(s.readers[l], s.snd, s'.snd, l);
    }
    if op.op.Attach? {
      FreshReaderOk();
    }
  }

  lemma ReaderAfterGrowth(r: Reader, s: Sender, s': Sender, l: nat)
    requires Grows(s, s') && l < |s.wires| && ReaderOk(r, s.wires[l])
    ensures ReaderOk(r, s'.wires[l])
  {
    hide Parse, EncodeAll;
  }

  lemma FreshReaderOk()
    ensures ReaderOk(Reader(0, [], true), NEW_WIRE)
  {
    ParseEmpty();
  }

  lemma SendKeepsInv(s: System, op: Op, s': System)
    requires Inv(s) && Step(s, op, s') && op.Send?
    ensures Inv(s')
  {
    SenderStepKeepsInv(s.snd, op.op, s'.snd);
    SendKeepsReaders(s, op, s');
    InputMonotone(s, s');
    GenuineMonotone(s.queue, s.snd, s'.snd);
    GenuineMonotone(s.consumed, s.snd, s'.snd);
    forall l, f | 0 <= l < |s'.readers| && f in s'.readers[l].delivered
      ensures InQueueOrConsumed(f, s')
    {
      assert InQueueOrConsumed(f, s);
    }
  }

  lemma DeliverKeepsInv(s: System, op: Op, s': System)
    requires Inv(s) && Step(s, op, s') && op.Deliver?
    ensures Inv(s')
  {
    hide Parse, EncodeAll, ReadFrame, Flatten, Receive;
    var l := op.lane;
    var w := s.snd.wires[l];
    var f := s'.queue[|s.queue|];
    ReaderDecodesNext(s.readers[l], w);
    assert WireOk(w, s.snd.chunks, s.snd.ended);
    assert f in Parse(w.bytes).frames;
    forall k, g | 0 <= k < |s'.readers| && g in s'.readers[k].delivered
      ensures InQueueOrConsumed(g, s')
    {
      if g in s.readers[k].delivered {
        assert InQueueOrConsumed(g, s);
      }
    }
  }

  lemma TakeKeepsInv(s: System, op: Op, s': System)
    requires Inv(s) && Step(s, op, s') && (op.Take? || op.TakeWriteFails?)
    ensures Inv(s')
  {
    var f := s.queue[0];
    assert s.queue == [f] + s.queue[1..];
    ReceiveSnoc(s.consumed, f);
    GenuineInvariant(s.consumed + [f], s.snd.chunks, s.snd.ended);
    FlattenPrefix(s.snd.chunks, Receive(s.consumed + [f]).expected);
    forall l, g | 0 <= l < |s'.readers| && g in s'.readers[l].delivered
      ensures InQueueOrConsumed(g, s')
    {
      assert InQueueOrConsumed(g, s);
    }
  }

  lemma StepKeepsInv(s: System, op: Op, s': System)
    requires Inv(s) && Step(s, op, s')
    ensures Inv(s')
  {
    match op {
      case Send(_) => SendKeepsInv(s, op, s');
      case Deliver(_) => DeliverKeepsInv(s, op, s');
      case Take => TakeKeepsInv(s, op, s');
      case TakeWriteFails(_) => TakeKeepsInv(s, op, s');
      case _ =>
        forall l, f | 0 <= l < |s'.readers| && f in s'.readers[l].delivered
          ensures InQueueOrConsumed(f, s')
        {
          assert f in s.readers[l].delivered;
          assert InQueueOrConsumed(f, s);
        }
    }
  }

  lemma NextKeepsInv()
    ensures Runs.Kept(Next, Inv)
  {
    hide Step, Inv;
    forall s: System, s': System | Inv(s) && Next(s, s')
      ensures Inv(s')
    {
      if s != s' {
        var op :| Step(s, op, s');
        StepKeepsInv(s, op, s');
      }
    }
  }

  lemma RunKeepsInv(trace: seq<System>, i: nat)
    requires Run(trace) && i < |trace|
    ensures Inv(trace[i])
  {
    InitInv(trace[0]);
    hide Step, Inv, Init;
    NextKeepsInv();
    Runs.KeptAlong(Next, Inv, trace, 0, i);
  }

  // ----------------------------------------------------------- main results

  /** Safety: at every point of every run, the bytes written to the receiving
      endpoint are a prefix of the bytes read from the sending endpoint, and so
      of all that it would ever deliver. */
  lemma OutputIsPrefixOfInput(trace: seq<System>, i: nat)
    requires Run(trace) && i < |trace|
    ensures trace[i].rcv.out <= Input(trace[i]) <= trace[i].snd.input
  {
    RunKeepsInv(trace, i);
  }

  /** The receiver half-closes only once the sender's input has ended, every
      chunk was placed, and all of it has been written out. */
  lemma HalfCloseMeansComplete(trace: seq<System>, i: nat)
    requires Run(trace) && i < |trace| && trace[i].rcv.status == HalfClosed
    ensures trace[i].snd.ended && trace[i].snd.placed == |trace[i].snd.chunks|
    ensures trace[i].rcv.out == Input(trace[i])
  {
    var s := trace[i];
    RunKeepsInv(trace, i);
    GenuineInvariant(s.consumed, s.snd.chunks, s.snd.ended);
    assert s.snd.chunks[..|s.snd.chunks|] == s.snd.chunks;
    var f :| f in s.consumed && f.typ == FRAME_FIN;
    assert Genuine(f, s.snd.chunks, s.snd.ended);
  }

  /** The read loop ended here, by this step. */
  ghost predicate ReadsEnd(trace: seq<System>, k: nat, op: SenderOp) {
    k + 1 < |trace| && SenderStep(trace[k].snd, op, trace[k + 1].snd)
  }

  lemma EndStep(s: System, s': System)
    requires Next(s, s')
    ensures s.snd.ended ==> s'.snd.ended
    ensures s'.snd.ended ==> s.snd.ended || SenderStep(s.snd, ReadEof, s'.snd) || SenderStep(s.snd, ReadError, s'.snd)
    ensures s'.snd.atEof <==> s.snd.atEof || SenderStep(s.snd, ReadEof, s'.snd)
  {
    hide Encode, ReadFrame, Consume, Flatten;
  }

  /** The sender's read loop has ended, and at end of file, exactly as recorded. */
  lemma {:induction false} EndedExactly(trace: seq<System>, i: nat)
    requires Run(trace) && i < |trace|
    ensures trace[i].snd.atEof <==> exists k: nat :: k < i && ReadsEnd(trace, k, ReadEof)
    ensures trace[i].snd.ended ==> trace[i].snd.atEof || exists k: nat :: k < i && ReadsEnd(trace, k, ReadError)
  {
    hide SenderStep, Next, SenderInv;
    if i > 0 {
      EndedExactly(trace, i - 1);
      assert Runs.StepAt(Next, trace, i - 1);
      EndStep(trace[i - 1], trace[i]);
      if trace[i].snd.atEof && !trace[i - 1].snd.atEof {
        assert ReadsEnd(trace, i - 1, ReadEof);
      }
      if trace[i].snd.ended && !trace[i].snd.atEof && !trace[i - 1].snd.ended {
        assert ReadsEnd(trace, i - 1, ReadError);
      }
    }
  }

  /** A half-close follows an end of file exactly when the sender's read loop
      ended by one, and it may follow a read error instead; the endpoint has the
      whole stream exactly when the sender had read all of it, which an end of
      file makes sure of. */
  lemma HalfCloseIsWholeStreamIff(trace: seq<System>, i: nat)
    requires Run(trace) && i < |trace| && trace[i].rcv.status == HalfClosed
    ensures trace[i].rcv.out == trace[i].snd.input <==> Input(trace[i]) == trace[i].snd.input
    ensures trace[i].snd.atEof <==> exists k: nat :: k < i && ReadsEnd(trace, k, ReadEof)
    ensures trace[i].snd.atEof ==> trace[i].rcv.out == trace[i].snd.input
    ensures !trace[i].snd.atEof ==> exists k: nat :: k < i && ReadsEnd(trace, k, ReadError)
  {
    HalfCloseMeansComplete(trace, i);
    EndedExactly(trace, i);
    RunKeepsInv(trace, i);
  }

  /** A reader that has read nothing passes on the only frame of its lane. */
  lemma DeliverOnly(s: System, f: Frame)
    requires Fits(f) && s.queue == [] && s.readers == [Reader(0, [], true)]
    requires s.snd.wires == [Wire(Encode(f), false, [f])]
    ensures Step(s, Deliver(0), s.(readers := [Reader(|Encode(f)|, [f], true)], queue := [f]))
  {
    hide Encode, ReadFrame;
    FrameRoundTrip(f, []);
    assert Encode(f) + [] == Encode(f) == Encode(f)[0..];
    assert [] + [f] == [f];
    var reader := Reader(|Encode(f)|, [f], true);
    assert s.readers[0 := reader] == [reader];
  }

  /** The error case: the sender's first read fails, its FIN counts no chunk,
      and the receiver half-closes without any of the stream. */
  lemma ReadErrorTruncates(input: seq<byte>) returns (trace: seq<System>)
    requires input != []
    ensures Run(trace) && trace[0].snd.input == input
    ensures trace[|trace| - 1].rcv.status == HalfClosed && trace[|trace| - 1].rcv.out != input
  {
    var fin := Frame(FRAME_FIN, 0, []);
    var a := System(Sender(input, [], 0, Reading, false, false, [NEW_WIRE]), [Reader(0, [], true)], [], [], START);
    var b := a.(snd := a.snd.(phase := Finning, ended := true));
    var c := b.(snd := b.snd.(wires := [Wire(Encode(fin), false, [fin])]));
    var d := c.(readers := [Reader(|Encode(fin)|, [fin], true)], queue := [fin]);
    var e := d.(queue := [], consumed := [fin], rcv := Consume(START, fin));
    FinSent(a.snd, b.snd, c.snd);
    hide SenderStep, Encode, ReadFrame, Consume;
    ErrorSteps(a, b, c, d, e, fin);
    FinFirst(fin);
    trace := [a, b, c, d, e];
  }

  lemma ErrorSteps(a: System, b: System, c: System, d: System, e: System, fin: Frame)
    requires Init(a) && a.readers == [Reader(0, [], true)] && Fits(fin)
    requires b == a.(snd := b.snd) && SenderStep(a.snd, ReadError, b.snd)
    requires c == b.(snd := c.snd) && SenderStep(b.snd, SenderOp.WriteOk(0), c.snd)
    requires c.snd.wires == [Wire(Encode(fin), false, [fin])]
    requires d == c.(readers := [Reader(|Encode(fin)|, [fin], true)], queue := [fin])
    requires e == d.(queue := [], consumed := [fin], rcv := Consume(START, fin))
    ensures Run([a, b, c, d, e])
  {
    hide SenderStep, SenderInit, Encode, ReadFrame, Consume;
    assert Step(a, Send(ReadError), b) && Step(b, Send(SenderOp.WriteOk(0)), c);
    DeliverOnly(c, fin);
    assert [] + [fin] == [fin];
    assert Step(d, Take, e);
    FiveStates(a, b, c, d, e);
  }

  lemma FinSent(a: Sender, b: Sender, c: Sender)
    requires a.phase == Reading && a.chunks == [] && a.wires == [NEW_WIRE]
    requires b == a.(phase := Finning, ended := true)
    requires
      var fin := Frame(FRAME_FIN, 0, []);
      c == b.(wires := [Wire(Encode(fin), false, [fin])])
    ensures SenderStep(a, ReadError, b) && SenderStep(b, SenderOp.WriteOk(0), c)
  {
    hide Encode;
    var fin := Frame(FRAME_FIN, 0, []);
    assert Put(NEW_WIRE, fin) == Wire(Encode(fin), false, [fin]);
    assert b.wires[0 := Put(NEW_WIRE, fin)] == c.wires;
  }

  lemma FiveStates(a: System, b: System, c: System, d: System, e: System)
    requires Init(a) && Next(a, b) && Next(b, c) && Next(c, d) && Next(d, e)
    ensures Run([a, b, c, d, e])
  {
    hide Init, Next;
    var trace := [a, b, c, d, e];
    assert Runs.StepAt(Next, trace, 0) && Runs.StepAt(Next, trace, 1);
    assert Runs.StepAt(Next, trace, 2) && Runs.StepAt(Next, trace, 3);
  }

  lemma FinFirst(fin: Frame)
    requires fin.typ == FRAME_FIN && fin.seqNo == 0
    ensures Consume(START, fin).status == HalfClosed && Consume(START, fin).out == []
  {
  }

  /** A sender that gave up on a chunk never causes a half-close, then or later. */
  lemma UnplacedChunkNeverHalfCloses(trace: seq<System>, i: nat, j: nat)
    requires Run(trace) && i <= j < |trace|
    requires trace[i].snd.phase == Halted && trace[i].snd.placed < |trace[i].snd.chunks|
    ensures trace[j].rcv.status != HalfClosed
  {
    HaltedForGood(trace, i, j);
    if trace[j].rcv.status == HalfClosed {
      HalfCloseMeansComplete(trace, j);
    }
  }

  lemma {:induction false} HaltedForGood(trace: seq<System>, i: nat, j: nat)
    requires Run(trace) && i <= j < |trace| && trace[i].snd.phase == Halted
    ensures trace[j].snd.phase == Halted
    ensures trace[j].snd.chunks == trace[i].snd.chunks && trace[j].snd.placed == trace[i].snd.placed
    decreases j
  {
    if i < j {
      HaltedForGood(trace, i, j - 1);
      assert Runs.StepAt(Next, trace, j - 1);
    }
  }

  /** Once half-closed, the output never changes and stays the whole input. */
  lemma {:induction false} HalfCloseIsFinal(trace: seq<System>, i: nat, j: nat)
    requires Run(trace) && i <= j < |trace| && trace[i].rcv.status == HalfClosed
    ensures trace[j].rcv == trace[i].rcv && trace[j].rcv.out == Input(trace[j])
    decreases j
  {
    if i == j {
      HalfCloseMeansComplete(trace, i);
    } else {
      HalfCloseIsFinal(trace, i, j - 1);
      assert Runs.StepAt(Next, trace, j - 1);
      HalfCloseMeansComplete(trace, j);
    }
  }

  /** While the receiver runs, its cursor is the least sequence number it has
      not received and its output is the chunks below the cursor. */
  lemma CursorExactInRun(trace: seq<System>, i: nat)
    requires Run(trace) && i < |trace| && trace[i].rcv.status == Running
    ensures IsLeastMissing(trace[i].rcv.expected, trace[i].consumed)
    ensures trace[i].rcv.expected <= |trace[i].snd.chunks|
    ensures trace[i].rcv.out == Flatten(trace[i].snd.chunks[..trace[i].rcv.expected])
  {
    RunKeepsInv(trace, i);
    GenuineInvariant(trace[i].consumed, trace[i].snd.chunks, trace[i].snd.ended);
  }

  /** Every frame whose write succeeded was read, queued and consumed. */
  ghost predicate Quiescent(s: System) {
    && s.queue == []
    && |s.readers| == |s.snd.wires|
    && forall l :: 0 <= l < |s.readers| ==> |s.snd.wires[l].accepted| <= |s.readers[l].delivered|
  }

  ghost predicate FinAccepted(s: System) {
    exists l, f :: 0 <= l < |s.snd.wires| && f in s.snd.wires[l].accepted && f.typ == FRAME_FIN
  }

  /** Completeness: without cancellation, once some lane accepted the FIN and
      everything accepted was consumed, the output is the whole input and the
      half-close has happened, however many writes failed on the way. */
  lemma CompleteAtQuiescence(trace: seq<System>, i: nat)
    requires Run(trace) && i < |trace|
    requires trace[i].rcv.status != Stopped && FinAccepted(trace[i]) && Quiescent(trace[i])
    ensures trace[i].rcv.status == HalfClosed
    ensures trace[i].rcv.out == Input(trace[i])
  {
    hide Parse, Receive, Run, Flatten;
    var s := trace[i];
    RunKeepsInv(trace, i);
    GenuineInvariant(s.consumed, s.snd.chunks, s.snd.ended);
    var l, f :| 0 <= l < |s.snd.wires| && f in s.snd.wires[l].accepted && f.typ == FRAME_FIN;
    AcceptedConsumed(s, l, f);
    assert WireOk(s.snd.wires[l], s.snd.chunks, s.snd.ended);
    assert Genuine(f, s.snd.chunks, s.snd.ended);
    forall n | 0 <= n < |s.snd.chunks|
      ensures n in DataSeqs(s.consumed)
    {
      assert Placed(s.snd, n);
      var k :| 0 <= k < |s.snd.wires| && Frame(FRAME_DATA, n, s.snd.chunks[n]) in s.snd.wires[k].accepted;
      AcceptedConsumed(s, k, Frame(FRAME_DATA, n, s.snd.chunks[n]));
    }
    assert s.snd.chunks[..|s.snd.chunks|] == s.snd.chunks;
  }

  lemma AcceptedConsumed(s: System, l: nat, f: Frame)
    requires Inv(s) && Quiescent(s) && l < |s.snd.wires| && f in s.snd.wires[l].accepted
    ensures f in s.consumed
  {
    var w := s.snd.wires[l];
    assert WireOk(w, s.snd.chunks, s.snd.ended);
    assert ReaderOk(s.readers[l], w);
    var k :| 0 <= k < |w.accepted| && w.accepted[k] == f;
    assert s.readers[l].delivered[k] == Parse(w.bytes).frames[k] == f;
    assert InQueueOrConsumed(f, s);
  }

  /** Lane failover: a lane carries whole genuine frames and at most one
      cut-off tail after a failed write; its reader has decoded a prefix of
      the whole frames, and at the end of them it decodes nothing more. */
  lemma LaneCarriesWholeFrames(trace: seq<System>, i: nat, l: nat)
    requires Run(trace) && i < |trace| && l < |trace[i].snd.wires|
    ensures
      var s := trace[i];
      var w := s.snd.wires[l];
      var p := Parse(w.bytes);
      && w.bytes == EncodeAll(p.frames) + p.rest
      && AllGenuine(p.frames, s.snd.chunks, s.snd.ended)
      && (p.rest == [] || (w.failed && IsCutOf(p.rest, s.snd.chunks, s.snd.ended)))
      && l < |s.readers| && s.readers[l].delivered <= p.frames && s.readers[l].read <= |w.bytes|
      && (s.readers[l].delivered == p.frames ==> !ReadFrame(w.bytes[s.readers[l].read..]).Got?)
  {
    var s := trace[i];
    RunKeepsInv(trace, i);
    ParseCanonical(s.snd.wires[l].bytes);
    assert WireOk(s.snd.wires[l], s.snd.chunks, s.snd.ended);
    ReaderDecodesNext(s.readers[l], s.snd.wires[l]);
  }

  /** After a failed write no byte is ever added to the lane. */
  lemma {:induction false} FailedLaneFrozen(trace: seq<System>, i: nat, j: nat, l: nat)
    requires Run(trace) && i <= j < |trace| && l < |trace[i].snd.wires| && trace[i].snd.wires[l].failed
    ensures l < |trace[j].snd.wires| && trace[j].snd.wires[l] == trace[i].snd.wires[l]
    decreases j
  {
    if i < j {
      FailedLaneFrozen(trace, i, j - 1, l);
      assert Runs.StepAt(Next, trace, j - 1);
      FailedLaneStep(trace[j - 1], trace[j], l);
    }
  }

  lemma FailedLaneStep(s: System, s': System, l: nat)
    requires Next(s, s') && l < |s.snd.wires| && s.snd.wires[l].failed
    ensures l < |s'.snd.wires| && s'.snd.wires[l] == s.snd.wires[l]
  {
  }

  // --------------------------------------------------------- both directions

  /** A bonded connection is two such systems; a joint move may advance both,
      for instance when a lane dies or the connection is cancelled. */
  datatype Duplex = Duplex(up: System, down: System)

  ghost predicate DuplexRun(trace: seq<Duplex>) {
    && trace != []
    && Init(trace[0].up) && Init(trace[0].down)
    && forall i :: 0 <= i < |trace| - 1 ==>
         Next(trace[i].up, trace[i + 1].up) && Next(trace[i].down, trace[i + 1].down)
  }

  lemma DuplexSafety(trace: seq<Duplex>, i: nat)
    requires DuplexRun(trace) && i < |trace|
    ensures trace[i].up.rcv.out <= Input(trace[i].up)
    ensures trace[i].down.rcv.out <= Input(trace[i].down)
    ensures trace[i].up.rcv.status == HalfClosed ==> trace[i].up.rcv.out == Input(trace[i].up)
    ensures trace[i].down.rcv.status == HalfClosed ==> trace[i].down.rcv.out == Input(trace[i].down)
  {
    var ups := seq(|trace|, j requires 0 <= j < |trace| => trace[j].up);
    var downs := seq(|trace|, j requires 0 <= j < |trace| => trace[j].down);
    OutputIsPrefixOfInput(ups, i);
    OutputIsPrefixOfInput(downs, i);
    if trace[i].up.rcv.status == HalfClosed {
      HalfCloseMeansComplete(ups, i);
    }
    if trace[i].down.rcv.status == HalfClosed {
      HalfCloseMeansComplete(downs, i);
    }
  }
}
