/** The imperative loops of both ends, by their contracts, inside the system:
    what the sending loop puts on the lanes, the lane readers pass on and the
    receiving loop writes out is one run, so all results about runs hold of it. */
module BondLoops {
  import opened Bytes
  import opened BondCodec
  import opened BondReceiver
  import opened BondSender
  import opened BondSystem
  import Runs

  /** Readers, queue and receiver have not begun. */
  predicate Untouched(s: System) {
    && |s.readers| == |s.snd.wires| && s.queue == [] && s.consumed == [] && s.rcv == START
    && forall l :: 0 <= l < |s.readers| ==> s.readers[l] == Reader(0, [], true)
  }

  /** A run from a sender's start to a sender's state. */
  ghost predicate Leads(trace: seq<System>, s0: Sender, s: Sender) {
    Run(trace) && trace[0].snd == s0 && trace[|trace| - 1].snd == s
  }

  // ------------------------------------------------------- the sending loops

  /** One more step of the sender is one more step of the system. */
  lemma ExtendBySender(trace: seq<System>, op: SenderOp, snd: Sender) returns (more: seq<System>)
    requires Run(trace) && Untouched(trace[|trace| - 1]) && SenderStep(trace[|trace| - 1].snd, op, snd)
    ensures Run(more) && more[0] == trace[0] && more[|more| - 1].snd == snd && Untouched(more[|more| - 1])
  {
    hide Init;
    var s := trace[|trace| - 1];
    var s' := s.(snd := snd, readers := if op.Attach? then s.readers + [Reader(0, [], true)] else s.readers);
    assert Step(s, Send(op), s');
    more := trace + [s'];
    Runs.Extend(Next, trace, s');
  }

  lemma {:induction false} EmbedTrace(t: seq<Sender>, s0: Sender, s: Sender, i: nat) returns (trace: seq<System>)
    requires SenderInit(s0) && Runs.Path(SenderNext, t, s0, s) && i < |t|
    ensures Leads(trace, s0, t[i]) && Untouched(trace[|trace| - 1])
  {
    hide SenderStep;
    if i == 0 {
      var readers := seq(|s0.wires|, l => Reader(0, [], true));
      trace := [System(s0, readers, [], [], START)];
    } else {
      trace := EmbedTrace(t, s0, s, i - 1);
      assert Runs.StepAt(SenderNext, t, i - 1);
      var op :| SenderStep(t[i - 1], op, t[i]);
      trace := ExtendBySender(trace, op, t[i]);
    }
  }

  /** Every state that a sending loop brings its lanes to is the sender of a
      state that the whole system reaches, with readers and receiver still to
      begin. */
  lemma SenderRunsEmbed(s0: Sender, s: Sender) returns (trace: seq<System>)
    requires SenderInit(s0) && Reaches(s0, s)
    ensures Leads(trace, s0, s) && Untouched(trace[|trace| - 1])
  {
    var t :| Runs.Path(SenderNext, t, s0, s);
    trace := EmbedTrace(t, s0, s, |t| - 1);
  }

  // ------------------------------------------------ lane readers and receiver

  /** Of the frames that arrived, those that came from lane l. */
  ghost function FromLane(arrivals: seq<Frame>, from: seq<nat>, l: nat): seq<Frame>
    requires |arrivals| == |from|
  {
    if arrivals == [] then []
    else
      var n := |arrivals| - 1;
      FromLane(arrivals[..n], from[..n], l) + if from[n] == l then [arrivals[n]] else []
  }

  lemma {:induction false} FromLaneGrows(arrivals: seq<Frame>, from: seq<nat>, l: nat, k: nat)
    requires |arrivals| == |from| && k <= |arrivals|
    ensures FromLane(arrivals[..k], from[..k], l) <= FromLane(arrivals, from, l)
  {
    if k == |arrivals| {
      assert arrivals[..k] == arrivals && from[..k] == from;
    } else {
      var n := |arrivals| - 1;
      FromLaneGrows(arrivals[..n], from[..n], l, k);
      assert arrivals[..n][..k] == arrivals[..k] && from[..n][..k] == from[..k];
    }
  }

  lemma FromLaneNext(arrivals: seq<Frame>, from: seq<nat>, l: nat, k: nat)
    requires |arrivals| == |from| && k < |arrivals|
    ensures FromLane(arrivals[..k + 1], from[..k + 1], l)
         == FromLane(arrivals[..k], from[..k], l) + if from[k] == l then [arrivals[k]] else []
  {
    assert arrivals[..k + 1][..k] == arrivals[..k] && from[..k + 1][..k] == from[..k];
  }

  /** The receive queue interleaves what the readers of the lanes passed on,
      each a prefix of the whole frames in the bytes that its lane delivered. */
  ghost predicate Interleaves(arrivals: seq<Frame>, from: seq<nat>, streams: seq<seq<byte>>) {
    && |arrivals| == |from|
    && (forall k :: 0 <= k < |from| ==> from[k] < |streams|)
    && forall l: nat :: l < |streams| ==> FromLane(arrivals, from, l) <= Parse(streams[l]).frames
  }

  /** A lane may lose the end of what was written to it. */
  predicate Carry(streams: seq<seq<byte>>, wires: seq<Wire>) {
    |streams| == |wires| && forall l :: 0 <= l < |wires| ==> streams[l] <= wires[l].bytes
  }

  /** Cutting a stream short cuts its frames short. */
  lemma ParsePrefix(a: seq<byte>, b: seq<byte>)
    requires a <= b
    ensures Parse(a).frames <= Parse(b).frames
  {
    var p := Parse(a);
    ParseCanonical(a);
    var tail := p.rest + b[|a|..];
    assert b == a + b[|a|..];
    ConcatAssoc(EncodeAll(p.frames), p.rest, b[|a|..]);
    ParseEncodeMore(p.frames, tail);
  }

  /** The system after the receiving loop has taken `fs`, and nothing more has
      been passed on. */
  ghost predicate Taken(s: System, fs: seq<Frame>, from: seq<nat>)
    requires |fs| == |from|
  {
    && s.queue == [] && s.consumed == fs && s.rcv == Receive(fs) && |s.readers| == |s.snd.wires|
    && forall l: nat :: l < |s.readers| ==> s.readers[l].up && s.readers[l].delivered == FromLane(fs, from, l)
  }

  /** What arrives next is the next whole frame on the lane it comes from. */
  lemma NextOnLane(r: Reader, w: Wire, arrivals: seq<Frame>, from: seq<nat>, k: nat)
    requires ReaderOk(r, w) && |arrivals| == |from| && k < |arrivals|
    requires r.delivered == FromLane(arrivals[..k], from[..k], from[k])
    requires FromLane(arrivals, from, from[k]) <= Parse(w.bytes).frames
    ensures
      var head := ReadFrame(w.bytes[r.read..]);
      head.Got? && head.frame == arrivals[k]
  {
    hide Parse, ReadFrame, EncodeAll, FromLane;
    ReaderDecodesNext(r, w);
    FromLaneNext(arrivals, from, from[k], k);
    FromLaneGrows(arrivals, from, from[k], k + 1);
    var d := |r.delivered|;
    assert FromLane(arrivals[..k + 1], from[..k + 1], from[k])[d] == arrivals[k];
  }

  /** A frame is passed on by the reader of its lane. */
  lemma PassOn(trace: seq<System>, arrivals: seq<Frame>, from: seq<nat>, k: nat) returns (more: seq<System>)
    requires Run(trace) && |arrivals| == |from| && k < |arrivals|
    requires Taken(trace[|trace| - 1], arrivals[..k], from[..k]) && from[k] < |trace[|trace| - 1].snd.wires|
    requires FromLane(arrivals, from, from[k]) <= Parse(trace[|trace| - 1].snd.wires[from[k]].bytes).frames
    ensures Run(more) && more[0] == trace[0]
    ensures
      var s, s' := trace[|trace| - 1], more[|more| - 1];
      s' == s.(readers := s'.readers, queue := [arrivals[k]]) && |s'.readers| == |s.readers|
    ensures
      var s' := more[|more| - 1];
      forall l: nat :: l < |s'.readers| ==>
        s'.readers[l].up && s'.readers[l].delivered == FromLane(arrivals[..k + 1], from[..k + 1], l)
  {
    hide Parse, ReadFrame, FromLane, Receive, Init, SenderInv, ReaderOk;
    var s, l := trace[|trace| - 1], from[k];
    RunKeepsInv(trace, |trace| - 1);
    NextOnLane(s.readers[l], s.snd.wires[l], arrivals, from, k);
    ReaderBounds(s.readers[l], s.snd.wires[l]);
    var head := ReadFrame(s.snd.wires[l].bytes[s.readers[l].read..]);
    var reader := Reader(|s.snd.wires[l].bytes| - |head.rest|, s.readers[l].delivered + [head.frame], true);
    var s' := s.(readers := s.readers[l := reader], queue := [arrivals[k]]);
    assert Step(s, Deliver(l), s');
    more := trace + [s'];
    Runs.Extend(Next, trace, s');
    forall m: nat | m < |s'.readers|
      ensures s'.readers[m].delivered == FromLane(arrivals[..k + 1], from[..k + 1], m)
    {
      FromLaneNext(arrivals, from, m, k);
    }
  }

  lemma ReaderBounds(r: Reader, w: Wire)
    requires ReaderOk(r, w)
    ensures r.read <= |w.bytes|
    ensures ReadFrame(w.bytes[r.read..]).Got? ==> |ReadFrame(w.bytes[r.read..]).rest| <= |w.bytes|
  {
    hide Parse, EncodeAll, ReadFrame;
    ReaderDecodesNext(r, w);
  }

  /** The receive queue is fed by the whole frames on the lanes. */
  ghost predicate Fed(wires: seq<Wire>, arrivals: seq<Frame>, from: seq<nat>) {
    && |arrivals| == |from|
    && (forall k :: 0 <= k < |from| ==> from[k] < |wires|)
    && forall l: nat :: l < |wires| ==> FromLane(arrivals, from, l) <= Parse(wires[l].bytes).frames
  }

  lemma CarriedFeeds(wires: seq<Wire>, streams: seq<seq<byte>>, arrivals: seq<Frame>, from: seq<nat>)
    requires Carry(streams, wires) && Interleaves(arrivals, from, streams)
    ensures Fed(wires, arrivals, from)
  {
    hide Parse, FromLane;
    forall l: nat | l < |wires|
      ensures FromLane(arrivals, from, l) <= Parse(wires[l].bytes).frames
    {
      ParsePrefix(streams[l], wires[l].bytes);
    }
  }

  /** A frame is passed on and taken. */
  lemma OneTaken(trace: seq<System>, arrivals: seq<Frame>, from: seq<nat>, k: nat) returns (more: seq<System>)
    requires Run(trace) && Fed(trace[|trace| - 1].snd.wires, arrivals, from) && k < |arrivals|
    requires Taken(trace[|trace| - 1], arrivals[..k], from[..k]) && Receive(arrivals[..k]).status == Running
    ensures Run(more) && more[0] == trace[0] && more[|more| - 1].snd == trace[|trace| - 1].snd
    ensures Taken(more[|more| - 1], arrivals[..k + 1], from[..k + 1])
  {
    hide Parse, ReadFrame, FromLane, Receive, Consume, Init;
    var mid := PassOn(trace, arrivals, from, k);
    var s := mid[|mid| - 1];
    ReceiveSnoc(arrivals[..k], arrivals[k]);
    assert arrivals[..k] + [arrivals[k]] == arrivals[..k + 1];
    var s' := s.(queue := [], consumed := s.consumed + [arrivals[k]], rcv := Consume(s.rcv, arrivals[k]));
    assert Step(s, Take, s');
    more := mid + [s'];
    Runs.Extend(Next, mid, s');
  }

  lemma {:induction false} AllTaken(trace: seq<System>, arrivals: seq<Frame>, from: seq<nat>, k: nat)
    returns (more: seq<System>)
    requires Run(trace) && Untouched(trace[|trace| - 1]) && Fed(trace[|trace| - 1].snd.wires, arrivals, from)
    requires k <= |arrivals| && RunsUpTo(arrivals, k)
    ensures Run(more) && more[0] == trace[0] && more[|more| - 1].snd == trace[|trace| - 1].snd
    ensures Taken(more[|more| - 1], arrivals[..k], from[..k])
  {
    hide Parse, Run;
    if k == 0 {
      more := trace;
    } else {
      more := AllTaken(trace, arrivals, from, k - 1);
      more := OneTaken(more, arrivals, from, k - 1);
    }
  }

  /** What the receiving loop promises, for frames that the lane readers passed
      on from the bytes their lanes delivered: `n` frames taken, `w` written. */
  ghost predicate Received(wires: seq<Wire>, streams: seq<seq<byte>>, arrivals: seq<Frame>, from: seq<nat>,
                           n: nat, exit: Exit, w: seq<byte>)
  {
    && Carry(streams, wires) && Interleaves(arrivals, from, streams)
    && n <= |arrivals| && RunsUpTo(arrivals, n) && Ends(exit, arrivals[..n], w)
  }

  /** The run ends as the loop did. */
  ghost predicate EndsAs(s: System, taken: seq<Frame>, exit: Exit, w: seq<byte>) {
    s.consumed == taken && s.rcv.out == w && (s.rcv.status == HalfClosed <==> exit == Finished)
  }

  lemma LastWriteFails(trace: seq<System>, arrivals: seq<Frame>, from: seq<nat>, k: nat, w: seq<byte>)
    returns (more: seq<System>)
    requires Run(trace) && Fed(trace[|trace| - 1].snd.wires, arrivals, from) && k < |arrivals|
    requires Taken(trace[|trace| - 1], arrivals[..k], from[..k]) && Ends(WriteFailed, arrivals[..k + 1], w)
    ensures Run(more) && more[0] == trace[0] && more[|more| - 1].snd == trace[|trace| - 1].snd
    ensures EndsAs(more[|more| - 1], arrivals[..k + 1], WriteFailed, w)
  {
    hide Parse, ReadFrame, FromLane, Receive, Consume, Init;
    var mid := PassOn(trace, arrivals, from, k);
    var s := mid[|mid| - 1];
    assert arrivals[..k + 1][..k] == arrivals[..k];
    ReceiveSnoc(arrivals[..k], arrivals[k]);
    assert arrivals[..k] + [arrivals[k]] == arrivals[..k + 1];
    var s' := s.(queue := [], consumed := s.consumed + [arrivals[k]], rcv := s.rcv.(status := Stopped, out := w));
    assert Step(s, TakeWriteFails(w), s');
    more := mid + [s'];
    Runs.Extend(Next, mid, s');
  }

  lemma CancelledLast(trace: seq<System>, fs: seq<Frame>, from: seq<nat>, w: seq<byte>) returns (more: seq<System>)
    requires Run(trace) && |fs| == |from| && Taken(trace[|trace| - 1], fs, from) && Ends(Exit.Cancelled, fs, w)
    ensures Run(more) && more[0] == trace[0] && more[|more| - 1].snd == trace[|trace| - 1].snd
    ensures EndsAs(more[|more| - 1], fs, Exit.Cancelled, w)
  {
    hide Receive, FromLane, Init;
    var s := trace[|trace| - 1];
    var s' := s.(rcv := s.rcv.(status := Stopped));
    assert Step(s, CancelReceiver, s');
    more := trace + [s'];
    Runs.Extend(Next, trace, s');
  }

  /** The lane readers and the receiving loop carry a run on to where they end. */
  lemma ReceivingLoopsEmbed(trace: seq<System>, streams: seq<seq<byte>>, arrivals: seq<Frame>, from: seq<nat>,
                            n: nat, exit: Exit, w: seq<byte>)
    returns (more: seq<System>)
    requires Run(trace) && Untouched(trace[|trace| - 1])
    requires Received(trace[|trace| - 1].snd.wires, streams, arrivals, from, n, exit, w)
    ensures Run(more) && more[0] == trace[0] && more[|more| - 1].snd == trace[|trace| - 1].snd
    ensures EndsAs(more[|more| - 1], arrivals[..n], exit, w)
  {
    hide Init, Parse, Receive, FromLane, Carry, Interleaves;
    CarriedFeeds(trace[|trace| - 1].snd.wires, streams, arrivals, from);
    match exit
    case WriteFailed =>
      more := AllTaken(trace, arrivals, from, n - 1);
      more := LastWriteFails(more, arrivals, from, n - 1, w);
    case Cancelled =>
      more := AllTaken(trace, arrivals, from, n);
      more := CancelledLast(more, arrivals[..n], from[..n], w);
    case _ =>
      more := AllTaken(trace, arrivals, from, n);
  }

  // ------------------------------------------------------------ all together

  /** A sending loop, any lanes that may lose their ends, their readers and the
      receiving loop are together one run of the system. */
  lemma LoopsAreOneRun(s0: Sender, s: Sender, streams: seq<seq<byte>>, arrivals: seq<Frame>, from: seq<nat>,
                       n: nat, exit: Exit, w: seq<byte>)
    returns (trace: seq<System>)
    requires SenderInit(s0) && Reaches(s0, s) && Received(s.wires, streams, arrivals, from, n, exit, w)
    ensures Leads(trace, s0, s) && EndsAs(trace[|trace| - 1], arrivals[..n], exit, w)
  {
    hide Run, Received, SenderInit, Reaches;
    trace := SenderRunsEmbed(s0, s);
    trace := ReceivingLoopsEmbed(trace, streams, arrivals, from, n, exit, w);
  }

  /** What the loops promise together: the bytes written out are a prefix of the
      bytes read in; and a receiving loop that half-closes has written all that
      the sending loop read, the whole input if that loop met its end. */
  lemma LoopsTransfer(s0: Sender, s: Sender, streams: seq<seq<byte>>, arrivals: seq<Frame>, from: seq<nat>,
                      n: nat, exit: Exit, w: seq<byte>)
    requires SenderInit(s0) && Reaches(s0, s) && Received(s.wires, streams, arrivals, from, n, exit, w)
    ensures w <= Flatten(s.chunks) <= s.input
    ensures exit == Finished ==> s.ended && w == Flatten(s.chunks) && (s.atEof ==> w == s.input)
  {
    hide Init, Received, SenderInit, Reaches;
    var trace := LoopsAreOneRun(s0, s, streams, arrivals, from, n, exit, w);
    OutputIsPrefixOfInput(trace, |trace| - 1);
    if exit == Finished {
      HalfCloseIsWholeStreamIff(trace, |trace| - 1);
      HalfCloseMeansComplete(trace, |trace| - 1);
    }
  }

  // ------------------------------------------------------- when nothing is lost

  lemma {:induction false} FromLaneArrives(arrivals: seq<Frame>, from: seq<nat>, l: nat, f: Frame)
    requires |arrivals| == |from| && f in FromLane(arrivals, from, l)
    ensures f in arrivals
  {
    var n := |arrivals| - 1;
    if f in FromLane(arrivals[..n], from[..n], l) {
      FromLaneArrives(arrivals[..n], from[..n], l, f);
    }
  }

  lemma ArrivesFromLane(arrivals: seq<Frame>, from: seq<nat>, k: nat)
    requires |arrivals| == |from| && k < |arrivals|
    ensures arrivals[k] in FromLane(arrivals, from, from[k])
  {
    hide FromLane;
    FromLaneNext(arrivals, from, from[k], k);
    FromLaneGrows(arrivals, from, from[k], k + 1);
    var part := FromLane(arrivals[..k + 1], from[..k + 1], from[k]);
    assert part[|part| - 1] == arrivals[k];
  }

  /** Every frame that a lane has accepted has arrived. */
  ghost predicate AllArrived(wires: seq<Wire>, arrivals: seq<Frame>, from: seq<nat>)
    requires |arrivals| == |from|
  {
    forall l: nat, f: Frame :: l < |wires| && f in wires[l].accepted ==> f in FromLane(arrivals, from, l)
  }

  lemma ArrivalsGenuine(s: Sender, arrivals: seq<Frame>, from: seq<nat>)
    requires SenderInv(s) && Fed(s.wires, arrivals, from)
    ensures AllGenuine(arrivals, s.chunks, s.ended)
  {
    hide FromLane, Genuine, Parse, Books, Placed;
    forall f | f in arrivals
      ensures Genuine(f, s.chunks, s.ended)
    {
      var k :| 0 <= k < |arrivals| && arrivals[k] == f;
      ArrivesFromLane(arrivals, from, k);
      assert WireOk(s.wires[from[k]], s.chunks, s.ended);
      assert f in Parse(s.wires[from[k]].bytes).frames;
    }
  }

  /** With every accepted frame, the FIN among them, the receiver has all chunks
      and half-closes. */
  lemma CompleteArrivals(s: Sender, arrivals: seq<Frame>, from: seq<nat>, l: nat)
    requires SenderInv(s) && s.ended && Fed(s.wires, arrivals, from) && AllArrived(s.wires, arrivals, from)
    requires l < |s.wires| && |s.chunks| < TWO64 && Frame(FRAME_FIN, |s.chunks|, []) in s.wires[l].accepted
    ensures Receive(arrivals).status == HalfClosed
  {
    hide FromLane, Genuine, Parse, WireOk, Receive, Flatten;
    ArrivalsGenuine(s, arrivals, from);
    GenuineInvariant(arrivals, s.chunks, s.ended);
    FromLaneArrives(arrivals, from, l, Frame(FRAME_FIN, |s.chunks|, []));
    var n := Receive(arrivals).expected;
    if n < |s.chunks| {
      assert Placed(s, n);
      var m :| 0 <= m < |s.wires| && Frame(FRAME_DATA, n, s.chunks[n]) in s.wires[m].accepted;
      FromLaneArrives(arrivals, from, m, Frame(FRAME_DATA, n, s.chunks[n]));
    }
  }

  /** When every accepted frame arrives, the FIN among them, a receiving loop
      that nothing interferes with writes all that the sending loop read, the
      whole input if that loop met its end, and half-closes. */
  lemma LoopsDeliver(s0: Sender, s: Sender, streams: seq<seq<byte>>, arrivals: seq<Frame>, from: seq<nat>,
                     n: nat, exit: Exit, w: seq<byte>, l: nat)
    requires SenderInit(s0) && Reaches(s0, s) && Received(s.wires, streams, arrivals, from, n, exit, w)
    requires s.ended && l < |s.wires| && |s.chunks| < TWO64
    requires Frame(FRAME_FIN, |s.chunks|, []) in s.wires[l].accepted && AllArrived(s.wires, arrivals, from)
    requires Receive(arrivals).status == HalfClosed ==> exit == Finished
    ensures exit == Finished && w == Flatten(s.chunks) && (s.atEof ==> w == s.input)
  {
    hide SenderInit, Reaches, SenderInv, Carry, Interleaves, Fed, AllArrived, Ends, Receive;
    SenderInitInv(s0);
    ReachesKeepsInv(s0, s);
    CarriedFeeds(s.wires, streams, arrivals, from);
    CompleteArrivals(s, arrivals, from, l);
    LoopsTransfer(s0, s, streams, arrivals, from, n, exit, w);
  }
}
