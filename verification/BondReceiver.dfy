/** Reassembly of a striped byte stream: the `pending` map, the `expected`
    cursor and the smallest FIN seen so far. */
module BondReceiver {
  import opened Bytes
  import opened BondCodec
  import opened Contexts
  import opened Options

  datatype Status = Running | HalfClosed | Stopped

  datatype Receiver = Receiver(
    pending: map<nat, seq<byte>>,
    expected: nat,
    fin: Option<nat>,
    out: seq<byte>,
    status: Status)

  const START := Receiver(map[], 0, None, [], Running)

  /** Hands over consecutive chunks while the next expected one is pending. */
  function Drain(r: Receiver): Receiver
    decreases |r.pending|
  {
    if r.expected in r.pending then Drain(DrainOne(r)) else r
  }

  function DrainOne(r: Receiver): (r': Receiver)
    requires r.expected in r.pending
    ensures |r'.pending| < |r.pending|
  {
    assert |(r.pending - {r.expected}).Keys| == |r.pending.Keys - {r.expected}|;
    r.(pending := r.pending - {r.expected}, out := r.out + r.pending[r.expected], expected := r.expected + 1)
  }

  function CheckFin(r: Receiver): Receiver {
    if r.fin == Some(r.expected) then r.(status := HalfClosed) else r
  }

  function Accept(r: Receiver, f: Frame): Receiver {
    if f.typ == FRAME_DATA then r.(pending := r.pending[f.seqNo := f.data])
    else if r.fin.None? || f.seqNo < r.fin.value then r.(fin := Some(f.seqNo))
    else r
  }

  predicate KnownType(f: Frame) {
    f.typ == FRAME_DATA || f.typ == FRAME_FIN
  }

  /** One turn of the receive loop: take a frame, drain, test for the end. */
  function Consume(r: Receiver, f: Frame): Receiver {
    if r.status != Running then r
    else if !KnownType(f) then r.(status := Stopped)
    else CheckFin(Drain(Accept(r, f)))
  }

  function Receive(fs: seq<Frame>): Receiver {
    if fs == [] then START else Consume(Receive(fs[..|fs| - 1]), fs[|fs| - 1])
  }

  lemma ReceiveSnoc(fs: seq<Frame>, f: Frame)
    ensures Receive(fs + [f]) == Consume(Receive(fs), f)
  {
    assert (fs + [f])[..|fs|] == fs;
  }

  // --------------------------------------------- arbitrary frames, any order

  ghost function DataSeqs(fs: seq<Frame>): set<nat> {
    set f | f in fs && f.typ == FRAME_DATA :: f.seqNo
  }

  /** Every number seen is either already handed over or still pending, and
      everything below the cursor was seen. */
  ghost predicate Tracks(r: Receiver, seen: set<nat>) {
    && r.pending.Keys <= seen
    && (forall i :: 0 <= i < r.expected ==> i in seen)
    && (forall i :: i in seen ==> i < r.expected || i in r.pending)
  }

  lemma {:induction false} DrainTracks(r: Receiver, seen: set<nat>)
    requires Tracks(r, seen)
    ensures Tracks(Drain(r), seen) && Drain(r).expected !in Drain(r).pending
    ensures Drain(r).status == r.status && Drain(r).fin == r.fin
    ensures r.out <= Drain(r).out
    decreases |r.pending|
  {
    if r.expected in r.pending {
      DrainTracks(DrainOne(r), seen);
    }
  }

  /** The cursor is the least sequence number not yet received, whatever
      frames arrive and in whatever order. */
  ghost predicate IsLeastMissing(n: nat, fs: seq<Frame>) {
    n !in DataSeqs(fs) && forall i :: 0 <= i < n ==> i in DataSeqs(fs)
  }

  ghost predicate CursorExact(r: Receiver, fs: seq<Frame>) {
    Tracks(r, DataSeqs(fs)) && r.expected !in r.pending
  }

  lemma RunningBefore(fs: seq<Frame>, f: Frame)
    requires Receive(fs + [f]).status == Running
    ensures Receive(fs).status == Running && KnownType(f)
    ensures Receive(fs + [f]) == Consume(Receive(fs), f)
  {
    hide Drain, Accept;
    ReceiveSnoc(fs, f);
  }

  lemma {:induction false} CursorIsLeastMissing(fs: seq<Frame>)
    requires Receive(fs).status == Running
    ensures CursorExact(Receive(fs), fs)
    ensures IsLeastMissing(Receive(fs).expected, fs)
  {
    if fs == [] {
    } else {
      hide Receive, Consume;
      var init, f := fs[..|fs| - 1], fs[|fs| - 1];
      assert fs == init + [f];
      RunningBefore(init, f);
      CursorIsLeastMissing(init);
      ConsumeTracks(Receive(init), f, init);
    }
  }

  lemma ConsumeTracks(r: Receiver, f: Frame, fs: seq<Frame>)
    requires r.status == Running && KnownType(f) && CursorExact(r, fs)
    ensures CursorExact(Consume(r, f), fs + [f])
    ensures Consume(r, f).status != Stopped
  {
    DataSeqsSnoc(fs, f);
    assert Tracks(Accept(r, f), DataSeqs(fs + [f]));
    DrainTracks(Accept(r, f), DataSeqs(fs + [f]));
  }

  /** The smallest number that a FIN among the frames carries. */
  ghost predicate IsLeastFin(n: nat, fs: seq<Frame>) {
    && (exists f :: f in fs && f.typ == 2 && f.seqNo == n)
    && forall f :: f in fs && f.typ == 2 ==> n <= f.seqNo
  }

  ghost predicate FinExact(r: Receiver, fs: seq<Frame>) {
    && (r.fin.Some? ==> IsLeastFin(r.fin.value, fs))
    && (r.fin.None? ==> forall f :: f in fs ==> f.typ != 2)
  }

  lemma FinSnoc(r: Receiver, fs: seq<Frame>, f: Frame)
    requires FinExact(r, fs) && KnownType(f)
    ensures FinExact(Accept(r, f), fs + [f])
  {
    assert forall g :: g in fs + [f] <==> g in fs || g == f;
    if r.fin.Some? {
      var g :| g in fs && g.typ == 2 && g.seqNo == r.fin.value;
      assert g in fs + [f];
    }
  }

  /** While the loop goes on it has met only the types 1 and 2, and has kept the
      smallest number of any FIN, which the cursor has not reached. */
  lemma {:induction false} FinIsLeast(fs: seq<Frame>)
    requires Receive(fs).status == Running
    ensures FinExact(Receive(fs), fs) && Receive(fs).fin != Some(Receive(fs).expected)
    ensures forall f :: f in fs ==> f.typ == 1 || f.typ == 2
  {
    if fs != [] {
      hide Receive, Drain, Accept, Tracks, FinExact;
      var init, f := fs[..|fs| - 1], fs[|fs| - 1];
      assert fs == init + [f];
      RunningBefore(init, f);
      FinIsLeast(init);
      FinSnoc(Receive(init), init, f);
      FinKept(Accept(Receive(init), f), fs);
    } else {
      assert Receive(fs) == START;
    }
  }

  lemma FinKept(r: Receiver, fs: seq<Frame>)
    requires FinExact(r, fs)
    ensures FinExact(CheckFin(Drain(r)), fs)
    ensures CheckFin(Drain(r)).status == Running ==> CheckFin(Drain(r)).fin != Some(CheckFin(Drain(r)).expected)
  {
    DrainKeepsFin(r);
  }

  lemma {:induction false} DrainKeepsFin(r: Receiver)
    ensures Drain(r).fin == r.fin
    decreases |r.pending|
  {
    if r.expected in r.pending {
      DrainKeepsFin(DrainOne(r));
    }
  }

  /** What the next frame does to a running loop, whatever the frames: any type
      but 1 and 2 stops it, and it half-closes exactly when the smallest number
      of any FIN is the least number not received. */
  lemma NextStatus(fs: seq<Frame>, f: Frame)
    requires Receive(fs).status == Running
    ensures Receive(fs + [f]).status == Stopped <==> f.typ != 1 && f.typ != 2
    ensures Receive(fs + [f]).status == HalfClosed <==>
      (f.typ == 1 || f.typ == 2) && exists n :: IsLeastFin(n, fs + [f]) && IsLeastMissing(n, fs + [f])
  {
    hide Receive, Drain, Accept, Tracks, FinExact, IsLeastFin, IsLeastMissing;
    ReceiveSnoc(fs, f);
    CursorIsLeastMissing(fs);
    FinIsLeast(fs);
    if KnownType(f) {
      ConsumeTracks(Receive(fs), f, fs);
      CursorLeast(Consume(Receive(fs), f), fs + [f]);
      FinSnoc(Receive(fs), fs, f);
      FinKept(Accept(Receive(fs), f), fs + [f]);
      ClosesIff(Consume(Receive(fs), f), fs + [f]);
      DrainKeepsStatus(Accept(Receive(fs), f));
      AcceptKeepsStatus(Receive(fs), f);
    }
  }

  lemma AcceptKeepsStatus(r: Receiver, f: Frame)
    ensures Accept(r, f).status == r.status && Accept(r, f).expected == r.expected
  {
  }

  lemma {:induction false} DrainKeepsStatus(r: Receiver)
    ensures Drain(r).status == r.status
    decreases |r.pending|
  {
    if r.expected in r.pending {
      DrainKeepsStatus(DrainOne(r));
    }
  }

  lemma CursorLeast(r: Receiver, fs: seq<Frame>)
    requires CursorExact(r, fs)
    ensures IsLeastMissing(r.expected, fs)
  {
  }

  lemma ClosesIff(r: Receiver, fs: seq<Frame>)
    requires FinExact(r, fs) && IsLeastMissing(r.expected, fs)
    ensures r.fin == Some(r.expected) <==> exists n :: IsLeastFin(n, fs) && IsLeastMissing(n, fs)
  {
    if n :| IsLeastFin(n, fs) && IsLeastMissing(n, fs) {
      LeastMissingUnique(n, r.expected, fs);
      if r.fin.Some? {
        assert r.fin.value <= n;
      }
    }
  }

  /** Frame k is the last of the frames with data for i. */
  ghost predicate IsLatest(fs: seq<Frame>, k: nat, i: nat, data: seq<byte>) {
    && k < |fs| && fs[k].typ == 1 && fs[k].seqNo == i && fs[k].data == data
    && forall j :: k < j < |fs| && fs[j].typ == 1 ==> fs[j].seqNo != i
  }

  lemma LatestSnoc(fs: seq<Frame>, f: Frame, k: nat, i: nat, data: seq<byte>)
    ensures f.typ == 1 && f.seqNo == i ==> IsLatest(fs + [f], |fs|, i, f.data)
    ensures !(f.typ == 1 && f.seqNo == i) && IsLatest(fs, k, i, data) ==> IsLatest(fs + [f], k, i, data)
  {
    if IsLatest(fs, k, i, data) {
      assert (fs + [f])[k] == fs[k];
    }
  }

  lemma AcceptOther(r: Receiver, f: Frame, i: nat)
    requires i in Accept(r, f).pending
    ensures if f.typ == 1 && f.seqNo == i then Accept(r, f).pending[i] == f.data
            else i in r.pending && Accept(r, f).pending[i] == r.pending[i]
  {
  }

  lemma {:induction false} NothingPending()
    ensures Receive([]) == START
  {
  }

  /** A pending number holds the data that arrived for it last. */
  lemma {:induction false} PendingIsLatest(fs: seq<Frame>, i: nat) returns (k: nat)
    requires Receive(fs).status == Running && i in Receive(fs).pending
    ensures IsLatest(fs, k, i, Receive(fs).pending[i])
  {
    hide Receive, Drain, Accept, IsLatest, KnownType;
    NothingPending();
    var init, f := fs[..|fs| - 1], fs[|fs| - 1];
    assert fs == init + [f];
    RunningBefore(init, f);
    DrainKeepsPending(Accept(Receive(init), f), i);
    AcceptOther(Receive(init), f, i);
    k := |init|;
    if f.typ != 1 || f.seqNo != i {
      k := PendingIsLatest(init, i);
    }
    LatestSnoc(init, f, k, i, Receive(fs).pending[i]);
  }

  lemma {:induction false} DrainKeepsPending(r: Receiver, i: nat)
    requires i in Drain(r).pending
    ensures i in r.pending && Drain(r).pending[i] == r.pending[i]
    decreases |r.pending|
  {
    if r.expected in r.pending {
      DrainKeepsPending(DrainOne(r), i);
    }
  }

  /** The cursor never passes the number of frames consumed, so with fewer
      than 2^64 frames its 64-bit counter cannot wrap. */
  lemma {:induction false} CursorBounded(fs: seq<Frame>)
    ensures Receive(fs).expected + |Receive(fs).pending| <= |fs|
  {
    if fs != [] {
      var init, f := fs[..|fs| - 1], fs[|fs| - 1];
      CursorBounded(init);
      DrainKeepsTotal(Accept(Receive(init), f));
    }
  }

  lemma {:induction false} DrainKeepsTotal(r: Receiver)
    ensures Drain(r).expected + |Drain(r).pending| <= r.expected + |r.pending|
    decreases |r.pending|
  {
    if r.expected in r.pending {
      DrainKeepsTotal(DrainOne(r));
    }
  }

  // ------------------------------------------------ frames of one real stream

  /** `f` is a frame a sender may emit after cutting its input into `chunks`;
      it emits a FIN only once the input has ended. */
  predicate Genuine(f: Frame, chunks: seq<seq<byte>>, eof: bool) {
    if f.typ == FRAME_DATA then f.seqNo < |chunks| && f.data == chunks[f.seqNo]
    else f.typ == FRAME_FIN && eof && f.seqNo == |chunks| && f.data == []
  }

  ghost predicate AllGenuine(fs: seq<Frame>, chunks: seq<seq<byte>>, eof: bool) {
    forall f :: f in fs ==> Genuine(f, chunks, eof)
  }

  ghost predicate Holds(r: Receiver, chunks: seq<seq<byte>>, eof: bool) {
    && r.expected <= |chunks|
    && r.out == Flatten(chunks[..r.expected])
    && (forall k :: k in r.pending ==> k < |chunks| && r.pending[k] == chunks[k])
    && (r.fin.Some? ==> eof && r.fin.value == |chunks|)
  }

  lemma {:induction false} DrainHolds(r: Receiver, chunks: seq<seq<byte>>, eof: bool)
    requires Holds(r, chunks, eof)
    ensures Holds(Drain(r), chunks, eof)
    decreases |r.pending|
  {
    if r.expected in r.pending {
      assert chunks[..r.expected + 1] == chunks[..r.expected] + [chunks[r.expected]];
      FlattenSnoc(chunks[..r.expected], chunks[r.expected]);
      DrainHolds(DrainOne(r), chunks, eof);
    }
  }

  ghost predicate SawFin(fs: seq<Frame>) {
    exists f :: f in fs && f.typ == FRAME_FIN
  }

  /** What the receiver has done after any sequence of genuine frames, in terms
      of the set of frames alone. */
  ghost predicate Described(r: Receiver, fs: seq<Frame>, chunks: seq<seq<byte>>) {
    && r.expected <= |chunks|
    && IsLeastMissing(r.expected, fs)
    && r.out == Flatten(chunks[..r.expected])
    && r.status == if SawFin(fs) && r.expected == |chunks| then HalfClosed else Running
  }

  lemma {:induction false} GenuineInvariant(fs: seq<Frame>, chunks: seq<seq<byte>>, eof: bool)
    requires AllGenuine(fs, chunks, eof)
    ensures Holds(Receive(fs), chunks, eof)
    ensures Described(Receive(fs), fs, chunks)
    ensures Receive(fs).status == Running ==> (Receive(fs).fin.Some? <==> SawFin(fs))
  {
    if fs != [] {
      var init, f := fs[..|fs| - 1], fs[|fs| - 1];
      assert fs == init + [f];
      GenuineInvariant(init, chunks, eof);
      assert Genuine(f, chunks, eof);
      DataSeqsSnoc(init, f);
      if Receive(init).status == Running {
        CursorIsLeastMissing(init);
        GenuineStep(init, f, chunks, eof);
      } else {
        LeastMissingGrows(init, f, chunks);
      }
    }
  }

  lemma DataSeqsSnoc(fs: seq<Frame>, f: Frame)
    ensures DataSeqs(fs + [f]) == DataSeqs(fs) + if f.typ == FRAME_DATA then {f.seqNo as nat} else {}
    ensures SawFin(fs + [f]) <==> SawFin(fs) || f.typ == FRAME_FIN
  {
    if SawFin(fs) {
      var g :| g in fs && g.typ == FRAME_FIN;
      assert g in fs + [f];
    }
    if f.typ == FRAME_FIN {
      assert f in fs + [f];
    }
  }

  lemma LeastMissingGrows(fs: seq<Frame>, f: Frame, chunks: seq<seq<byte>>)
    requires IsLeastMissing(|chunks|, fs) && (f.typ == FRAME_DATA ==> f.seqNo < |chunks|)
    ensures IsLeastMissing(|chunks|, fs + [f])
  {
    DataSeqsSnoc(fs, f);
  }

  lemma GenuineStep(fs: seq<Frame>, f: Frame, chunks: seq<seq<byte>>, eof: bool)
    requires Receive(fs).status == Running && Genuine(f, chunks, eof)
    requires Holds(Receive(fs), chunks, eof) && CursorExact(Receive(fs), fs)
    requires Receive(fs).fin.Some? <==> SawFin(fs)
    ensures
      var r := Consume(Receive(fs), f);
      && Holds(r, chunks, eof)
      && Described(r, fs + [f], chunks)
      && (r.fin.Some? <==> SawFin(fs + [f]))
  {
    hide Receive, Flatten, Drain, DataSeqs;
    var a := Accept(Receive(fs), f);
    ConsumeTracks(Receive(fs), f, fs);
    DataSeqsSnoc(fs, f);
    DrainHolds(a, chunks, eof);
    DrainTracks(a, DataSeqs(fs + [f]));
  }

  /** Output, cursor and half-close depend on the set of frames received and on
      nothing else: not on their order, not on duplicates. */
  lemma OrderIrrelevant(fs: seq<Frame>, gs: seq<Frame>, chunks: seq<seq<byte>>, eof: bool)
    requires AllGenuine(fs, chunks, eof) && AllGenuine(gs, chunks, eof)
    requires forall f :: f in fs <==> f in gs
    ensures Receive(fs).out == Receive(gs).out
    ensures Receive(fs).expected == Receive(gs).expected
    ensures Receive(fs).status == Receive(gs).status
  {
    GenuineInvariant(fs, chunks, eof);
    GenuineInvariant(gs, chunks, eof);
    assert DataSeqs(fs) == DataSeqs(gs);
    assert SawFin(fs) <==> SawFin(gs);
    LeastMissingUnique(Receive(fs).expected, Receive(gs).expected, fs);
  }

  lemma LeastMissingUnique(m: nat, n: nat, fs: seq<Frame>)
    requires IsLeastMissing(m, fs) && IsLeastMissing(n, fs)
    ensures m == n
  {
  }

  /** A FIN below a sequence number in flight makes the outcome depend on the
      order, so genuineness is needed above. */
  lemma PrematureFinDependsOnOrder()
    ensures
      var d0, d1, fin := Frame(FRAME_DATA, 0, [7]), Frame(FRAME_DATA, 1, [8]), Frame(FRAME_FIN, 1, []);
      Receive([d0, fin, d1]).out == [7] && Receive([d0, d1, fin]).out == [7, 8]
  {
    FinBeforeData(Frame(FRAME_DATA, 0, [7]), Frame(FRAME_FIN, 1, []), Frame(FRAME_DATA, 1, [8]));
    FinAfterData(Frame(FRAME_DATA, 0, [7]), Frame(FRAME_DATA, 1, [8]), Frame(FRAME_FIN, 1, []));
  }

  lemma FinBeforeData(d0: Frame, fin: Frame, d1: Frame)
    requires d0.typ == FRAME_DATA && d0.seqNo == 0 && fin.typ == FRAME_FIN && fin.seqNo == 1
    ensures Receive([d0, fin, d1]).out == d0.data
  {
    ReceiveOne(d0);
    ReceiveSnoc([d0], fin);
    ReceiveSnoc([d0, fin], d1);
    assert [d0] + [fin] == [d0, fin] && [d0, fin] + [d1] == [d0, fin, d1];
  }

  lemma FinAfterData(d0: Frame, d1: Frame, fin: Frame)
    requires d0.typ == FRAME_DATA && d0.seqNo == 0 && d1.typ == FRAME_DATA && d1.seqNo == 1 && fin.typ == FRAME_FIN
    ensures Receive([d0, d1, fin]).out == d0.data + d1.data
  {
    ReceiveOne(d0);
    OneByOne(Receive([d0]), d1);
    ReceiveSnoc([d0], d1);
    ReceiveSnoc([d0, d1], fin);
    assert [d0] + [d1] == [d0, d1] && [d0, d1] + [fin] == [d0, d1, fin];
  }

  lemma ReceiveOne(f: Frame)
    requires f.typ == FRAME_DATA && f.seqNo == 0
    ensures Receive([f]) == Receiver(map[], 1, None, f.data, Running)
  {
    ReceiveSnoc([], f);
    OneByOne(START, f);
    assert [] + [f] == [f];
  }

  lemma OneByOne(r: Receiver, f: Frame)
    requires r.status == Running && r.pending == map[] && f.typ == FRAME_DATA && f.seqNo == r.expected && r.fin.None?
    ensures Consume(r, f) == Receiver(map[], r.expected + 1, None, r.out + f.data, Running)
  {
    var a := Accept(r, f);
    assert DrainOne(a).pending == map[];
    assert Drain(DrainOne(a)) == DrainOne(a);
  }

  // -------------------------------------------------------------- the loop

  /** The receiving TCP connection. A write may fail after any prefix, unless
      the connection is sound; `failed` records that one has. */
  class TcpEndpoint {
    const sound: bool
    var written: seq<byte>
    var writeClosed: bool
    ghost var failed: bool

    constructor (sound: bool)
      ensures this.sound == sound && written == [] && !writeClosed && !failed
    {
      this.sound := sound;
      written, writeClosed, failed := [], false, false;
    }

    method Write(data: seq<byte>) returns (ok: bool)
      modifies this`written, this`failed
      ensures failed == (old(failed) || !ok) && (sound ==> ok)
      ensures ok ==> written == old(written) + data
      ensures !ok ==> old(written) <= written <= old(written) + data
    {
      ok := *;
      if ok || sound {
        ok := true;
        written := written + data;
      } else {
        var k: nat :| k <= |data|;
        written := written + data[..k];
        failed := true;
      }
    }

    method CloseWrite()
      modifies this`writeClosed
      ensures writeClosed
    {
      writeClosed := true;
    }
  }

  datatype Exit = Finished | Cancelled | QueueEnded | UnknownFrame | WriteFailed

  /** How the loop may end after consuming the frames `fs`, having written `w`. */
  ghost predicate Ends(exit: Exit, fs: seq<Frame>, w: seq<byte>) {
    match exit
    case Finished => Receive(fs).status == HalfClosed && w == Receive(fs).out
    case Cancelled => Receive(fs).status == Running && w == Receive(fs).out
    case QueueEnded => Receive(fs).status == Running && w == Receive(fs).out
    case UnknownFrame => Receive(fs).status == Stopped && w == Receive(fs).out
    case WriteFailed =>
      && fs != []
      && Receive(fs[..|fs| - 1]).status == Running
      && Receive(fs[..|fs| - 1]).out <= w <= Receive(fs).out
  }

  lemma Turn(fs: seq<Frame>, f: Frame, r: Receiver)
    requires Receive(fs) == CheckFin(r) && r.status == Running && r.fin != Some(r.expected)
    ensures Receive(fs).status == Running && Receive(fs).out == r.out
    ensures Receive(fs + [f]) == if KnownType(f) then CheckFin(Drain(Accept(r, f))) else r.(status := Stopped)
  {
    ReceiveSnoc(fs, f);
  }

  /** The ways out of the loop. `r` is the receiver before the last frame. */
  lemma Leaves(fs: seq<Frame>, f: Frame, r: Receiver, w: seq<byte>)
    requires Receive(fs) == CheckFin(r) && r.status == Running && r.fin != Some(r.expected)
    ensures (fs + [f])[..|fs|] == fs
    ensures !KnownType(f) && w == r.out ==> Ends(UnknownFrame, fs + [f], w)
    ensures KnownType(f) && r.out <= w <= Drain(Accept(r, f)).out ==> Ends(WriteFailed, fs + [f], w)
  {
    hide Drain, Accept, Receive;
    Turn(fs, f, r);
  }

  /** Before anything is taken, and at the top of the loop. */
  lemma AtTheTop(fs: seq<Frame>, r: Receiver)
    requires Receive(fs) == CheckFin(r) && r.status == Running
    ensures r.fin == Some(r.expected) ==> Ends(Finished, fs, r.out)
    ensures r.fin != Some(r.expected) ==> Ends(Cancelled, fs, r.out) && Ends(QueueEnded, fs, r.out)
  {
    hide Receive;
  }

  lemma NothingTaken(arrivals: seq<Frame>)
    ensures arrivals[..0] == [] && Receive(arrivals[..0]) == CheckFin(START) && RunsUpTo(arrivals, 0)
  {
    assert arrivals[..0] == [];
  }

  /** The loop has gone on after each of the first frames but the last. */
  ghost predicate RunsUpTo(arrivals: seq<Frame>, n: nat)
    requires n <= |arrivals|
  {
    forall k: nat :: k < n ==> Receive(arrivals[..k]).status == Running
  }

  lemma RunsOn(arrivals: seq<Frame>, n: nat)
    requires n < |arrivals| && RunsUpTo(arrivals, n) && Receive(arrivals[..n]).status == Running
    ensures RunsUpTo(arrivals, n + 1)
  {
  }

  /** A receiver that has ended takes no further frame. */
  lemma {:induction false} EndedStays(arrivals: seq<Frame>, n: nat)
    requires n <= |arrivals| && Receive(arrivals[..n]).status != Running
    ensures Receive(arrivals) == Receive(arrivals[..n])
  {
    if n == |arrivals| {
      assert arrivals[..n] == arrivals;
    } else {
      var init := arrivals[..|arrivals| - 1];
      assert init[..n] == arrivals[..n];
      EndedStays(init, n);
    }
  }

  /** How a loop that nothing interferes with ends is settled by what arrives. */
  lemma EndIsSettled(arrivals: seq<Frame>, n: nat, exit: Exit, w: seq<byte>)
    requires n <= |arrivals| && Ends(exit, arrivals[..n], w) && (exit == QueueEnded ==> n == |arrivals|)
    ensures exit != Cancelled && exit != WriteFailed ==>
      exit == match Receive(arrivals).status
              case HalfClosed => Finished
              case Stopped => UnknownFrame
              case Running => QueueEnded
  {
    hide Receive;
    if exit == QueueEnded {
      assert arrivals[..n] == arrivals;
    } else if Receive(arrivals[..n]).status != Running {
      EndedStays(arrivals, n);
    }
  }

  /** The loop that both ends run over their receive queue. `arrivals` is what
      the queue delivers until the client closes it, or until nothing more comes
      and the server waits for its context; the loop may be cancelled before any
      of them. `n` frames have been taken when it returns. */
  method CopyBondToTcp(arrivals: seq<Frame>, ctx: Context, tcp: TcpEndpoint) returns (n: nat, exit: Exit)
    requires !tcp.writeClosed && tcp.written == [] && !tcp.failed && ctx.Valid()
    modifies tcp, ctx`done
    ensures ctx.Valid() && n <= |arrivals|
    ensures tcp.writeClosed <==> exit == Finished
    ensures Ends(exit, arrivals[..n], tcp.written) && RunsUpTo(arrivals, n)
    // It gives up for cause only, and else as the arrivals have it.
    ensures (exit == Cancelled ==> ctx.done) && (exit == WriteFailed <==> tcp.failed) && (tcp.failed ==> !tcp.sound)
    ensures exit != Cancelled && exit != WriteFailed ==>
      exit == match Receive(arrivals).status
              case HalfClosed => Finished
              case Stopped => UnknownFrame
              case Running => QueueEnded
  {
    hide Drain, Accept, Receive, KnownType, CheckFin, Ends, RunsUpTo;
    var pending: map<nat, seq<byte>> := map[];
    var expected: nat := 0;
    var finSeq: Option<nat> := None;
    NothingTaken(arrivals);
    n := 0;
    while true
      invariant n <= |arrivals| && !tcp.writeClosed && !tcp.failed && RunsUpTo(arrivals, n) && ctx.Valid()
      invariant Receive(arrivals[..n]) == CheckFin(Receiver(pending, expected, finSeq, tcp.written, Running))
      decreases |arrivals| - n
    {
      AtTheTop(arrivals[..n], Receiver(pending, expected, finSeq, tcp.written, Running));
      if finSeq == Some(expected) {
        tcp.CloseWrite();
        EndIsSettled(arrivals, n, Finished, tcp.written);
        return n, Finished;
      }
      var cancelled := ctx.Selected();
      if cancelled {
        return n, Cancelled;
      }
      if n == |arrivals| {
        EndIsSettled(arrivals, n, QueueEnded, tcp.written);
        return n, QueueEnded;
      }
      ghost var taken, r := arrivals[..n], Receiver(pending, expected, finSeq, tcp.written, Running);
      var f := arrivals[n];
      n := n + 1;
      assert arrivals[..n] == taken + [f];
      Turn(taken, f, r);
      RunsOn(arrivals, n - 1);
      var handled;
      handled, pending, expected, finSeq := HandleFrame(f, pending, expected, finSeq, tcp, r);
      Leaves(taken, f, r, tcp.written);
      if handled == Unknown {
        EndIsSettled(arrivals, n, UnknownFrame, tcp.written);
        return n, UnknownFrame;
      }
      if handled == Failed {
        return n, WriteFailed;
      }
    }
  }

  datatype Handled = Fine | Unknown | Failed

  /** One frame: filed by its type, after which whatever became consecutive is
      written out. `r` is the receiver that the local variables represent. */
  method HandleFrame(f: Frame, pending: map<nat, seq<byte>>, expected: nat, finSeq: Option<nat>, tcp: TcpEndpoint,
                     ghost r: Receiver)
    returns (handled: Handled, pending': map<nat, seq<byte>>, expected': nat, finSeq': Option<nat>)
    requires r == Receiver(pending, expected, finSeq, tcp.written, Running)
    modifies tcp`written, tcp`failed
    ensures tcp.failed == (old(tcp.failed) || handled == Failed) && (tcp.sound ==> handled != Failed)
    ensures handled == Unknown <==> !KnownType(f)
    ensures handled == Unknown ==> tcp.written == r.out
    ensures handled == Fine ==> Drain(Accept(r, f)) == Receiver(pending', expected', finSeq', tcp.written, Running)
    ensures handled == Failed ==> r.out <= tcp.written <= Drain(Accept(r, f)).out
  {
    pending', expected', finSeq' := pending, expected, finSeq;
    if f.typ == FRAME_DATA {
      pending' := pending'[f.seqNo := f.data];
    } else if f.typ == FRAME_FIN {
      if finSeq'.None? || f.seqNo < finSeq'.value {
        finSeq' := Some(f.seqNo);
      }
    } else {
      return Unknown, pending', expected', finSeq';
    }
    ghost var a := Accept(r, f);
    assert a == Receiver(pending', expected', finSeq', tcp.written, Running);
    hide Drain, Accept;
    var ok;
    ok, pending', expected' := DrainPending(pending', expected', a, tcp);
    handled := if ok then Fine else Failed;
  }

  /** The inner loop: writes out consecutive chunks until one is missing or a
      write fails. `r` is the receiver that the local variables represent. */
  method DrainPending(pending: map<nat, seq<byte>>, expected: nat, ghost r: Receiver, tcp: TcpEndpoint)
    returns (ok: bool, pending': map<nat, seq<byte>>, expected': nat)
    requires r.pending == pending && r.expected == expected && r.out == tcp.written
    modifies tcp`written, tcp`failed
    ensures tcp.failed == (old(tcp.failed) || !ok) && (tcp.sound ==> ok)
    ensures ok ==> Drain(r) == Receiver(pending', expected', r.fin, tcp.written, r.status)
    ensures !ok ==> r.out <= tcp.written <= Drain(r).out
  {
    pending', expected' := pending, expected;
    ghost var now := r;
    while expected' in pending'
      invariant now == Receiver(pending', expected', r.fin, tcp.written, r.status)
      invariant Drain(now) == Drain(r) && r.out <= tcp.written && tcp.failed == old(tcp.failed)
      decreases |pending'|
    {
      now := DrainOne(now);
      var data := pending'[expected'];
      pending' := pending' - {expected'};
      if |data| > 0 {
        ok := tcp.Write(data);
        if !ok {
          DrainExtends(now);
          return;
        }
      }
      expected' := expected' + 1;
    }
    ok := true;
  }

  lemma {:induction false} DrainExtends(r: Receiver)
    ensures r.out <= Drain(r).out
    decreases |r.pending|
  {
    if r.expected in r.pending {
      DrainExtends(DrainOne(r));
    }
  }
}
