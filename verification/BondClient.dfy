/** The client's sending half over mutable lanes. Every change it makes to the
    lanes is a step of BondSender. */
module BondClient {
  import opened Bytes
  import opened BondCodec
  import opened BondSender
  import opened BondLanes
  import opened Contexts
  import opened RoundRobin

  /** The reader of a lane marks it dead when it ends, which it never does
      unless `readerEnds`; `ended` records that it has. */
  class BondClientLane {
    const stream: LaneStream
    const readerEnds: bool
    var dead: bool
    ghost var ended: bool

    constructor (stream: LaneStream, readerEnds: bool)
      ensures this.stream == stream && this.readerEnds == readerEnds && !dead && !ended
    {
      this.stream := stream;
      this.readerEnds := readerEnds;
      dead, ended := false, false;
    }

    /** Its reader never ends and no write to it ever fails. */
    predicate Lasts() {
      !readerEnds && stream.sound
    }
  }

  ghost function Streams(lanes: seq<BondClientLane>): (streams: seq<LaneStream>)
    ensures |streams| == |lanes| && forall i :: 0 <= i < |lanes| ==> streams[i] == lanes[i].stream
  {
    seq(|lanes|, i requires 0 <= i < |lanes| => lanes[i].stream)
  }

  ghost predicate Distinct(lanes: seq<BondClientLane>) {
    forall i, j :: 0 <= i < j < |lanes| ==> lanes[i] != lanes[j] && lanes[i].stream != lanes[j].stream
  }

  /** A lane is dead only because its reader ended or a write to it failed;
      `marked` says that it is dead whenever a write failed. */
  ghost predicate MarkedForCause(l: BondClientLane, marked: bool)
    reads l, l.stream
  {
    && (l.dead ==> l.ended || l.stream.failed)
    && (l.ended ==> l.readerEnds) && (l.stream.failed ==> !l.stream.sound)
    && (marked && l.stream.failed ==> l.dead)
  }

  /** From position `from` on, a lane whose write failed is marked dead. */
  ghost predicate DeadForCause(lanes: seq<BondClientLane>, from: nat)
    reads lanes, Streams(lanes)
  {
    forall i :: 0 <= i < |lanes| ==> MarkedForCause(lanes[i], from <= i)
  }

  /** The reader of a lane may end, and mark it dead, at any moment. */
  method ReadersMayFail(lanes: seq<BondClientLane>, ghost from: nat)
    requires DeadForCause(lanes, from)
    modifies lanes
    ensures forall i :: 0 <= i < |lanes| ==>
      (old(lanes[i].dead) ==> lanes[i].dead) && (old(lanes[i].ended) ==> lanes[i].ended)
    ensures DeadForCause(lanes, from)
  {
    for k := 0 to |lanes|
      invariant forall i :: 0 <= i < |lanes| ==>
        (old(lanes[i].dead) ==> lanes[i].dead) && (old(lanes[i].ended) ==> lanes[i].ended)
      invariant DeadForCause(lanes, from)
    {
      var ends: bool := *;
      if ends && lanes[k].readerEnds {
        lanes[k].ended := true;
        lanes[k].dead := true;
      }
    }
  }

  datatype Placement = Sent(lane: nat) | CtxDone | NoLiveLanes

  lemma TracksStart(lanes: seq<BondClientLane>, s0: Sender)
    requires SenderInit(s0) && s0.wires == Wires(Streams(lanes))
    requires forall l :: l in lanes ==> (l.dead ==> l.ended) && (l.ended ==> l.readerEnds)
    ensures Tracks(Streams(lanes), s0, s0) && DeadForCause(lanes, 0)
    ensures s0.phase == Reading && !s0.ended && s0.chunks == [] && Flatten(s0.chunks) == []
  {
    StartTracks(Streams(lanes), s0);
    assert forall i :: 0 <= i < |lanes| ==> lanes[i].stream.View() == s0.wires[i];
  }

  lemma Apart(lanes: seq<BondClientLane>, idx: nat)
    requires Distinct(lanes) && idx < |lanes|
    ensures DistinctStreams(Streams(lanes)) && Streams(lanes)[idx] == lanes[idx].stream
    ensures forall k :: 0 <= k < |lanes| && k != idx ==> lanes[k] != lanes[idx] && lanes[k].stream != lanes[idx].stream
  {
  }

  /** One attempt on one lane: skip it if its reader marked it dead, else write
      the frame and mark the lane dead when that fails. */
  method TryLane(lanes: seq<BondClientLane>, idx: nat, typ: byte, seqNo: uint64, data: seq<byte>,
                 ghost s0: Sender, ghost s: Sender)
    returns (ok: bool, ghost s': Sender)
    requires Distinct(lanes) && DeadForCause(lanes, 0) && idx < |lanes| && Tracks(Streams(lanes), s0, s)
    requires s.phase == Placing && HasFrame(s) && Current(s) == Frame(typ, seqNo, data)
    modifies lanes, lanes[idx].stream
    ensures DeadForCause(lanes, 0) && Tracks(Streams(lanes), s0, s') && |s'.wires| == |lanes| == |s.wires|
    ensures forall i :: 0 <= i < |lanes| && old(lanes[i].dead) ==> lanes[i].dead
    ensures ok ==>
      && s' == s.(wires := s'.wires, phase := Reading, placed := s.placed + 1)
      && s'.wires == s.wires[idx := Put(s.wires[idx], Current(s))]
    ensures !ok ==>
      && lanes[idx].dead
      && s' == s.(wires := s'.wires) && SameAccepted(s.wires, s'.wires, -1)
  {
    hide SenderInv, Reaches, Tracks, Encode, Current, Put, HasFrame, Distinct, DistinctStreams;
    Apart(lanes, idx);
    TracksFacts(Streams(lanes), s0, s);
    ReadersMayFail(lanes, 0);
    ok, s' := false, s;
    if !lanes[idx].dead {
      ghost var on;
      ok, on, s' := WriteStep(lanes[idx].stream, Streams(lanes), idx, typ, seqNo, data, true, s0, s);
      if !ok {
        lanes[idx].dead := true;
      }
    }
  }

  ghost function Dead(lanes: seq<BondClientLane>): (dead: seq<bool>)
    reads lanes
    ensures |dead| == |lanes| && forall i :: 0 <= i < |lanes| ==> dead[i] == lanes[i].dead
  {
    seq(|lanes|, i requires 0 <= i < |lanes| reads lanes => lanes[i].dead)
  }

  /** The lanes of the first `m` attempts from a cursor are dead. */
  ghost predicate TriedAreDead(dead: seq<bool>, start: uint64, m: nat) {
    dead != [] ==> forall i: nat :: i < m ==> dead[Visit(start, i, |dead|)]
  }

  lemma OneMoreIsDead(dead: seq<bool>, dead': seq<bool>, start: uint64, m: nat)
    requires dead != [] && |dead| == |dead'| && TriedAreDead(dead, start, m)
    requires forall i :: 0 <= i < |dead| && dead[i] ==> dead'[i]
    ensures TriedAreDead(dead', start, m)
    ensures dead'[Visit(start, m, |dead|)] ==> TriedAreDead(dead', start, m + 1)
  {
    hide Visit;
  }

  lemma AllAreDead(dead: seq<bool>, start: uint64)
    requires 0 < |dead| <= TWO64 && Seamless(start, |dead|) && TriedAreDead(dead, start, |dead|)
    ensures forall i :: 0 <= i < |dead| ==> dead[i]
  {
    hide Visit, Seamless;
    SeamlessVisitsAll(start, |dead|);
    forall i | 0 <= i < |dead|
      ensures dead[i]
    {
      assert IsVisited(start, |dead|, i);
    }
  }

  /** One attempt of a call: the lane at the cursor, which moves on. */
  method Attempt(lanes: seq<BondClientLane>, cursor: uint64, typ: byte, seqNo: uint64, data: seq<byte>,
                 ghost start: uint64, ghost attempts: nat, ghost s0: Sender, ghost s: Sender)
    returns (ok: bool, wasDead: bool, idx: nat, cursor': uint64, ghost s': Sender)
    requires lanes != [] && Distinct(lanes) && DeadForCause(lanes, 0) && Tracks(Streams(lanes), s0, s)
    requires s.phase == Placing && HasFrame(s) && Current(s) == Frame(typ, seqNo, data)
    requires cursor == Cursor(start, attempts) && TriedAreDead(Dead(lanes), start, attempts)
    modifies lanes, Streams(lanes)
    ensures idx == Visit(start, attempts, |lanes|) && cursor' == Cursor(start, attempts + 1)
    ensures TriedAreDead(Dead(lanes), start, if ok then attempts else attempts + 1)
    ensures DeadForCause(lanes, 0) && Tracks(Streams(lanes), s0, s') && |s'.wires| == |lanes| == |s.wires|
    ensures ok ==>
      && s' == s.(wires := s'.wires, phase := Reading, placed := s.placed + 1)
      && s'.wires == s.wires[idx := Put(s.wires[idx], Current(s))]
    ensures !ok ==> s' == s.(wires := s'.wires) && SameAccepted(s.wires, s'.wires, -1)
  {
    hide SenderInv, Reaches, Tracks, DeadForCause, Distinct, Encode, Visit, Cursor, Advance, LaneAt, TriedAreDead;
    hide Put, Current, HasFrame;
    idx := LaneAt(cursor, |lanes|);
    VisitIs(start, attempts, |lanes|);
    CursorAdvances(start, attempts);
    cursor' := Advance(cursor);
    wasDead := lanes[idx].dead;
    ghost var dead := Dead(lanes);
    ok, s' := TryLane(lanes, idx, typ, seqNo, data, s0, s);
    OneMoreIsDead(dead, Dead(lanes), start, attempts);
  }

  lemma SameFrame(s1: Sender, s: Sender)
    requires HasFrame(s1) && s == s1.(wires := s.wires)
    ensures HasFrame(s) && Current(s) == Current(s1)
  {
  }

  lemma StillAccepted(a: seq<Wire>, b: seq<Wire>, c: seq<Wire>)
    requires SameAccepted(a, b, -1)
    ensures SameAccepted(b, c, -1) ==> SameAccepted(a, c, -1)
  {
  }

  lemma AcceptedOnce(a: seq<Wire>, b: seq<Wire>, idx: nat, f: Frame)
    requires SameAccepted(a, b, -1) && idx < |b|
    ensures
      var c := b[idx := Put(b[idx], f)];
      SameAccepted(a, c, idx) && c[idx].accepted == a[idx].accepted + [f]
  {
  }

  lemma NothingAccepted(a: seq<Wire>)
    ensures SameAccepted(a, a, -1)
  {
  }

  ghost predicate AllDead(lanes: seq<BondClientLane>)
    reads lanes
  {
    forall i :: 0 <= i < |lanes| ==> lanes[i].dead
  }

  lemma AllDeadIs(lanes: seq<BondClientLane>)
    requires forall i :: 0 <= i < |lanes| ==> Dead(lanes)[i]
    ensures AllDead(lanes)
  {
    forall i | 0 <= i < |lanes|
      ensures lanes[i].dead
    {
      assert Dead(lanes)[i];
    }
  }

  /** Tries the lanes in turn, starting at the cursor, skipping dead ones. */
  method WriteBondFrameToNextLane(ctx: Context, lanes: seq<BondClientLane>, typ: byte, seqNo: uint64, data: seq<byte>,
                                  laneIdx: uint64, ghost s0: Sender, ghost s1: Sender)
    returns (r: Placement, laneIdx': uint64, ghost s: Sender, ghost tries: nat)
    requires |lanes| <= TWO64 && Distinct(lanes) && DeadForCause(lanes, 0) && Tracks(Streams(lanes), s0, s1)
    requires s1.phase == Placing && HasFrame(s1) && Current(s1) == Frame(typ, seqNo, data) && ctx.Valid()
    modifies lanes, Streams(lanes), ctx`done
    ensures DeadForCause(lanes, 0) && Tracks(Streams(lanes), s0, s) && ctx.Valid()
    ensures s == if r.Sent? then s1.(wires := s.wires, phase := Reading, placed := s1.placed + 1)
                 else s1.(wires := s.wires)
    // Exactly the returned lane gained an accepted frame, namely this one.
    ensures SameAccepted(s1.wires, s.wires, if r.Sent? then r.lane else -1)
    ensures r.Sent? ==> r.lane < |lanes| && s.wires[r.lane].accepted == s1.wires[r.lane].accepted + [Current(s1)]
    // The lanes were tried in turn from the cursor, and all tried in vain are dead.
    ensures tries <= |lanes| && laneIdx' == Cursor(laneIdx, tries)
    ensures r.Sent? ==> tries > 0 && r.lane == Visit(laneIdx, tries - 1, |lanes|)
    ensures TriedAreDead(Dead(lanes), laneIdx, if r.Sent? && tries > 0 then tries - 1 else tries)
    // It stops early only when cancelled.
    ensures (r == CtxDone ==> ctx.done) && (r == NoLiveLanes ==> tries == |lanes| && !ctx.done)
    // "No live lanes" is reported only when all are dead, wrap-around aside.
    ensures r == NoLiveLanes && lanes != [] && Seamless(laneIdx, |lanes|) ==>
      AllDead(lanes)
  {
    hide *;
    NothingAccepted(s1.wires);
    TracksFacts(Streams(lanes), s0, s1);
    CursorAdvances(laneIdx, 0);
    NoneTried(Dead(lanes), laneIdx);
    laneIdx' := laneIdx;
    s := s1;
    var attempts := 0;
    while attempts < |lanes|
      invariant attempts <= |lanes| && laneIdx' == Cursor(laneIdx, attempts)
      invariant DeadForCause(lanes, 0) && Tracks(Streams(lanes), s0, s) && ctx.Valid()
      invariant s == s1.(wires := s.wires) && SameAccepted(s1.wires, s.wires, -1)
      invariant TriedAreDead(Dead(lanes), laneIdx, attempts)
    {
      SameFrame(s1, s);
      ghost var wires := s.wires;
      var ok, wasDead, idx;
      ok, wasDead, idx, laneIdx', s := Attempt(lanes, laneIdx', typ, seqNo, data, laneIdx, attempts, s0, s);
      StillAccepted(s1.wires, wires, s.wires);
      attempts := attempts + 1;
      if ok {
        AcceptedOnce(s1.wires, wires, idx, Current(s1));
        return Sent(idx), laneIdx', s, attempts;
      }
      if !wasDead {
        var done := ctx.Done();
        if done {
          return CtxDone, laneIdx', s, attempts;
        }
      }
    }
    tries := attempts;
    var done := ctx.Done();
    if done {
      return CtxDone, laneIdx', s, tries;
    }
    if lanes != [] && Seamless(laneIdx, |lanes|) {
      AllAreDead(Dead(lanes), laneIdx);
      AllDeadIs(lanes);
    }
    r := NoLiveLanes;
  }

  lemma NoneTried(dead: seq<bool>, start: uint64)
    ensures TriedAreDead(dead, start, 0)
  {
  }

  /** The lane has taken the FIN, once, or no frame at all, when its reader had
      ended or a write to it fails; which a lane that lasts knows nothing of. */
  ghost predicate FinOffered(l: BondClientLane, before: seq<Frame>, fin: Frame)
    reads l, l.stream
  {
    l.stream.accepted == before + [fin] || (l.stream.accepted == before && Lost(l) && !l.Lasts())
  }

  /** One chunk of the input, numbered and placed on some lane, unless the
      context is done or all lanes are dead, a cursor jump aside. */
  method PlaceChunk(ctx: Context, lanes: seq<BondClientLane>, data: seq<byte>, seqNo: uint64, laneIdx: uint64,
                    ghost s0: Sender, ghost s1: Sender)
    returns (placed: bool, laneIdx': uint64, ghost s: Sender)
    requires |lanes| <= TWO64 && Distinct(lanes) && DeadForCause(lanes, 0) && Tracks(Streams(lanes), s0, s1)
    requires s1.phase == Reading && seqNo == |s1.chunks| && |s1.chunks| + 1 < TWO64 && ctx.Valid()
    requires 1 <= |data| <= MAX_CHUNK && Flatten(s1.chunks) + data <= s1.input
    modifies lanes, Streams(lanes), ctx`done
    ensures DeadForCause(lanes, 0) && Tracks(Streams(lanes), s0, s) && ctx.Valid()
    ensures s.chunks == s1.chunks + [data] && Flatten(s.chunks) == Flatten(s1.chunks) + data
    ensures s.input == s1.input && s.ended == s1.ended && |s.chunks| < TWO64
    ensures if placed then s.phase == Reading else s.placed < |s.chunks|
    ensures laneIdx' <= laneIdx + |lanes|
    ensures !placed ==> ctx.done || lanes == [] || !Seamless(laneIdx, |lanes|) || AllDead(lanes)
  {
    hide *;
    s := Cutting(Streams(lanes), data, s0, s1);
    var r;
    ghost var tries;
    r, laneIdx', s, tries := WriteBondFrameToNextLane(ctx, lanes, FRAME_DATA, seqNo, data, laneIdx, s0, s);
    CursorAtMost(laneIdx, tries);
    placed := r.Sent?;
  }

  /** A cursor that starts at zero and makes `calls` passes over n lanes meets
      no jump. */
  predicate NoJump(calls: nat, n: nat) {
    n > 0 && (calls * n <= TWO64 || TWO64 % n == 0)
  }

  lemma PassesBefore(calls: nat, n: nat, done: nat)
    requires done < calls
    ensures done * n + n <= calls * n
  {
    assert calls * n == done * n + n + (calls - done - 1) * n;
  }

  lemma NoJumpYet(calls: nat, n: nat, done: nat, laneIdx: uint64)
    requires NoJump(calls, n) && done < calls && laneIdx <= done * n
    ensures Seamless(laneIdx, n)
  {
    PassesBefore(calls, n, done);
  }

  /** A lane that lost its reader or had a failed write. */
  ghost predicate Lost(l: BondClientLane)
    reads l, l.stream
  {
    l.ended || l.stream.failed
  }

  ghost predicate AllLost(lanes: seq<BondClientLane>)
    reads lanes, Streams(lanes)
  {
    forall i :: 0 <= i < |lanes| ==> Lost(lanes[i])
  }

  lemma DeadMeansLost(lanes: seq<BondClientLane>)
    requires DeadForCause(lanes, 0) && AllDead(lanes)
    ensures AllLost(lanes)
  {
  }

  lemma LastingNotLost(lanes: seq<BondClientLane>)
    requires DeadForCause(lanes, |lanes|) && AllLost(lanes)
    ensures forall i :: 0 <= i < |lanes| ==> !lanes[i].Lasts()
  {
  }

  /** The upload loop: number the chunks, place each on some lane, then offer
      the FIN to every lane that is not dead. */
  method CopyTcpToBond(ctx: Context, src: TcpSource, lanes: seq<BondClientLane>, ghost s0: Sender)
    returns (exit: Exit, ghost s: Sender)
    requires |lanes| <= TWO64 && Distinct(lanes) && |src.input| + 1 < TWO64 && src.taken == [] && ctx.Valid()
    requires forall l :: l in lanes ==> (l.dead ==> l.ended) && (l.ended ==> l.readerEnds)
    requires SenderInit(s0) && s0.wires == Wires(Streams(lanes)) && s0.input == src.input
    modifies src, lanes, Streams(lanes), ctx`done
    ensures Tracks(Streams(lanes), s0, s) && Flatten(s.chunks) == src.taken
    ensures s.ended <==> exit == Finished
    ensures exit == Abandoned ==> s.placed < |s.chunks|
    ensures exit == Finished ==> |s.chunks| < TWO64 && (src.broken || (s.atEof && src.taken == src.input))
    // Every lane still in use has taken the FIN.
    ensures exit == Finished ==>
      forall i :: 0 <= i < |lanes| ==> Lost(lanes[i]) || Frame(FRAME_FIN, |s.chunks|, []) in lanes[i].stream.accepted
    // It gives up only when cancelled or without lanes, a cursor jump aside.
    ensures exit == Cancelled ==> ctx.done
    ensures exit == Abandoned && NoJump(|src.input|, |lanes|) ==> ctx.done || AllLost(lanes)
    // Uncancelled, and with one lane that lasts, the whole input goes out.
    ensures !ctx.cancelled && !src.broken && NoJump(|src.input|, |lanes|) && (exists l :: l in lanes && l.Lasts()) ==>
      && exit == Finished && s.atEof && src.taken == src.input
      && forall i :: 0 <= i < |lanes| && lanes[i].Lasts() ==>
           Frame(FRAME_FIN, |s.chunks|, []) in lanes[i].stream.accepted
  {
    hide DeadForCause, Tracks, Flatten, Streams, Distinct, SenderInit, Wires, Seamless, NoJump, AllLost, Lost, AllDead;
    var seqNo: uint64 := 0;
    var laneIdx: uint64 := 0;
    s := s0;
    TracksStart(lanes, s0);
    var end := More;
    while end == More
      invariant DeadForCause(lanes, 0) && Tracks(Streams(lanes), s0, s) && ctx.Valid()
      invariant s.phase == Reading && !s.ended && seqNo == |s.chunks| && s.input == src.input
      invariant |s.chunks| <= |src.taken| <= |src.input| && laneIdx <= seqNo * |lanes|
      invariant Flatten(s.chunks) == src.taken <= src.input
      invariant (end == Eof ==> src.taken == src.input) && (end == Failed ==> src.broken)
      decreases end == More, |src.input| - |src.taken|, src.idle
    {
      var data;
      data, end := src.Read(MAX_CHUNK);
      if |data| > 0 {
        var placed;
        ghost var start := laneIdx;
        placed, laneIdx, s := PlaceChunk(ctx, lanes, data, seqNo, laneIdx, s0, s);
        if !placed {
          GivenUp(ctx, lanes, |src.input|, seqNo, start);
          return Abandoned, s;
        }
        OneMorePass(seqNo, |lanes|);
        seqNo := seqNo + 1;
      }
      if end == More {
        var done := ctx.Done();
        if done {
          return Cancelled, s;
        }
      }
    }
    s := SendFins(lanes, seqNo, end == Eof, s0, s);
    exit := Finished;
  }

  lemma OneMorePass(done: nat, n: nat)
    ensures done * n + n == (done + 1) * n
  {
  }

  /** What it means that a chunk was not placed. */
  lemma GivenUp(ctx: Context, lanes: seq<BondClientLane>, calls: nat, done: nat, laneIdx: uint64)
    requires DeadForCause(lanes, 0) && done < calls && laneIdx <= done * |lanes|
    requires ctx.done || lanes == [] || !Seamless(laneIdx, |lanes|) || AllDead(lanes)
    ensures NoJump(calls, |lanes|) ==> ctx.done || AllLost(lanes)
    ensures AllLost(lanes) ==> forall l :: l in lanes ==> !l.Lasts()
  {
    hide Seamless, AllDead, DeadForCause, AllLost;
    if NoJump(calls, |lanes|) {
      NoJumpYet(calls, |lanes|, done, laneIdx);
      if AllDead(lanes) {
        DeadMeansLost(lanes);
      }
    }
    if AllLost(lanes) {
      WeakerCause(lanes, 0);
      LastingNotLost(lanes);
    }
  }

  lemma WeakerCause(lanes: seq<BondClientLane>, from: nat)
    requires DeadForCause(lanes, from)
    ensures DeadForCause(lanes, |lanes|)
  {
  }

  /** Offers the FIN once to every lane not marked dead; failures are ignored. */
  method SendFins(lanes: seq<BondClientLane>, seqNo: uint64, ghost atEof: bool, ghost s0: Sender, ghost s1: Sender)
    returns (ghost s: Sender)
    requires Distinct(lanes) && DeadForCause(lanes, 0) && Tracks(Streams(lanes), s0, s1)
    requires s1.phase == Reading && seqNo == |s1.chunks| && (atEof ==> Flatten(s1.chunks) == s1.input)
    modifies lanes, Streams(lanes)
    ensures Tracks(Streams(lanes), s0, s) && s == s1.(wires := s.wires, phase := Finning, ended := true, atEof := atEof)
    ensures forall i :: 0 <= i < |lanes| ==>
      FinOffered(lanes[i], old(lanes[i].stream.accepted), Frame(FRAME_FIN, seqNo, []))
  {
    hide DeadForCause, Tracks, Flatten, Distinct, SenderInv, Reaches, Encode;
    s := Ending(Streams(lanes), atEof, s0, s1);
    ghost var s2 := s;
    for i := 0 to |lanes|
      invariant DeadForCause(lanes, i) && Tracks(Streams(lanes), s0, s) && s == s2.(wires := s.wires)
      invariant forall j :: 0 <= j < i ==>
        FinOffered(lanes[j], old(lanes[j].stream.accepted), Frame(FRAME_FIN, seqNo, []))
      invariant forall j :: i <= j < |lanes| ==> lanes[j].stream.accepted == old(lanes[j].stream.accepted)
    {
      label Before:
      s := OfferFin(lanes, i, seqNo, s0, s);
      assert StillLost@Before(lanes);
    }
  }

  /** Between two states, no lane lost so far is as good as new. */
  twostate predicate StillLost(lanes: seq<BondClientLane>)
    reads lanes, Streams(lanes)
  {
    forall i :: 0 <= i < |lanes| && old(Lost(lanes[i])) ==> Lost(lanes[i])
  }

  /** The FIN for one lane; the lanes before it stay offered. */
  method OfferFin(lanes: seq<BondClientLane>, i: nat, seqNo: uint64, ghost s0: Sender, ghost s: Sender)
    returns (ghost s': Sender)
    requires Distinct(lanes) && i < |lanes| && DeadForCause(lanes, i) && Tracks(Streams(lanes), s0, s)
    requires s.phase == Finning && HasFrame(s) && Current(s) == Frame(FRAME_FIN, seqNo, [])
    modifies lanes, Streams(lanes)
    ensures Tracks(Streams(lanes), s0, s') && s' == s.(wires := s'.wires) && DeadForCause(lanes, i + 1)
    ensures StillLost(lanes) && FinOffered(lanes[i], old(lanes[i].stream.accepted), Frame(FRAME_FIN, seqNo, []))
    ensures forall j :: 0 <= j < |lanes| && j != i ==> lanes[j].stream.accepted == old(lanes[j].stream.accepted)
  {
    hide SenderInv, Reaches, Tracks, Encode, Current, HasFrame, Distinct, DistinctStreams;
    Apart(lanes, i);
    TracksFacts(Streams(lanes), s0, s);
    ReadersMayFail(lanes, i);
    s' := s;
    if !lanes[i].dead {
      var ok;
      ghost var on;
      ok, on, s' := WriteStep(lanes[i].stream, Streams(lanes), i, FRAME_FIN, seqNo, [], true, s0, s);
    }
  }
}
