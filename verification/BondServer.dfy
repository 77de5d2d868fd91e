/** The server's sending half: lanes attach and detach while it runs, and each
    pass over the lanes works on a snapshot of the list. */
module BondServer {
  import opened Bytes
  import opened Options
  import opened BondCodec
  import opened BondSender
  import opened BondLanes
  import opened Contexts
  import opened RoundRobin

  /** A lane leaves when its reader ends, which it never does unless
      `readerEnds`. A `late` lane attaches only while the FINs go out. */
  class BondServerLane {
    const index: uint16
    const stream: LaneStream
    const readerEnds: bool
    ghost const late: bool

    constructor (index: uint16, stream: LaneStream, readerEnds: bool, ghost late: bool)
      ensures this.index == index && this.stream == stream && this.readerEnds == readerEnds && this.late == late
    {
      this.index := index;
      this.stream := stream;
      this.readerEnds := readerEnds;
      this.late := late;
    }

    /** Its reader never ends and no write to it ever fails. */
    ghost predicate Lasts() {
      !readerEnds && stream.sound
    }
  }

  ghost function Streams(lanes: seq<BondServerLane>): (streams: seq<LaneStream>)
    ensures |streams| == |lanes| && forall i :: 0 <= i < |lanes| ==> streams[i] == lanes[i].stream
  {
    seq(|lanes|, i requires 0 <= i < |lanes| => lanes[i].stream)
  }

  ghost predicate NoRepeats(lanes: seq<BondServerLane>) {
    forall i, j :: 0 <= i < j < |lanes| ==> lanes[i] != lanes[j]
  }

  /** The list without the first occurrence of a lane. */
  function Without(lanes: seq<BondServerLane>, l: BondServerLane): (rest: seq<BondServerLane>)
    ensures forall x :: x in rest ==> x in lanes
    ensures forall x :: x in lanes && x != l ==> x in rest
    ensures if l in lanes then |rest| == |lanes| - 1 else rest == lanes
  {
    if lanes == [] then [] else if lanes[0] == l then lanes[1..] else [lanes[0]] + Without(lanes[1..], l)
  }

  lemma {:induction false} WithoutAt(lanes: seq<BondServerLane>, l: BondServerLane, i: nat)
    requires i <= |lanes| && l !in lanes[..i] && (i < |lanes| ==> lanes[i] == l)
    ensures Without(lanes, l) == if i < |lanes| then lanes[..i] + lanes[i + 1..] else lanes
  {
    if i > 0 {
      assert lanes[0] == lanes[..i][0];
      assert lanes[1..][..i - 1] == lanes[..i][1..];
      WithoutAt(lanes[1..], l, i - 1);
    }
  }

  lemma CutNoRepeats(lanes: seq<BondServerLane>, i: nat)
    requires NoRepeats(lanes) && i < |lanes|
    ensures NoRepeats(lanes[..i] + lanes[i + 1..]) && lanes[i] !in lanes[..i] + lanes[i + 1..]
  {
    var rest := lanes[..i] + lanes[i + 1..];
    assert forall k :: 0 <= k < |rest| ==> rest[k] == if k < i then lanes[k] else lanes[k + 1];
  }

  lemma {:induction false} WithoutNoRepeats(lanes: seq<BondServerLane>, l: BondServerLane, i: nat)
    requires NoRepeats(lanes)
    requires i <= |lanes| && l !in lanes[..i] && (i < |lanes| ==> lanes[i] == l)
    ensures NoRepeats(Without(lanes, l)) && l !in Without(lanes, l)
  {
    hide Without;
    WithoutAt(lanes, l, i);
    if i == |lanes| {
      assert lanes[..i] == lanes;
    } else {
      CutNoRepeats(lanes, i);
    }
  }

  datatype Placement = Sent | CtxDone | LanesGone

  /** The length of a slice is a signed 64-bit integer. */
  const MAX_LANES := 0x7FFF_FFFF_FFFF_FFFF

  lemma SubsetSize<T>(a: set<T>, b: set<T>)
    requires a <= b
    ensures |a| <= |b| && (a != b ==> |a| < |b|)
  {
    var rest := b - a;
    assert b == a + rest;
  }

  lemma {:induction false} SizeInSeq<T>(a: set<T>, elems: seq<T>)
    requires forall x :: x in a ==> x in elems
    ensures |a| <= |elems|
  {
    if elems == [] {
      assert a == {};
    } else {
      var last := elems[|elems| - 1];
      assert elems == elems[..|elems| - 1] + [last];
      SizeInSeq(a - {last}, elems[..|elems| - 1]);
      SubsetSize(a, (a - {last}) + {last});
    }
  }

  /** From the one pair of attached and listed lanes to the other, lanes have
      attached, all of them late or none, and lanes have left the list; none
      that has left is listed again. */
  ghost predicate Grew(attached: seq<BondServerLane>, lanes: seq<BondServerLane>,
                       attached': seq<BondServerLane>, lanes': seq<BondServerLane>, late: bool)
  {
    && attached <= attached'
    && (forall i :: |attached| <= i < |attached'| ==> attached'[i].late == late)
    && (forall l :: l in lanes' ==> l in lanes || l !in attached)
    && (attached' == attached ==> lanes' == lanes || |lanes'| < |lanes|)
  }

  lemma GrewOn(attached: seq<BondServerLane>, lanes: seq<BondServerLane>,
               mid: seq<BondServerLane>, listed: seq<BondServerLane>,
               attached': seq<BondServerLane>, lanes': seq<BondServerLane>, late: bool)
    requires Grew(attached, lanes, mid, listed, late)
    ensures Grew(mid, listed, attached', lanes', late) ==> Grew(attached, lanes, attached', lanes', late)
  {
    if Grew(mid, listed, attached', lanes', late) {
      assert forall i :: 0 <= i < |mid| ==> attached'[i] == mid[i];
      assert forall i :: 0 <= i < |attached| ==> mid[i] == attached[i];
    }
  }

  lemma GrewNone(attached: seq<BondServerLane>, lanes: seq<BondServerLane>, late: bool)
    ensures Grew(attached, lanes, attached, lanes, late)
  {
  }

  lemma GrewMeans(attached: seq<BondServerLane>, lanes: seq<BondServerLane>,
                  attached': seq<BondServerLane>, lanes': seq<BondServerLane>, late: bool)
    requires Grew(attached, lanes, attached', lanes', late)
    ensures forall l :: l in attached ==> l in attached'
    ensures forall l :: l in lanes' ==> l in lanes || l !in attached
    ensures forall l :: l in attached' && l.late != late ==> l in attached
  {
    forall l | l in attached
      ensures l in attached'
    {
      var k :| 0 <= k < |attached| && attached[k] == l;
      assert attached'[k] == l;
    }
  }

  /** The attached lanes that are off the list. */
  ghost function OffList(attached: seq<BondServerLane>, lanes: seq<BondServerLane>): set<BondServerLane> {
    set l | l in attached && l !in lanes
  }

  lemma OffListGrows(attached: seq<BondServerLane>, lanes: seq<BondServerLane>,
                     attached': seq<BondServerLane>, lanes': seq<BondServerLane>, late: bool)
    requires Grew(attached, lanes, attached', lanes', late)
    ensures OffList(attached, lanes) <= OffList(attached', lanes')
    ensures forall l :: l in lanes ==>
      l !in OffList(attached, lanes) && (l in attached ==> l in lanes' || l in OffList(attached', lanes'))
    ensures forall l :: l in lanes' ==> l !in OffList(attached, lanes)
  {
  }

  lemma NoFewerOff(attached: seq<BondServerLane>, lanes: seq<BondServerLane>,
                   attached': seq<BondServerLane>, lanes': seq<BondServerLane>)
    requires Grew(attached, lanes, attached', lanes', false)
    ensures |OffList(attached, lanes)| <= |OffList(attached', lanes')|
  {
    OffListGrows(attached, lanes, attached', lanes', false);
    SubsetSize(OffList(attached, lanes), OffList(attached', lanes'));
  }

  /** What `tries` attempts from a cursor mean for the lanes' following the
      abstract sender: they go on doing so unless the cursor passes 2^64, and not
      before there are that many lanes; and each attempt counts for one more in
      `failed`, the lanes with a failed write and the frame placed. */
  predicate Steady(on: bool, on': bool, cursor: uint64, tries: nat, failed: nat, failed': nat, limit: nat) {
    && (on' ==> on) && (on && cursor + tries <= TWO64 ==> on')
    && (on && cursor + 1 + limit <= TWO64 + failed ==> on')
    && (on' ==> tries + failed == failed')
  }

  lemma SteadyOn(on: bool, mid: bool, on': bool, cursor: uint64, tries: nat, more: nat,
                 failed: nat, failedMid: nat, failed': nat, limit: nat)
    requires Steady(on, mid, cursor, tries, failed, failedMid, limit)
    requires Steady(mid, on', Cursor(cursor, tries), more, failedMid, failed', limit)
    ensures Steady(on, on', cursor, tries + more, failed, failed', limit) && (on' ==> mid)
    ensures Cursor(Cursor(cursor, tries), more) == Cursor(cursor, tries + more)
  {
    CursorSum(cursor, tries, more);
    CursorAtMost(cursor, tries);
  }

  lemma SteadySelf(on: bool, cursor: uint64, failed: nat, limit: nat)
    ensures Steady(on, on, cursor, 0, failed, failed, limit)
  {
  }

  lemma SteadyMeans(on: bool, on': bool, cursor: uint64, tries: nat, failed: nat, failed': nat, limit: nat)
    requires Steady(on, on', cursor, tries, failed, failed', limit)
    ensures on' ==> on && tries + failed == failed'
    ensures on && cursor + 1 + limit <= TWO64 + failed ==> on'
  {
  }

  /** One more attempt keeps it, if it is one without a jump. */
  lemma SteadyAttempt(on: bool, mid: bool, on': bool, cursor: uint64, tries: nat,
                      failed: nat, failedMid: nat, failed': nat, limit: nat)
    requires Steady(on, mid, cursor, tries, failed, failedMid, limit) && failedMid <= limit
    requires (on' ==> mid) && (mid && cursor + tries + 1 <= TWO64 ==> on') && (on' ==> failedMid + 1 == failed')
    ensures Steady(on, on', cursor, tries + 1, failed, failed', limit)
  {
  }

  /** The lanes of the first attempts of a pass have left the list. */
  ghost predicate TriedHaveLeft(snapshot: seq<BondServerLane>, start: uint64, attempts: nat,
                                attached: seq<BondServerLane>, lanes: seq<BondServerLane>)
  {
    && (forall l :: l in snapshot ==> l in attached)
    && (snapshot != [] ==> forall k: nat :: k < attempts ==> snapshot[Visit(start, k, |snapshot|)] !in lanes)
  }

  lemma NoneLeft(snapshot: seq<BondServerLane>, start: uint64, attached: seq<BondServerLane>)
    requires forall l :: l in snapshot ==> l in attached
    ensures TriedHaveLeft(snapshot, start, 0, attached, snapshot)
  {
  }

  /** Those that have left stay away, and one that was tried in vain joins them. */
  lemma StillLeft(snapshot: seq<BondServerLane>, start: uint64, attempts: nat,
                  attached: seq<BondServerLane>, lanes: seq<BondServerLane>,
                  attached': seq<BondServerLane>, lanes': seq<BondServerLane>)
    requires TriedHaveLeft(snapshot, start, attempts, attached, lanes)
    requires Grew(attached, lanes, attached', lanes', false)
    ensures TriedHaveLeft(snapshot, start, attempts, attached', lanes')
    ensures snapshot != [] && snapshot[Visit(start, attempts, |snapshot|)] !in lanes' ==>
      TriedHaveLeft(snapshot, start, attempts + 1, attached', lanes')
  {
    hide Visit;
  }

  lemma AllVisited(snapshot: seq<BondServerLane>, start: uint64,
                   attached: seq<BondServerLane>, lanes: seq<BondServerLane>)
    requires 0 < |snapshot| && start + |snapshot| <= TWO64
    requires TriedHaveLeft(snapshot, start, |snapshot|, attached, lanes)
    ensures forall l :: l in snapshot ==> l !in lanes
  {
    SeamlessVisitsAll(start, |snapshot|);
    hide Visit;
    forall k | 0 <= k < |snapshot|
      ensures snapshot[k] !in lanes
    {
      assert IsVisited(start, |snapshot|, k);
    }
  }

  /** After a pass in vain, more lanes are off the list than at its beginning;
      without a cursor jump, all that were listed then. */
  lemma PassedOver(snapshot: seq<BondServerLane>, start: uint64, lanes0: seq<BondServerLane>, off0: set<BondServerLane>,
                   off1: set<BondServerLane>, attached: seq<BondServerLane>, lanes: seq<BondServerLane>)
    requires |snapshot| <= TWO64 && TriedHaveLeft(snapshot, start, |snapshot|, attached, lanes)
    requires off0 <= off1 <= OffList(attached, lanes)
    requires forall l :: l in snapshot ==> l !in off0
    requires forall l :: l in lanes0 ==> l !in off0 && (l in snapshot || l in off1)
    ensures lanes0 != [] ==> |OffList(attached, lanes)| > |off0|
    ensures start + |snapshot| <= TWO64 ==> forall l :: l in lanes0 ==> l !in lanes
  {
    hide Visit, Seamless;
    SubsetSize(off0, OffList(attached, lanes));
    if snapshot == [] {
      if lanes0 != [] {
        assert lanes0[0] in OffList(attached, lanes);
      }
    } else {
      var v := snapshot[Visit(start, 0, |snapshot|)];
      assert v in snapshot && v in OffList(attached, lanes);
      if start + |snapshot| <= TWO64 {
        AllVisited(snapshot, start, attached, lanes);
      }
    }
  }

  /** When nothing interferes, the first lane tried is the one at the cursor. */
  lemma TriedInTurn(snapshot: seq<BondServerLane>, start: uint64, k: nat, attached: seq<BondServerLane>)
    requires k < |snapshot| && TriedHaveLeft(snapshot, start, k, attached, snapshot)
    ensures k == 0 && LaneAt(start, |snapshot|) == Visit(start, 0, |snapshot|)
  {
    hide Visit, Cursor, LaneAt;
    VisitIs(start, 0, |snapshot|);
    CursorAdvances(start, 0);
    assert snapshot[Visit(start, 0, |snapshot|)] in snapshot;
  }

  /** Lanes that are as they were have not changed in between. */
  lemma NothingHappened(attached: seq<BondServerLane>, lanes: seq<BondServerLane>,
                        mid: seq<BondServerLane>, listed: seq<BondServerLane>)
    requires Grew(attached, lanes, mid, listed, false) && Grew(mid, listed, attached, lanes, false)
    ensures mid == attached && listed == lanes
  {
  }

  class BondServerConn {
    const ctx: Context
    /** No more lanes than this ever attach, `room` of them from now on. */
    ghost const limit: nat
    var room: nat
    var lanes: seq<BondServerLane>
    var want: uint16
    /** Every lane ever attached, in order of attachment. */
    ghost var attached: seq<BondServerLane>
    /** The lanes whose readers have ended. */
    ghost var ended: set<BondServerLane>

    constructor (ctx: Context, limit: nat)
      ensures Valid() && attached == [] && lanes == [] && want == 0 && this.ctx == ctx && this.limit == room == limit
    {
      this.ctx := ctx;
      this.limit, room := limit, limit;
      lanes, want, attached, ended := [], 0, [], {};
    }

    ghost predicate Listed()
      reads this
    {
      && NoRepeats(lanes) && |lanes| <= MAX_LANES && |attached| + room <= limit
      && DistinctStreams(Streams(attached))
      && (forall l :: l in lanes ==> l in attached)
    }

    /** A lane is off the list because its reader ended or a write to it failed. */
    ghost predicate Explained()
      reads this, Streams(attached)
    {
      forall l :: l in attached ==>
        && (l !in lanes ==> l in ended || l.stream.failed)
        && (l in ended ==> l.readerEnds) && (l.stream.failed ==> !l.stream.sound)
    }

    /** A lane whose write failed is no longer listed. */
    ghost predicate Valid()
      reads this, Streams(attached)
    {
      Listed() && Explained() && forall l :: l in lanes ==> l in attached && !l.stream.failed
    }

    /** The reader that ends last cancels the connection. */
    ghost predicate Alive()
      reads this, ctx
    {
      ctx.Valid() && (lanes == [] ==> ctx.done)
    }

    /** While `on`, the lanes are in a state that the abstract sender reaches. */
    ghost predicate Follows(on: bool, s0: Sender, s: Sender)
      reads this, Streams(attached)
    {
      on ==> Tracks(Streams(attached), s0, s)
    }

    /** The lanes that a write has failed on. */
    ghost function FailedLanes(): set<BondServerLane>
      reads this, Streams(attached)
    {
      set l | l in attached && l.stream.failed
    }

    lemma AtMostLimit()
      requires Listed()
      ensures |FailedLanes()| <= limit && |OffList(attached, lanes)| <= limit
    {
      SizeInSeq(FailedLanes(), attached);
      SizeInSeq(OffList(attached, lanes), attached);
    }

    method AddLane(l: BondServerLane, laneCount: uint16)
      requires Listed() && |lanes| < MAX_LANES && |attached| + room < limit && l.stream.View() == NEW_WIRE
      requires l !in attached && l.stream !in Streams(attached) && l !in ended
      modifies this`lanes, this`want, this`attached
      ensures Listed() && (old(Valid()) ==> Valid()) && (old(Explained()) ==> Explained())
      ensures lanes == old(lanes) + [l] && attached == old(attached) + [l]
      ensures want == if laneCount > old(want) then laneCount else old(want)
    {
      if laneCount > want {
        want := laneCount;
      }
      lanes := lanes + [l];
      attached := attached + [l];
      assert attached[|attached| - 1] == l;
    }

    method RemoveLane(l: BondServerLane) returns (left: nat)
      requires NoRepeats(lanes)
      modifies this`lanes
      ensures NoRepeats(lanes) && lanes == Without(old(lanes), l) && l !in lanes && left == |lanes| <= |old(lanes)|
    {
      var i := 0;
      while i < |lanes| && lanes[i] != l
        invariant i <= |lanes| && l !in lanes[..i]
      {
        i := i + 1;
      }
      WithoutAt(lanes, l, i);
      WithoutNoRepeats(lanes, l, i);
      if i < |lanes| {
        lanes := lanes[..i] + lanes[i + 1..];
      }
      left := |lanes|;
    }

    /** The lanes for one pass: attached, without repeats, no write to any failed. */
    method SnapshotLanes() returns (out: seq<BondServerLane>)
      requires Valid()
      ensures Valid() && out == lanes && Snapshot(out) && |out| <= MAX_LANES
      ensures forall l :: l in out ==> !l.stream.failed
    {
      out := lanes;
    }

    /** A pass over the snapshot from a cursor may go on: the lanes to be tried
        are attached, and no write has failed on those that the cursor will
        reach without a jump. */
    ghost predicate Untried(snapshot: seq<BondServerLane>, start: uint64, attempts: nat)
      reads this, Streams(attached), Streams(snapshot)
    {
      && NoRepeats(snapshot)
      && (forall l :: l in snapshot ==> l in attached)
      && forall k: nat :: attempts <= k < |snapshot| && Clean(start, k + 1, |snapshot|) ==>
           !snapshot[Visit(start, k, |snapshot|)].stream.failed
    }

    /** Other goroutines attach new lanes and drop lanes whose reader ended, also
        in the middle of a pass over a snapshot. */
    method LanesComeAndGo(ghost snapshot: seq<BondServerLane>, ghost start: uint64, ghost attempts: nat,
                          ghost late: bool, ghost on: bool, ghost s0: Sender, ghost s: Sender)
      returns (ghost s': Sender)
      requires Listed() && Explained() && Alive() && Follows(on, s0, s) && Untried(snapshot, start, attempts)
      modifies this, ctx`done
      ensures Listed() && Explained() && (old(Valid()) ==> Valid())
      ensures old(attached) <= attached && Grew(old(attached), old(lanes), attached, lanes, late)
      ensures forall i :: |old(attached)| <= i < |attached| ==> fresh(attached[i].stream)
      ensures Alive() && (old(ctx.done) ==> ctx.done)
      ensures Follows(on, s0, s') && s' == s.(wires := s'.wires)
      ensures Untried(snapshot, start, attempts) && FailedLanes() == old(FailedLanes())
    {
      hide *;
      ghost var attached0, lanes0 := attached, lanes;
      GrewNone(attached, lanes, late);
      s' := s;
      var arrivals: int := *;
      if arrivals < 0 {
        arrivals := 0;
      }
      for k := 0 to arrivals
        invariant Listed() && Explained() && Alive() && (old(Valid()) ==> Valid())
        invariant attached0 <= attached && Grew(attached0, lanes0, attached, lanes, late)
        invariant forall i :: |attached0| <= i < |attached| ==> fresh(attached[i].stream)
        invariant (old(ctx.done) ==> ctx.done) && FailedLanes() == old(FailedLanes())
        invariant Follows(on, s0, s') && s' == s.(wires := s'.wires)
        invariant Untried(snapshot, start, attempts)
      {
        if |lanes| < MAX_LANES && room > 0 {
          ghost var attached1, lanes1 := attached, lanes;
          s' := NewLane(snapshot, start, attempts, late, on, s0, s');
          GrewOn(attached0, lanes0, attached1, lanes1, attached, lanes, late);
        }
      }
      ghost var attached1, lanes1 := attached, lanes;
      LanesGo(snapshot, start, attempts, late, on, s0, s');
      GrewOn(attached0, lanes0, attached1, lanes1, attached, lanes, late);
    }

    /** A lane whose reader ends leaves the list; the last one to leave makes the
        context done. */
    method LanesGo(ghost snapshot: seq<BondServerLane>, ghost start: uint64, ghost attempts: nat,
                   ghost late: bool, ghost on: bool, ghost s0: Sender, ghost s: Sender)
      requires Listed() && Explained() && Alive() && Follows(on, s0, s) && Untried(snapshot, start, attempts)
      modifies this`lanes, this`ended, ctx`done
      ensures Listed() && Explained() && (old(Valid()) ==> Valid()) && Follows(on, s0, s)
      ensures Grew(attached, old(lanes), attached, lanes, late) && FailedLanes() == old(FailedLanes())
      ensures Alive() && (old(ctx.done) ==> ctx.done) && Untried(snapshot, start, attempts)
    {
      hide Without, Streams, NoRepeats, Visit, Clean, Tracks;
      var departures: int := *;
      if departures < 0 {
        departures := 0;
      }
      for k := 0 to departures
        invariant Listed() && Explained() && Alive() && (old(ctx.done) ==> ctx.done)
        invariant (forall l :: l in lanes ==> l in old(lanes)) && (lanes == old(lanes) || |lanes| < |old(lanes)|)
      {
        if lanes != [] {
          var i: nat :| i < |lanes|;
          LaneGoes(lanes[i]);
        }
      }
    }

    method LaneGoes(l: BondServerLane)
      requires Listed() && Explained() && Alive() && l in lanes
      modifies this`lanes, this`ended, ctx`done
      ensures Listed() && Explained() && Alive() && (old(ctx.done) ==> ctx.done)
      ensures lanes == old(lanes) || (|lanes| < |old(lanes)| && forall x :: x in lanes ==> x in old(lanes))
    {
      hide Without, Streams;
      if l.readerEnds && (|lanes| > 1 || ctx.cancelled) {
        ended := ended + {l};
        var left := RemoveLane(l);
        if left == 0 {
          ctx.done := true;
        }
      }
    }

    method NewLane(ghost snapshot: seq<BondServerLane>, ghost start: uint64, ghost attempts: nat,
                   ghost late: bool, ghost on: bool, ghost s0: Sender, ghost s: Sender)
      returns (ghost s': Sender)
      requires Listed() && Explained() && Alive() && |lanes| < MAX_LANES && room > 0
      requires Follows(on, s0, s) && Untried(snapshot, start, attempts)
      modifies this
      ensures Listed() && Explained() && Alive() && (old(Valid()) ==> Valid())
      ensures Follows(on, s0, s') && s' == s.(wires := s'.wires)
      ensures old(attached) <= attached && Grew(old(attached), old(lanes), attached, lanes, late)
      ensures forall i :: |old(attached)| <= i < |attached| ==> fresh(attached[i].stream)
      ensures Untried(snapshot, start, attempts) && FailedLanes() == old(FailedLanes())
    {
      hide SenderInv, Reaches, Tracks, NoRepeats, DistinctStreams, Visit, Clean;
      ghost var before := attached;
      var sound: bool, readerEnds: bool := *, *;
      var stream := new LaneStream(sound);
      var l := new BondServerLane(0, stream, readerEnds, late);
      var laneCount: uint16 := *;
      room := room - 1;
      AddLane(l, laneCount);
      s' := s;
      if on {
        s' := Attaches(before, l, s0, s);
      }
      assert l !in old(FailedLanes());
    }

    /** The abstract sender attaches the lane, too. */
    lemma Attaches(before: seq<BondServerLane>, l: BondServerLane, s0: Sender, s: Sender) returns (s': Sender)
      requires Tracks(Streams(before), s0, s) && attached == before + [l] && l.stream.View() == NEW_WIRE
      ensures Tracks(Streams(attached), s0, s') && s' == s.(wires := s'.wires)
    {
      hide SenderInv, Reaches;
      assert Wires(Streams(attached)) == s.wires + [NEW_WIRE];
      s' := AttachTracked(Streams(attached), s0, s);
    }

    /** The write to one lane concerns no other. */
    lemma OwnStream(lane: BondServerLane) returns (idx: nat)
      requires Listed() && lane in attached
      ensures idx < |attached| && attached[idx] == lane && Streams(attached)[idx] == lane.stream
      ensures DistinctStreams(Streams(attached))
      ensures forall l :: l in attached && l != lane ==> l.stream != lane.stream
    {
      idx :| 0 <= idx < |attached| && attached[idx] == lane;
      forall l | l in attached && l != lane
        ensures l.stream != lane.stream
      {
        var k :| 0 <= k < |attached| && attached[k] == l;
        assert Streams(attached)[k] == l.stream && Streams(attached)[idx] == lane.stream;
      }
    }

    /** A lane whose write failed has left the list, and all is as before. */
    twostate lemma DroppedOut(lane: BondServerLane, new ok: bool)
      requires old(Valid()) && lane in attached && unchanged(this`attached, this`ended, this`room)
      requires lanes == if ok then old(lanes) else Without(old(lanes), lane)
      requires NoRepeats(lanes) && |lanes| <= |old(lanes)| && (!ok ==> lane !in lanes)
      requires lane.stream.failed == (old(lane.stream.failed) || !ok) && (lane.stream.sound ==> ok)
      requires forall l :: l in attached && l != lane ==> l.stream.failed == old(l.stream.failed)
      ensures Valid() && FailedLanes() == old(FailedLanes()) + if ok then {} else {lane}
    {
      hide NoRepeats, DistinctStreams;
    }

    /** Writes the frame to one lane and drops the lane when that fails. */
    method TryLane(lane: BondServerLane, typ: byte, seqNo: uint64, data: seq<byte>,
                   ghost on: bool, ghost s0: Sender, ghost s: Sender)
      returns (ok: bool, left: nat, ghost on': bool, ghost s': Sender)
      requires Valid() && Follows(on, s0, s) && lane in attached
      requires on ==> s.phase == Placing && HasFrame(s) && Current(s) == Frame(typ, seqNo, data)
      modifies this`lanes, lane.stream
      ensures Valid() && on' == (on && !old(lane.stream.failed)) && Follows(on', s0, s')
      ensures Tried(lane, ok, Frame(typ, seqNo, data)) && (!ok ==> left == |lanes|)
      ensures on' ==> s' == if ok then s.(wires := s'.wires, phase := Reading, placed := s.placed + 1)
                            else s.(wires := s'.wires)
    {
      hide SenderInv, Reaches, Tracks, Encode, Current, Put, Without, HasFrame, Valid, Explained, DistinctStreams;
      hide Listed, FailedLanes, Streams, NoRepeats;
      ValidListed();
      ghost var idx := OwnStream(lane);
      ok, on', s' := WriteStep(lane.stream, Streams(attached), idx, typ, seqNo, data, on, s0, s);
      left := |lanes|;
      if !ok {
        left := RemoveLane(lane);
      }
      DroppedOut(lane, ok);
    }

    lemma StreamsApart(snapshot: seq<BondServerLane>, start: uint64, i: nat, k: nat)
      requires DistinctStreams(Streams(attached)) && NoRepeats(snapshot)
      requires forall l :: l in snapshot ==> l in attached
      requires |snapshot| <= TWO64 && i < k < |snapshot| && Clean(start, k + 1, |snapshot|)
      ensures snapshot[Visit(start, i, |snapshot|)].stream != snapshot[Visit(start, k, |snapshot|)].stream
    {
      CleanVisitsDistinct(start, i, k, |snapshot|);
      hide Visit;
      OtherStream(snapshot, Visit(start, i, |snapshot|), Visit(start, k, |snapshot|));
    }

    /** After an attempt, the lanes still to be tried are as they were, unless
        the cursor has jumped. */
    twostate lemma OneFewer(snapshot: seq<BondServerLane>, new start: uint64, new attempts: nat)
      requires Listed() && attempts < |snapshot| <= TWO64 && unchanged(this`attached)
      requires old(Untried(snapshot, start, attempts))
      requires forall l :: l in attached && l.stream != snapshot[Visit(start, attempts, |snapshot|)].stream ==>
        l.stream.failed == old(l.stream.failed)
      ensures Untried(snapshot, start, attempts + 1)
    {
      hide Visit, Clean, NoRepeats, DistinctStreams;
      forall k: nat | attempts + 1 <= k < |snapshot| && Clean(start, k + 1, |snapshot|)
        ensures !snapshot[Visit(start, k, |snapshot|)].stream.failed
      {
        StreamsApart(snapshot, start, attempts, k);
        assert snapshot[Visit(start, k, |snapshot|)] in snapshot;
      }
    }

    /** A lane has taken one more frame; or it has left the list and the others
        stay, in their order. */
    twostate predicate Tried(lane: BondServerLane, new ok: bool, new f: Frame)
      reads this, lane.stream, Streams(attached)
    {
      && lane.stream.accepted == old(lane.stream.accepted) + (if ok then [f] else [])
      && lanes == (if ok then old(lanes) else Without(old(lanes), lane))
      && (!ok ==> lane !in lanes)
      && FailedLanes() == old(FailedLanes()) + (if ok then {} else {lane})
    }

    /** One attempt of a pass: the lane at the cursor, which moves on. The write
        meets a lane that had failed before only if the cursor has jumped. */
    method Attempt(snapshot: seq<BondServerLane>, cursor: uint64, ghost start: uint64, ghost attempts: nat,
                   typ: byte, seqNo: uint64, data: seq<byte>, ghost on: bool, ghost s0: Sender, ghost s: Sender)
      returns (ok: bool, left: nat, cursor': uint64, ghost on': bool, ghost s': Sender)
      requires Valid() && Follows(on, s0, s)
      requires attempts < |snapshot| <= TWO64 && cursor == Cursor(start, attempts) && Untried(snapshot, start, attempts)
      requires on ==> s.phase == Placing && HasFrame(s) && Current(s) == Frame(typ, seqNo, data)
      modifies this`lanes, Streams(attached)
      ensures Valid() && Follows(on', s0, s') && Untried(snapshot, start, attempts + 1)
      ensures cursor' == Cursor(start, attempts + 1)
      ensures (on' ==> on) && (on && Clean(start, attempts + 1, |snapshot|) ==> on')
      ensures on' ==> s' == if ok then s.(wires := s'.wires, phase := Reading, placed := s.placed + 1)
                            else s.(wires := s'.wires)
      ensures Tried(snapshot[Visit(start, attempts, |snapshot|)], ok, Frame(typ, seqNo, data))
      ensures (!ok ==> left == |lanes|) && (on' && !ok ==> |FailedLanes()| == |old(FailedLanes())| + 1)
    {
      hide SenderInv, Reaches, Tracks, Encode, Current, Put, Without, HasFrame, Visit, Cursor, Advance, LaneAt, Clean;
      hide Valid, Explained, DistinctStreams, Listed, Streams, NoRepeats;
      ValidListed();
      VisitIs(start, attempts, |snapshot|);
      CursorAdvances(start, attempts);
      var lane := snapshot[LaneAt(cursor, |snapshot|)];
      cursor' := Advance(cursor);
      assert lane in snapshot;
      ghost var at := OwnStream(lane);
      ok, left, on', s' := TryLane(lane, typ, seqNo, data, on, s0, s);
      ValidListed();
      OneFewer(snapshot, start, attempts);
    }

    lemma ValidListed()
      requires Valid()
      ensures Listed() && Explained() && forall l :: l in lanes ==> l in attached
    {
    }

    lemma StartPass(snapshot: seq<BondServerLane>, start: uint64)
      requires Valid() && snapshot == lanes
      ensures Untried(snapshot, start, 0) && |snapshot| <= TWO64
    {
    }

    lemma NoPass(start: uint64)
      ensures Untried([], start, 0)
    {
    }

    /** The snapshot that a pass works on, taken while lanes come and go. */
    method BeginPass(cursor: uint64, ghost on: bool, ghost s0: Sender, ghost s1: Sender)
      returns (snapshot: seq<BondServerLane>, ghost s: Sender)
      requires Valid() && Alive() && Follows(on, s0, s1)
      modifies this, ctx`done
      ensures Valid() && Follows(on, s0, s) && s == s1.(wires := s.wires) && FailedLanes() == old(FailedLanes())
      ensures old(attached) <= attached && Grew(old(attached), old(lanes), attached, lanes, false)
      ensures forall i :: |old(attached)| <= i < |attached| ==> fresh(attached[i].stream)
      ensures Alive() && (old(ctx.done) ==> ctx.done)
      ensures snapshot == lanes && Untried(snapshot, cursor, 0) && |snapshot| <= TWO64
      ensures forall l :: l in snapshot ==> l in attached
    {
      hide Tracks, Visit, Clean, NoRepeats, DistinctStreams;
      NoPass(cursor);
      s := LanesComeAndGo([], cursor, 0, false, on, s0, s1);
      snapshot := SnapshotLanes();
      StartPass(snapshot, cursor);
    }

    lemma SameFrame(on: bool, s1: Sender, s: Sender)
      requires on ==> HasFrame(s1) && s == s1.(wires := s.wires)
      ensures on ==> HasFrame(s) && Current(s) == Current(s1)
    {
    }

    /** The attempts of a pass over a snapshot of the lanes just taken. */
    method TryAll(snapshot: seq<BondServerLane>, typ: byte, seqNo: uint64, data: seq<byte>, cursor: uint64,
                  ghost on: bool, ghost s0: Sender, ghost s1: Sender)
      returns (r: Option<Placement>, cursor': uint64, ghost tries: nat, ghost on': bool, ghost s: Sender)
      requires Valid() && Alive() && Follows(on, s0, s1)
      requires snapshot == lanes && Untried(snapshot, cursor, 0) && |snapshot| <= TWO64 && |FailedLanes()| <= limit
      requires on ==> s1.phase == Placing && HasFrame(s1) && Current(s1) == Frame(typ, seqNo, data)
      modifies this, Streams(attached), ctx`done
      ensures Valid() && Follows(on', s0, s)
      ensures old(attached) <= attached && Grew(old(attached), old(lanes), attached, lanes, false)
      ensures forall i :: |old(attached)| <= i < |attached| ==> fresh(attached[i].stream)
      ensures ctx.Valid() && (old(ctx.done) ==> ctx.done) && (r != Some(LanesGone) ==> Alive())
      ensures cursor' == Cursor(cursor, tries) && (r == Some(Sent) ==> tries > 0) && (on' ==> on)
      ensures Steady(on, on', cursor, tries, |old(FailedLanes())|,
                     |FailedLanes()| + if r == Some(Sent) then 1 else 0, limit)
      ensures on' ==> s == if r == Some(Sent) then s1.(wires := s.wires, phase := Reading, placed := s1.placed + 1)
                           else s1.(wires := s.wires)
      ensures r.Some? ==> r == Some(Sent) || (r == Some(LanesGone) && lanes == [])
      ensures r == Some(Sent) && attached == old(attached) && lanes == snapshot ==>
        tries == 1 && lanes != [] && Frame(typ, seqNo, data) in lanes[LaneAt(cursor, |lanes|)].stream.accepted
      ensures r.None? ==> tries == |snapshot| && TriedHaveLeft(snapshot, cursor, |snapshot|, attached, lanes)
    {
      hide *;
      CursorAdvances(cursor, 0);
      ghost var attached0, failed0 := attached, |FailedLanes()|;
      ValidListed();
      AliveMeans();
      SteadySelf(on, cursor, failed0, limit);
      GrewNone(attached, lanes, false);
      NoneLeft(snapshot, cursor, attached);
      cursor', on', s := cursor, on, s1;
      var attempts := 0;
      while attempts < |snapshot|
        invariant attempts <= |snapshot| && cursor' == Cursor(cursor, attempts)
        invariant Valid() && Alive() && Follows(on', s0, s) && (on' ==> on && s == s1.(wires := s.wires))
        invariant attached0 <= attached && Grew(attached0, snapshot, attached, lanes, false)
        invariant forall i :: |attached0| <= i < |attached| ==> fresh(attached[i].stream)
        invariant |FailedLanes()| <= limit && Steady(on, on', cursor, attempts, failed0, |FailedLanes()|, limit)
        invariant ctx.Valid() && (old(ctx.done) ==> ctx.done)
        invariant Untried(snapshot, cursor, attempts) && TriedHaveLeft(snapshot, cursor, attempts, attached, lanes)
      {
        var ok, left;
        ghost var attached1, lanes1, failed1, on1 := attached, lanes, |FailedLanes()|, on';
        ok, left, cursor', on', s := NextAttempt(snapshot, cursor', cursor, attempts, typ, seqNo, data, on', s0, s1, s);
        GrewOn(attached0, snapshot, attached1, lanes1, attached, lanes, false);
        StillLeft(snapshot, cursor, attempts, attached1, lanes1, attached, lanes);
        SteadyAttempt(on, on1, on', cursor, attempts, failed0, failed1, |FailedLanes()| + if ok then 1 else 0, limit);
        attempts := attempts + 1;
        if ok {
          if lanes == snapshot {
            TriedInTurn(snapshot, cursor, attempts - 1, attached);
          }
          return Some(Sent), cursor', attempts, on', s;
        }
        if left == 0 {
          return Some(LanesGone), cursor', attempts, on', s;
        }
      }
      r, tries := None, attempts;
    }

    /** One pass over a snapshot of the lanes. It places the frame, finds the
        lanes gone, or runs through. */
    method Pass(typ: byte, seqNo: uint64, data: seq<byte>, cursor: uint64,
                ghost on: bool, ghost s0: Sender, ghost s1: Sender)
      returns (r: Option<Placement>, cursor': uint64, ghost tries: nat, ghost on': bool, ghost s: Sender)
      requires Valid() && Alive() && Follows(on, s0, s1)
      requires on ==> s1.phase == Placing && HasFrame(s1) && Current(s1) == Frame(typ, seqNo, data)
      modifies this, Streams(attached), ctx`done
      ensures Valid() && Follows(on', s0, s)
      ensures old(attached) <= attached && Grew(old(attached), old(lanes), attached, lanes, false)
      ensures forall i :: |old(attached)| <= i < |attached| ==> fresh(attached[i].stream)
      ensures ctx.Valid() && (old(ctx.done) ==> ctx.done) && (r != Some(LanesGone) ==> Alive())
      ensures cursor' == Cursor(cursor, tries) && (r == Some(Sent) ==> tries > 0) && (on' ==> on)
      ensures Steady(on, on', cursor, tries, |old(FailedLanes())|,
                     |FailedLanes()| + if r == Some(Sent) then 1 else 0, limit)
      ensures on' ==> s == if r == Some(Sent) then s1.(wires := s.wires, phase := Reading, placed := s1.placed + 1)
                           else s1.(wires := s.wires)
      ensures r.Some? ==> r == Some(Sent) || (r == Some(LanesGone) && lanes == [])
      ensures r == Some(Sent) && attached == old(attached) && lanes == old(lanes) ==>
        tries == 1 && lanes != [] && Frame(typ, seqNo, data) in lanes[LaneAt(cursor, |lanes|)].stream.accepted
      ensures r.None? && old(lanes) != [] ==> |OffList(attached, lanes)| > |OffList(old(attached), old(lanes))|
      ensures r.None? && cursor + tries <= TWO64 ==> forall l :: l in old(lanes) ==> l !in lanes
    {
      hide *;
      ghost var attached0, lanes0 := attached, lanes;
      ValidListed();
      var snapshot;
      snapshot, s := BeginPass(cursor, on, s0, s1);
      ghost var mid := attached;
      OffListGrows(attached0, lanes0, mid, snapshot, false);
      SameFrame(on, s1, s);
      ValidListed();
      AtMostLimit();
      r, cursor', tries, on', s := TryAll(snapshot, typ, seqNo, data, cursor, on, s0, s);
      GrewOn(attached0, lanes0, mid, snapshot, attached, lanes, false);
      if attached == attached0 && lanes == lanes0 {
        NothingHappened(attached0, lanes0, mid, snapshot);
      }
      if r.None? {
        OffListGrows(mid, snapshot, attached, lanes, false);
        PassedOver(snapshot, cursor, lanes0, OffList(attached0, lanes0), OffList(mid, snapshot), attached, lanes);
      }
    }

    lemma AliveMeans()
      requires Alive()
      ensures ctx.Valid() && (lanes == [] ==> ctx.done) && (ctx.done ==> ctx.cancelled)
    {
    }

    /** One attempt, before which lanes may come and go. */
    method NextAttempt(snapshot: seq<BondServerLane>, cursor: uint64, ghost start: uint64, ghost attempts: nat,
                       typ: byte, seqNo: uint64, data: seq<byte>, ghost on: bool, ghost s0: Sender, ghost s1: Sender,
                       ghost s: Sender)
      returns (ok: bool, left: nat, cursor': uint64, ghost on': bool, ghost s': Sender)
      requires Valid() && Alive() && Follows(on, s0, s)
      requires attempts < |snapshot| <= TWO64 && cursor == Cursor(start, attempts) && Untried(snapshot, start, attempts)
      requires on ==> s1.phase == Placing && HasFrame(s1) && Current(s1) == Frame(typ, seqNo, data)
      requires on ==> s == s1.(wires := s.wires)
      modifies this, Streams(attached), ctx`done
      ensures Valid() && Follows(on', s0, s') && Untried(snapshot, start, attempts + 1)
      ensures old(attached) <= attached && Grew(old(attached), old(lanes), attached, lanes, false)
      ensures forall i :: |old(attached)| <= i < |attached| ==> fresh(attached[i].stream)
      ensures ctx.Valid() && (old(ctx.done) ==> ctx.done) && (ok || left > 0 ==> Alive())
      ensures cursor' == Cursor(start, attempts + 1)
      ensures (on' ==> on) && (on && start + attempts + 1 <= TWO64 ==> on')
      ensures on' ==> s' == if ok then s1.(wires := s'.wires, phase := Reading, placed := s1.placed + 1)
                            else s1.(wires := s'.wires)
      ensures if ok then Frame(typ, seqNo, data) in snapshot[Visit(start, attempts, |snapshot|)].stream.accepted
              else left == |lanes| && snapshot[Visit(start, attempts, |snapshot|)] !in lanes
      ensures on' ==> |FailedLanes()| == |old(FailedLanes())| + if ok then 0 else 1
      ensures |FailedLanes()| <= limit
    {
      hide *;
      ghost var attached0, lanes0 := attached, lanes;
      ValidListed();
      s' := LanesComeAndGo(snapshot, start, attempts, false, on, s0, s);
      SameFrame(on, s1, s');
      CleanBeforeWrap(start, attempts + 1, |snapshot|);
      ghost var attached1, lanes1, failed1 := attached, lanes, FailedLanes();
      label Before:
      ok, left, cursor', on', s' := Attempt(snapshot, cursor, start, attempts, typ, seqNo, data, on, s0, s');
      TriedMeans@Before(snapshot[Visit(start, attempts, |snapshot|)], ok, Frame(typ, seqNo, data));
      GrewOn(attached0, lanes0, attached1, lanes1, attached, lanes, false);
      ValidListed();
      AtMostLimit();
    }

    twostate lemma TriedMeans(lane: BondServerLane, new ok: bool, new f: Frame)
      requires old(Alive()) && Tried(lane, ok, f) && attached == old(attached) && ctx.done == old(ctx.done)
      ensures if ok then FailedLanes() == old(FailedLanes()) && f in lane.stream.accepted else lane !in lanes
      ensures ctx.Valid() && (ok || |lanes| > 0 ==> Alive()) && Grew(attached, old(lanes), attached, lanes, false)
    {
    }

    /** Whether the context is done, which leaves the lanes as they are. */
    method IsDone(ghost on: bool, ghost s0: Sender, ghost s: Sender) returns (yes: bool)
      requires Valid() && Alive() && Follows(on, s0, s)
      modifies ctx`done
      ensures Valid() && Alive() && Follows(on, s0, s) && FailedLanes() == old(FailedLanes())
      ensures yes == ctx.done && (old(ctx.done) ==> ctx.done)
    {
      hide Tracks, NoRepeats, DistinctStreams;
      yes := ctx.Done();
    }

    /** One pass, and a pause if it was in vain, unless the context is done. */
    method Round(typ: byte, seqNo: uint64, data: seq<byte>, cursor: uint64,
                 ghost on: bool, ghost s0: Sender, ghost s1: Sender)
      returns (r: Option<Placement>, cursor': uint64, ghost tries: nat, ghost on': bool, ghost s: Sender)
      requires Valid() && Alive() && Follows(on, s0, s1)
      requires on ==> s1.phase == Placing && HasFrame(s1) && Current(s1) == Frame(typ, seqNo, data)
      modifies this, Streams(attached), ctx`done
      ensures Valid() && Follows(on', s0, s)
      ensures old(attached) <= attached && Grew(old(attached), old(lanes), attached, lanes, false)
      ensures forall i :: |old(attached)| <= i < |attached| ==> fresh(attached[i].stream)
      ensures ctx.Valid() && (old(ctx.done) ==> ctx.done) && (r.None? || r.value == Sent ==> Alive())
      ensures cursor' == Cursor(cursor, tries) && (r == Some(Sent) ==> tries > 0) && (on' ==> on)
      ensures Steady(on, on', cursor, tries, |old(FailedLanes())|,
                     |FailedLanes()| + if r == Some(Sent) then 1 else 0, limit)
      ensures on' ==> s == if r == Some(Sent) then s1.(wires := s.wires, phase := Reading, placed := s1.placed + 1)
                           else s1.(wires := s.wires)
      ensures (r == Some(LanesGone) ==> lanes == []) && (r == Some(CtxDone) ==> ctx.done)
      ensures r == Some(Sent) && attached == old(attached) && lanes == old(lanes) ==>
        tries == 1 && lanes != [] && Frame(typ, seqNo, data) in lanes[LaneAt(cursor, |lanes|)].stream.accepted
      // A round that ends nothing has found more lanes gone.
      ensures r.None? ==> |OffList(old(attached), old(lanes))| < |OffList(attached, lanes)| <= limit
      ensures |OffList(old(attached), old(lanes))| <= |OffList(attached, lanes)|
    {
      hide *;
      AliveMeans();
      ghost var attached0, lanes0 := attached, lanes;
      r, cursor', tries, on', s := Pass(typ, seqNo, data, cursor, on, s0, s1);
      NoFewerOff(attached0, lanes0, attached, lanes);
      if r.None? {
        ValidListed();
        AtMostLimit();
        var done := IsDone(on', s0, s);
        AliveMeans();
        if done {
          r := Some(CtxDone);
        }
      }
    }

    /** Places one frame: tries the lanes of a snapshot in turn, drops those
        that fail, and starts over with a new snapshot after a pause, unless the
        context is done. The lanes go on following the abstract sender unless
        the 64-bit cursor jumps in the middle of a pass, which takes a
        wrap-around. */
    method WriteToNextLane(typ: byte, seqNo: uint64, data: seq<byte>, laneIdx: uint64,
                           ghost on: bool, ghost s0: Sender, ghost s1: Sender)
      returns (r: Placement, laneIdx': uint64, ghost tries: nat, ghost on': bool, ghost s: Sender)
      requires Valid() && Alive() && Follows(on, s0, s1)
      requires on ==> s1.phase == Placing && HasFrame(s1) && Current(s1) == Frame(typ, seqNo, data)
      modifies this, Streams(attached), ctx`done
      ensures Valid() && Follows(on', s0, s)
      ensures old(attached) <= attached && Grew(old(attached), old(lanes), attached, lanes, false)
      ensures forall i :: |old(attached)| <= i < |attached| ==> fresh(attached[i].stream)
      ensures ctx.Valid() && (old(ctx.done) ==> ctx.done) && (r.Sent? ==> Alive())
      ensures laneIdx' == Cursor(laneIdx, tries) && (r.Sent? ==> tries > 0) && (on' ==> on)
      ensures Steady(on, on', laneIdx, tries, |old(FailedLanes())|, |FailedLanes()| + if r.Sent? then 1 else 0, limit)
      ensures on' ==> s == if r.Sent? then s1.(wires := s.wires, phase := Reading, placed := s1.placed + 1)
                           else s1.(wires := s.wires)
      ensures (r == LanesGone ==> lanes == []) && (r == CtxDone ==> ctx.done)
      // When no lane comes or goes, the frame is on the lane at the cursor.
      ensures r.Sent? && attached == old(attached) && lanes == old(lanes) ==>
        tries == 1 && lanes != [] && Frame(typ, seqNo, data) in lanes[LaneAt(laneIdx, |lanes|)].stream.accepted
    {
      hide *;
      ghost var first, attached0, lanes0, failed0 := true, attached, lanes, |FailedLanes()|;
      laneIdx', tries, on', s := laneIdx, 0, on, s1;
      CursorAdvances(laneIdx, 0);
      SteadySelf(on, laneIdx, failed0, limit);
      GrewNone(attached, lanes, false);
      while true
        invariant Valid() && Alive() && Follows(on', s0, s) && (on' ==> on && s == s1.(wires := s.wires))
        invariant attached0 <= attached && Grew(attached0, lanes0, attached, lanes, false)
        invariant forall i :: |attached0| <= i < |attached| ==> fresh(attached[i].stream)
        invariant (old(ctx.done) ==> ctx.done) && laneIdx' == Cursor(laneIdx, tries)
        invariant Steady(on, on', laneIdx, tries, failed0, |FailedLanes()|, limit)
        invariant if first then tries == 0 && attached == attached0 && lanes == lanes0
                  else |OffList(attached0, lanes0)| < |OffList(attached, lanes)|
        decreases limit - |OffList(attached, lanes)|
      {
        SameFrame(on', s1, s);
        var placed;
        ghost var more, on1, failed1, attached1, lanes1 := 0, on', |FailedLanes()|, attached, lanes;
        placed, laneIdx', more, on', s := Round(typ, seqNo, data, laneIdx', on', s0, s);
        SteadyOn(on, on1, on', laneIdx, tries, more, failed0, failed1,
                 |FailedLanes()| + if placed == Some(Sent) then 1 else 0, limit);
        tries := tries + more;
        GrewOn(attached0, lanes0, attached1, lanes1, attached, lanes, false);
        if placed.Some? {
          return placed.value, laneIdx', tries, on', s;
        }
        first := false;
      }
    }

    /** One chunk of the download, numbered and placed on some lane, unless the
        context is done or no lane is left. */
    method PlaceChunk(data: seq<byte>, seqNo: uint64, laneIdx: uint64,
                      ghost on: bool, ghost s0: Sender, ghost s1: Sender)
      returns (placed: bool, laneIdx': uint64, ghost on': bool, ghost s: Sender)
      requires Valid() && Alive() && Follows(on, s0, s1) && 1 <= |data| <= MAX_CHUNK
      requires on ==>
        && s1.phase == Reading && seqNo == |s1.chunks| && |s1.chunks| + 1 < TWO64
        && Flatten(s1.chunks) + data <= s1.input
      modifies this, Streams(attached), ctx`done
      ensures Valid() && Follows(on', s0, s)
      ensures old(attached) <= attached && Grew(old(attached), old(lanes), attached, lanes, false)
      ensures forall i :: |old(attached)| <= i < |attached| ==> fresh(attached[i].stream)
      ensures ctx.Valid() && (placed ==> Alive()) && (!placed ==> ctx.done || lanes == [])
      ensures on && laneIdx + 1 + limit <= TWO64 + |old(FailedLanes())| ==> on'
      ensures on' ==> on && laneIdx' + |old(FailedLanes())| <= laneIdx + 1 + |FailedLanes()|
      ensures on' ==>
        && s.chunks == s1.chunks + [data] && Flatten(s.chunks) == Flatten(s1.chunks) + data
        && s.input == s1.input && s.ended == s1.ended && |s.chunks| < TWO64
        && if placed then s.phase == Reading else s.placed < |s.chunks|
    {
      hide *;
      ghost var failed0 := |FailedLanes()|;
      s := s1;
      if on {
        s := CutChunk(data, s0, s1);
      }
      var r;
      ghost var tries;
      r, laneIdx', tries, on', s := WriteToNextLane(FRAME_DATA, seqNo, data, laneIdx, on, s0, s);
      CursorAtMost(laneIdx, tries);
      SteadyMeans(on, on', laneIdx, tries, failed0, |FailedLanes()| + if r.Sent? then 1 else 0, limit);
      placed := r.Sent?;
    }

    ghost method CutChunk(data: seq<byte>, s0: Sender, s1: Sender) returns (s: Sender)
      requires Follows(true, s0, s1) && 1 <= |data| <= MAX_CHUNK
      requires s1.phase == Reading && |s1.chunks| + 1 < TWO64 && Flatten(s1.chunks) + data <= s1.input
      ensures Follows(true, s0, s) && s == s1.(chunks := s1.chunks + [data], phase := Placing)
      ensures Flatten(s.chunks) == Flatten(s1.chunks) + data && s.placed < |s.chunks| < TWO64
      ensures HasFrame(s) && Current(s) == Frame(FRAME_DATA, |s1.chunks|, data)
    {
      hide Tracks, Flatten, HasFrame, Current, Encode;
      s := Cutting(Streams(attached), data, s0, s1);
    }

    lemma OtherStream(snapshot: seq<BondServerLane>, i: nat, k: nat)
      requires DistinctStreams(Streams(attached)) && NoRepeats(snapshot)
      requires forall l :: l in snapshot ==> l in attached
      requires i < |snapshot| && k < |snapshot| && i != k
      ensures snapshot[i].stream != snapshot[k].stream
    {
      var a, b := snapshot[i], snapshot[k];
      assert a in snapshot && b in snapshot && a != b;
      var m :| 0 <= m < |attached| && attached[m] == a;
      var n :| 0 <= n < |attached| && attached[n] == b;
      assert Streams(attached)[m] == a.stream && Streams(attached)[n] == b.stream;
    }

    ghost predicate Snapshot(snapshot: seq<BondServerLane>)
      reads this
    {
      NoRepeats(snapshot) && forall l :: l in snapshot ==> l in attached
    }

    /** The lane has taken the FIN, once, or no frame, when the write to it
        failed, as none to a sound lane does. */
    ghost predicate TookFin(l: BondServerLane, before: seq<Frame>, fin: Frame)
      reads l.stream
    {
      || l.stream.accepted == before + [fin]
      || (l.stream.accepted == before && l.stream.failed && !l.stream.sound)
    }

    /** So have the first `i` lanes; the others have been left alone. */
    ghost predicate Offered(snapshot: seq<BondServerLane>, before: seq<seq<Frame>>, i: nat, fin: Frame)
      reads Streams(snapshot)
    {
      && |before| == |snapshot|
      && forall k :: 0 <= k < |snapshot| ==>
        if k < i then TookFin(snapshot[k], before[k], fin)
        else !snapshot[k].stream.failed && snapshot[k].stream.accepted == before[k]
    }

    ghost function AcceptedOn(snapshot: seq<BondServerLane>): (before: seq<seq<Frame>>)
      reads Streams(snapshot)
      ensures |before| == |snapshot| && forall k :: 0 <= k < |snapshot| ==> before[k] == snapshot[k].stream.accepted
    {
      seq(|snapshot|, k requires 0 <= k < |snapshot| reads Streams(snapshot) => Streams(snapshot)[k].accepted)
    }

    lemma NoneOffered(fin: Frame)
      requires Valid()
      ensures forall l :: l in lanes ==> l in attached
      ensures Listed() && Explained() && Snapshot(lanes) && Offered(lanes, AcceptedOn(lanes), 0, fin)
    {
    }

    method OfferFin(snapshot: seq<BondServerLane>, ghost before: seq<seq<Frame>>, i: nat, seqNo: uint64,
                    ghost on: bool, ghost s0: Sender, ghost s: Sender)
      returns (ghost s': Sender)
      requires Listed() && Explained() && Follows(on, s0, s) && Snapshot(snapshot) && i < |snapshot|
      requires Offered(snapshot, before, i, Frame(FRAME_FIN, seqNo, []))
      requires on ==> s.phase == Finning && HasFrame(s) && Current(s) == Frame(FRAME_FIN, seqNo, [])
      modifies snapshot[i].stream
      ensures Explained() && Follows(on, s0, s') && (on ==> s' == s.(wires := s'.wires))
      ensures Offered(snapshot, before, i + 1, Frame(FRAME_FIN, seqNo, []))
    {
      hide SenderInv, Reaches, Tracks, Encode, Current, HasFrame, NoRepeats;
      var lane := snapshot[i];
      assert lane in snapshot;
      ghost var idx := OwnStream(lane);
      forall k | 0 <= k < |snapshot| && k != i
        ensures snapshot[k].stream != lane.stream
      {
        OtherStream(snapshot, i, k);
      }
      var ok;
      ghost var on';
      ok, on', s' := WriteStep(lane.stream, Streams(attached), idx, FRAME_FIN, seqNo, [], on, s0, s);
    }

    ghost method Finish(atEof: bool, seqNo: uint64, on: bool, s0: Sender, s1: Sender) returns (s: Sender)
      requires Follows(on, s0, s1)
      requires on ==> s1.phase == Reading && seqNo == |s1.chunks| && (atEof ==> Flatten(s1.chunks) == s1.input)
      ensures Follows(on, s0, s)
      ensures on ==> s == s1.(phase := Finning, ended := true, atEof := atEof)
      ensures on ==> HasFrame(s) && Current(s) == Frame(FRAME_FIN, seqNo, [])
    {
      hide SenderInv, Reaches, Tracks, Flatten, HasFrame, Current;
      s := s1;
      if on {
        s := Ending(Streams(attached), atEof, s0, s1);
      }
    }

    /** A lane that lost its reader or had a failed write. */
    ghost predicate Lost(l: BondServerLane)
      reads this, l.stream
    {
      l in ended || l.stream.failed
    }

    /** Every lane but those that came late has taken the FIN, unless it has lost
        its reader or had a failed write, as one that lasts never does; one that
        is still listed, unless its write failed. */
    ghost predicate FinGiven(fin: Frame)
      reads this, Streams(attached)
    {
      forall l :: l in attached && !l.late ==>
        && (fin in l.stream.accepted || (Lost(l) && !l.Lasts()))
        && (l in lanes ==> fin in l.stream.accepted || l.stream.failed)
    }

    lemma AllOffered(snapshot: seq<BondServerLane>, attached0: seq<BondServerLane>, before: seq<seq<Frame>>, fin: Frame)
      requires Explained() && Grew(attached0, snapshot, attached, lanes, true)
      requires Offered(snapshot, before, |snapshot|, fin)
      ensures FinGiven(fin) && |before| == |snapshot|
      ensures forall k :: 0 <= k < |snapshot| ==> TookFin(snapshot[k], before[k], fin)
    {
      forall l | l in attached && !l.late && l in lanes
        ensures fin in l.stream.accepted || (l.stream.failed && !l.stream.sound)
      {
        assert l in attached0;
        var k :| 0 <= k < |snapshot| && snapshot[k] == l;
        assert TookFin(snapshot[k], before[k], fin);
      }
    }

    /** Offers the FIN once to every lane listed at the start, while lanes come
        and go; failures are ignored, and a lane attached later gets none. */
    method SendFins(seqNo: uint64, ghost atEof: bool, ghost on: bool, ghost s0: Sender, ghost s1: Sender)
      returns (ghost s: Sender)
      requires Valid() && Alive() && Follows(on, s0, s1)
      requires on ==> s1.phase == Reading && seqNo == |s1.chunks| && (atEof ==> Flatten(s1.chunks) == s1.input)
      modifies this, Streams(attached), ctx`done
      ensures Follows(on, s0, s) && ctx.Valid() && (old(ctx.done) ==> ctx.done)
      ensures old(attached) <= attached && Grew(old(attached), old(lanes), attached, lanes, true)
      ensures forall i :: |old(attached)| <= i < |attached| ==> fresh(attached[i].stream)
      ensures on ==> s == s1.(wires := s.wires, phase := Finning, ended := true, atEof := atEof)
      ensures FinGiven(Frame(FRAME_FIN, seqNo, []))
      ensures forall i :: 0 <= i < |old(lanes)| ==>
        TookFin(old(lanes)[i], old(lanes[i].stream.accepted), Frame(FRAME_FIN, seqNo, []))
    {
      hide *;
      ghost var attached0, lanes0 := attached, lanes;
      var snapshot := SnapshotLanes();
      s := Finish(atEof, seqNo, on, s0, s1);
      ghost var before := AcceptedOn(snapshot);
      NoneOffered(Frame(FRAME_FIN, seqNo, []));
      GrewNone(attached, lanes, true);
      ghost var s2 := s;
      for i := 0 to |snapshot|
        invariant Listed() && Explained() && Alive() && Snapshot(snapshot)
        invariant attached0 <= attached && Grew(attached0, lanes0, attached, lanes, true)
        invariant forall i :: |attached0| <= i < |attached| ==> fresh(attached[i].stream)
        invariant old(ctx.done) ==> ctx.done
        invariant Follows(on, s0, s) && (on ==> s == s2.(wires := s.wires))
        invariant Offered(snapshot, before, i, Frame(FRAME_FIN, seqNo, []))
      {
        ghost var attached1, lanes1 := attached, lanes;
        SameFrame(on, s2, s);
        s := NextFin(snapshot, before, i, seqNo, on, s0, s);
        GrewOn(attached0, lanes0, attached1, lanes1, attached, lanes, true);
      }
      AliveMeans();
      AllOffered(snapshot, attached0, before, Frame(FRAME_FIN, seqNo, []));
    }

    /** The FIN for the next lane, before which lanes may come and go. */
    method NextFin(snapshot: seq<BondServerLane>, ghost before: seq<seq<Frame>>, i: nat, seqNo: uint64,
                   ghost on: bool, ghost s0: Sender, ghost s: Sender)
      returns (ghost s': Sender)
      requires Listed() && Explained() && Alive() && Follows(on, s0, s) && Snapshot(snapshot) && i < |snapshot|
      requires Offered(snapshot, before, i, Frame(FRAME_FIN, seqNo, []))
      requires on ==> s.phase == Finning && HasFrame(s) && Current(s) == Frame(FRAME_FIN, seqNo, [])
      modifies this, Streams(snapshot), ctx`done
      ensures Listed() && Explained() && Alive() && Snapshot(snapshot)
      ensures old(attached) <= attached && Grew(old(attached), old(lanes), attached, lanes, true)
      ensures forall i :: |old(attached)| <= i < |attached| ==> fresh(attached[i].stream)
      ensures old(ctx.done) ==> ctx.done
      ensures Follows(on, s0, s') && (on ==> s' == s.(wires := s'.wires))
      ensures Offered(snapshot, before, i + 1, Frame(FRAME_FIN, seqNo, []))
    {
      hide Listed, Explained, Tracks, NoRepeats, HasFrame, Current, Grew, TookFin;
      NoPass(0);
      ghost var attached0 := attached;
      s' := LanesComeAndGo([], 0, 0, true, on, s0, s);
      StillSnapshot(snapshot, attached0);
      SameFrame(on, s, s');
      s' := OfferFin(snapshot, before, i, seqNo, on, s0, s');
    }

    lemma StillSnapshot(snapshot: seq<BondServerLane>, before: seq<BondServerLane>)
      requires NoRepeats(snapshot) && before <= attached && forall l :: l in snapshot ==> l in before
      ensures Snapshot(snapshot)
    {
    }

    lemma StartFollows(s0: Sender)
      requires SenderInit(s0) && s0.wires == Wires(Streams(attached))
      ensures Follows(true, s0, s0)
      ensures s0.phase == Reading && !s0.ended && s0.chunks == [] && Flatten(s0.chunks) == []
    {
      StartTracks(Streams(attached), s0);
    }

    ghost predicate AllLost()
      reads this, Streams(attached)
    {
      forall l :: l in attached ==> Lost(l)
    }

    /** Without a listed lane all are lost, and none of them lasts. */
    lemma NoneListed()
      requires Valid() && lanes == []
      ensures AllLost() && forall l :: l in attached ==> !l.Lasts()
    {
    }

    /** A read of the source, which leaves the lanes as they are. */
    method ReadSource(src: TcpSource, ghost on: bool, ghost s0: Sender, ghost s: Sender)
      returns (data: seq<byte>, end: ReadEnd)
      requires Valid() && Alive() && Follows(on, s0, s) && src.taken <= src.input
      modifies src
      ensures Valid() && Alive() && Follows(on, s0, s) && FailedLanes() == old(FailedLanes())
      ensures |data| <= MAX_CHUNK && src.taken == old(src.taken) + data && src.taken <= src.input
      ensures (end == Eof ==> src.taken == src.input) && (end == ReadEnd.Failed ==> src.broken)
      ensures src.idle <= old(src.idle) && (end == More ==> data != [] || src.idle < old(src.idle))
    {
      hide Tracks, NoRepeats, DistinctStreams;
      data, end := src.Read(MAX_CHUNK);
    }

    /** The download loop. It gives up, without a FIN, when a chunk cannot be
        placed. What it puts on the lanes follows the abstract sender, unless
        the cursor jumps in the middle of a pass, for which bytes and lanes that
        number at most 2^64 are too few. */
    method CopyBackendToBond(src: TcpSource, ghost s0: Sender) returns (exit: Exit, ghost on: bool, ghost s: Sender)
      requires Valid() && Alive() && |src.input| + 1 < TWO64 && src.taken == []
      requires SenderInit(s0) && s0.wires == Wires(Streams(attached)) && s0.input == src.input
      requires forall l :: l in attached ==> !l.late
      modifies src, this, Streams(attached), ctx`done
      ensures |src.input| + limit <= TWO64 ==> on
      ensures on ==> Tracks(Streams(attached), s0, s) && Flatten(s.chunks) == src.taken
      ensures on ==> (s.ended <==> exit == Finished) && (exit == Abandoned ==> s.placed < |s.chunks|)
      ensures on && exit == Finished ==> |s.chunks| < TWO64 && (src.broken || (s.atEof && src.taken == src.input))
      // Every lane that attached before the end and is still in use has taken the FIN.
      ensures on && exit == Finished ==> FinGiven(Frame(FRAME_FIN, |s.chunks|, []))
      ensures on && exit == Finished ==> forall l :: l in old(lanes) && l in lanes ==>
        l.stream.failed || Frame(FRAME_FIN, |s.chunks|, []) in l.stream.accepted
      ensures exit != Finished ==> forall l :: l in attached ==> !l.late
      // It gives up only when cancelled or when all lanes are lost.
      ensures exit == Cancelled ==> ctx.done
      ensures exit == Abandoned ==> ctx.done || (AllLost() && forall l :: l in attached ==> !l.Lasts())
      // Uncancelled, and with one lane that lasts, the whole input goes out.
      ensures !ctx.cancelled && !src.broken && (exists l :: l in old(attached) && l.Lasts()) ==>
        exit == Finished && src.taken == src.input
    {
      hide *;
      Width64();
      ValidListed();
      StartFollows(s0);
      GrewNone(attached, lanes, false);
      ghost var attached0, lanes0 := attached, lanes;
      var seqNo: uint64, laneIdx: uint64 := 0, 0;
      s, on := s0, true;
      var end := More;
      while end == More
        invariant Valid() && Alive() && Follows(on, s0, s) && src.taken <= src.input
        invariant attached0 <= attached && Grew(attached0, lanes0, attached, lanes, false)
        invariant forall i :: |attached0| <= i < |attached| ==> fresh(attached[i].stream)
        invariant (|src.input| + limit <= TWO64 ==> on) && (on ==> laneIdx <= seqNo + |FailedLanes()|)
        invariant on ==> s.phase == Reading && !s.ended && seqNo == |s.chunks| && s.input == src.input
        invariant on ==> Flatten(s.chunks) == src.taken
        invariant (end == Eof ==> src.taken == src.input) && (end == ReadEnd.Failed ==> src.broken)
        invariant seqNo <= |src.taken|
        decreases end == More, |src.input| - |src.taken|, src.idle
      {
        var data;
        data, end := ReadSource(src, on, s0, s);
        if |data| > 0 {
          var placed;
          ghost var attached1, lanes1 := attached, lanes;
          placed, laneIdx, on, s := PlaceChunk(data, seqNo, laneIdx, on, s0, s);
          GrewOn(attached0, lanes0, attached1, lanes1, attached, lanes, false);
          GrewMeans(attached0, lanes0, attached, lanes, false);
          if !placed {
            FollowsMeans(on, s0, s);
            GivenUp();
            exit := Abandoned;
            return;
          }
          seqNo := seqNo + 1;
        }
        if end == More {
          var done := IsDone(on, s0, s);
          if done {
            FollowsMeans(on, s0, s);
            GrewMeans(attached0, lanes0, attached, lanes, false);
            AliveMeans();
            exit := Cancelled;
            return;
          }
        }
      }
      ghost var attached1, lanes1 := attached, lanes;
      GrewMeans(attached0, lanes0, attached1, lanes1, false);
      s := SendFins(seqNo, end == Eof, on, s0, s);
      GrewMeans(attached1, lanes1, attached, lanes, true);
      FollowsMeans(on, s0, s);
      FinMeans(Frame(FRAME_FIN, seqNo, []));
      exit := Finished;
    }

    lemma FollowsMeans(on: bool, s0: Sender, s: Sender)
      requires Follows(on, s0, s)
      ensures on ==> Tracks(Streams(attached), s0, s) && |s.chunks| < TWO64
    {
      hide SenderInv, Reaches, Tracks;
      if on {
        TracksFacts(Streams(attached), s0, s);
      }
    }

    lemma FinMeans(fin: Frame)
      requires FinGiven(fin)
      ensures forall l :: l in attached && l in lanes && !l.late ==> l.stream.failed || fin in l.stream.accepted
    {
    }

    lemma GivenUp()
      requires Valid() && ctx.Valid() && (ctx.done || lanes == [])
      ensures (ctx.done && ctx.cancelled) || (AllLost() && forall l :: l in attached ==> !l.Lasts())
    {
      hide Valid, AllLost;
      if lanes == [] {
        NoneListed();
      }
    }
  }

  lemma Width64()
    ensures TWO64 == 0x1_0000_0000_0000_0000
  {
  }
}
