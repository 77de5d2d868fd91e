/** The aggregated UDP session: bounded lane queues over recycled packets. Each
    method is one critical section or one step of a lane's writer; whatever
    their order, they keep Valid. */
module UdpSession {
  import opened Bytes
  import opened Options
  import opened UdpSelector
  import UdpLifecycle

  const PACKET_SIZE := 2048

  function Zeros(n: nat): (z: seq<byte>)
    ensures |z| == n
  {
    seq(n, i => 0)
  }

  /** A recycled buffer: `store` is all of it, of which the first `len` bytes are
      in use. Whoever owns the object may overwrite it. */
  class Packet {
    var store: seq<byte>
    var len: nat

    constructor ()
      ensures |store| == PACKET_SIZE && len == PACKET_SIZE
    {
      store, len := Zeros(PACKET_SIZE), PACKET_SIZE;
    }

    function Bytes(): seq<byte>
      reads this
    {
      if len <= |store| then store[..len] else store
    }

    /** Bytes of an earlier use may remain behind the payload. */
    method Fill(payload: seq<byte>)
      modifies this
      ensures Bytes() == payload && |store| >= |payload| && |store| >= old(|store|)
    {
      if |store| < |payload| {
        store := Zeros(|payload|);
      }
      len := |payload|;
      store := payload + store[|payload|..];
    }
  }

  /** What goes out on a lane's connection: packets from its queue and, written
      by the lane's reader, replies to probes. */
  datatype Datagram = FromQueue(payload: seq<byte>) | Reply(payload: seq<byte>)

  ghost function QueuePart(wire: seq<Datagram>): seq<seq<byte>> {
    if wire == [] then []
    else
      var n := |wire| - 1;
      QueuePart(wire[..n]) + if wire[n].FromQueue? then [wire[n].payload] else []
  }

  lemma QueuePartSnoc(wire: seq<Datagram>, d: Datagram)
    ensures QueuePart(wire + [d]) == QueuePart(wire) + if d.FromQueue? then [d.payload] else []
  {
    assert (wire + [d])[..|wire|] == wire;
  }

  /** A lane stops by itself, when a write fails or its reader ends, only if it
      is one of those `failing`. */
  class UdpLane {
    const streamID: StreamIndex
    const supportsReorder: bool
    const failing: bool
    ghost const serial: nat
    var closed: bool
    var out: seq<Packet>
    /** The packet its writer has taken and not yet released. */
    var inFlight: Option<Packet>
    var writerDone: bool
    /** What its connection has taken, in order, and how many packets have left
        the queue. */
    var wire: seq<Datagram>
    ghost var taken: nat

    constructor (streamID: StreamIndex, supportsReorder: bool, failing: bool, ghost serial: nat)
      ensures this.streamID == streamID && this.supportsReorder == supportsReorder
      ensures this.failing == failing && this.serial == serial && IsNew()
    {
      this.streamID, this.supportsReorder, this.failing, this.serial := streamID, supportsReorder, failing, serial;
      closed, out, inFlight, writerDone, wire, taken := false, [], None, false, [], 0;
    }

    ghost predicate IsNew()
      reads this
    {
      !closed && out == [] && inFlight == None && !writerDone && wire == [] && taken == 0
    }

    /** The payloads its queue writer has written. */
    ghost function Written(): seq<seq<byte>>
      reads this`wire
    {
      QueuePart(wire)
    }

    ghost function View(): LaneView
      reads this
    {
      LaneView(serial, closed, supportsReorder, |out|)
    }
  }

  ghost function SlotsOf(lanes: seq<UdpLane?>): (slots: Slots)
    requires |lanes| == MAX_STREAMS
    reads lanes
    ensures forall i: StreamIndex :: slots[i] == if lanes[i] == null then None else Some(lanes[i].View())
  {
    seq(64, i requires 0 <= i < 64 reads lanes => if lanes[i] == null then None else Some(lanes[i].View()))
  }

  class UdpLaneSelector {
    var current: StreamIndex
    var hasCurrent: bool
    var remaining: nat
    var cursor: StreamIndex
    var lastPacket: int

    constructor ()
      ensures View() == FRESH_SELECTOR
    {
      current, hasCurrent, remaining, cursor, lastPacket := 0, false, 0, 0, ZERO_TIME;
    }

    function View(): Selector
      reads this
    {
      Selector(current, hasCurrent, remaining, cursor, lastPacket)
    }

    /** Looks round from the cursor for an eligible lane and settles on it. */
    method ScanAndSettle(lanes: seq<UdpLane?>, w: Wanted, rest: nat) returns (r: Option<StreamIndex>)
      requires |lanes| == MAX_STREAMS
      modifies this
      ensures (View(), r) == Pick(old(View()), Scan(SlotsOf(lanes), old(cursor), 0, w), rest)
    {
      ghost var slots := SlotsOf(lanes);
      hide AnyLive, CanStripe, MinDepth;
      ghost var sel := View();
      var offset := 0;
      while offset < |lanes|
        invariant 0 <= offset <= |lanes| && View() == sel && SlotsOf(lanes) == slots
        invariant Scan(slots, cursor, 0, w) == Scan(slots, cursor, offset, w)
      {
        var index := (cursor + offset) % 64;
        var lane := lanes[index];
        if lane != null && !lane.closed
           && match w { case Below(limit) => |lane.out| < limit case Exactly(d) => |lane.out| == d }
        {
          assert Scan(slots, sel.cursor, 0, w) == Some(index);
          cursor := (index + 1) % 64;
          current, hasCurrent, remaining := index, true, rest;
          return Some(index);
        }
        offset := offset + 1;
      }
      assert Scan(slots, sel.cursor, 0, w) == None;
      hasCurrent := false;
      r := None;
    }

    /** Stays on the current lane if it is pinned there, or if the stripe goes
        on; otherwise the decision is still open. */
    method Stay(lanes: seq<UdpLane?>, canStripe: bool, now: int) returns (decided: bool, r: Option<StreamIndex>)
      requires |lanes| == MAX_STREAMS
      modifies this
      ensures
        var sel, slots := old(View()), SlotsOf(lanes);
        if canStripe then
          && decided == Continues(Arrive(sel, now), slots)
          && View() == (if decided then Arrive(sel, now).(remaining := sel.remaining - 1) else Arrive(sel, now))
          && (decided ==> r == Some(sel.current))
        else
          && decided == (sel.hasCurrent && Live(slots, sel.current)) && View() == sel
          && (decided ==> r == if Depth(slots, sel.current) < QUEUE_SIZE then Some(sel.current) else None)
    {
      hide SlotsOf;
      decided, r := false, None;
      if !canStripe {
        if hasCurrent {
          var lane := lanes[current];
          if lane != null && !lane.closed {
            decided := true;
            if |lane.out| < QUEUE_SIZE {
              r := Some(current);
            }
          }
        }
        return;
      }
      if lastPacket != ZERO_TIME && now - lastPacket > FLOWLET_GAP {
        hasCurrent := false;
        remaining := 0;
      }
      lastPacket := now;
      if hasCurrent && remaining > 0 {
        var lane := lanes[current];
        if lane != null && !lane.closed && |lane.out| < STRIPE_SIZE {
          remaining := remaining - 1;
          return true, Some(current);
        }
      }
    }

    method Forget()
      modifies this
      ensures View() == old(View()).(hasCurrent := false)
    {
      hasCurrent := false;
    }
  }

  method CountLanes(lanes: seq<UdpLane?>) returns (canStripe: bool, activeLanes: nat)
    requires |lanes| == MAX_STREAMS
    ensures canStripe == CanStripe(SlotsOf(lanes))
    ensures activeLanes > 0 <==> AnyLive(SlotsOf(lanes))
  {
    canStripe, activeLanes := true, 0;
    for i := 0 to |lanes|
      invariant canStripe <==>
        forall k: StreamIndex :: k < i && Live(SlotsOf(lanes), k) ==> SlotsOf(lanes)[k].value.reorder
      invariant activeLanes > 0 <==> exists k: StreamIndex :: k < i && Live(SlotsOf(lanes), k)
    {
      var lane := lanes[i];
      if lane != null && !lane.closed {
        assert Live(SlotsOf(lanes), i);
        activeLanes := activeLanes + 1;
        canStripe := canStripe && lane.supportsReorder;
      }
    }
  }

  method MinimumDepth(lanes: seq<UdpLane?>) returns (d: nat)
    requires |lanes| == MAX_STREAMS
    ensures d == Least(SlotsOf(lanes))
  {
    d := QUEUE_SIZE + 1;
    for i := 0 to |lanes|
      invariant d == MinDepth(SlotsOf(lanes), i)
    {
      var lane := lanes[i];
      if lane != null && !lane.closed && |lane.out| < d {
        d := |lane.out|;
      }
    }
  }

  // ---------------------------------------------------------------- session

  /** Where a packet object is: in the pool, with another session, or on a lane
      as its k-th packet. A function, so never two places at once. */
  datatype Place = Pooled | Elsewhere | OnLane(lane: UdpLane, k: nat)

  /** The payloads that went to one lane: a subsequence of all received. */
  ghost function Delivered(received: seq<seq<byte>>, fate: seq<Option<UdpLane>>, l: UdpLane): (d: seq<seq<byte>>)
    requires |received| == |fate|
  {
    if fate == [] then []
    else
      var n := |fate| - 1;
      Delivered(received[..n], fate[..n], l) + if fate[n] == Some(l) then [received[n]] else []
  }

  ghost function Dropped(fate: seq<Option<UdpLane>>): nat {
    if fate == [] then 0
    else Dropped(fate[..|fate| - 1]) + if fate[|fate| - 1].None? then 1 else 0
  }

  lemma DeliveredSnoc(received: seq<seq<byte>>, fate: seq<Option<UdpLane>>, l: UdpLane,
                      payload: seq<byte>, to: Option<UdpLane>)
    requires |received| == |fate|
    ensures to == Some(l) ==>
        Delivered(received + [payload], fate + [to], l) == Delivered(received, fate, l) + [payload]
    ensures to != Some(l) ==> Delivered(received + [payload], fate + [to], l) == Delivered(received, fate, l)
  {
    assert (received + [payload])[..|fate|] == received;
    assert (fate + [to])[..|fate|] == fate;
  }

  lemma DroppedSnoc(fate: seq<Option<UdpLane>>, to: Option<UdpLane>)
    ensures Dropped(fate + [to]) == Dropped(fate) + if to.None? then 1 else 0
  {
    assert (fate + [to])[..|fate|] == fate;
  }

  /** Backend packets that went to lane l, by position. */
  ghost function Positions(fate: seq<Option<UdpLane>>, l: UdpLane): seq<nat> {
    if fate == [] then []
    else Positions(fate[..|fate| - 1], l) + if fate[|fate| - 1] == Some(l) then [|fate| - 1] else []
  }

  /** What a lane is given is an in-order subsequence of the backend packets,
      made of exactly the packets destined for it. */
  lemma {:induction false} DeliveredInOrder(received: seq<seq<byte>>, fate: seq<Option<UdpLane>>, l: UdpLane)
    requires |received| == |fate|
    ensures
      var ps := Positions(fate, l);
      && |ps| == |Delivered(received, fate, l)|
      && (forall k :: 0 <= k < |ps| ==>
            ps[k] < |fate| && fate[ps[k]] == Some(l) && Delivered(received, fate, l)[k] == received[ps[k]])
      && (forall j, k :: 0 <= j < k < |ps| ==> ps[j] < ps[k])
      && (forall n: nat :: n < |fate| && fate[n] == Some(l) ==> n in ps)
  {
    if fate != [] {
      var n := |fate| - 1;
      DeliveredInOrder(received[..n], fate[..n], l);
      var init := Positions(fate[..n], l);
      assert forall m: nat :: m < n && fate[m] == Some(l) ==> fate[..n][m] == Some(l);
      assert forall k :: 0 <= k < |init| ==> received[..n][init[k]] == received[init[k]];
    }
  }

  // ------------------------------------------------------ parts of a history

  lemma {:induction false} DeliveredConcat(r1: seq<seq<byte>>, f1: seq<Option<UdpLane>>,
                                           r2: seq<seq<byte>>, f2: seq<Option<UdpLane>>, l: UdpLane)
    requires |r1| == |f1| && |r2| == |f2|
    ensures Delivered(r1 + r2, f1 + f2, l) == Delivered(r1, f1, l) + Delivered(r2, f2, l)
  {
    if f2 == [] {
      assert r1 + r2 == r1 && f1 + f2 == f1;
    } else {
      var n := |f2| - 1;
      DeliveredConcat(r1, f1, r2[..n], f2[..n], l);
      assert (r1 + r2)[..|f1| + n] == r1 + r2[..n] && (f1 + f2)[..|f1| + n] == f1 + f2[..n];
      ConcatAssoc(Delivered(r1, f1, l), Delivered(r2[..n], f2[..n], l), if f2[n] == Some(l) then [r2[n]] else []);
    }
  }

  /** The packets of a history that were not dropped. */
  ghost function Accepted(received: seq<seq<byte>>, fate: seq<Option<UdpLane>>): seq<seq<byte>>
    requires |received| == |fate|
  {
    if fate == [] then []
    else
      var n := |fate| - 1;
      Accepted(received[..n], fate[..n]) + if fate[n].Some? then [received[n]] else []
  }

  lemma {:induction false} AllOnOneLane(received: seq<seq<byte>>, fate: seq<Option<UdpLane>>, l: UdpLane)
    requires |received| == |fate| && forall k :: 0 <= k < |fate| ==> fate[k] == None || fate[k] == Some(l)
    ensures Accepted(received, fate) == Delivered(received, fate, l)
  {
    if fate != [] {
      AllOnOneLane(received[..|fate| - 1], fate[..|fate| - 1], l);
    }
  }

  /** What a lane was given in one stretch of the history is one stretch of all
      it was given. */
  lemma DeliveredStretch(received: seq<seq<byte>>, fate: seq<Option<UdpLane>>, i: nat, j: nat, l: UdpLane)
    returns (a: nat, b: nat)
    requires |received| == |fate| && i <= j <= |fate|
    ensures a <= b <= |Delivered(received, fate, l)|
    ensures Delivered(received, fate, l)[a..b] == Delivered(received[i..j], fate[i..j], l)
  {
    var before := Delivered(received[..i], fate[..i], l);
    var stretch := Delivered(received[i..j], fate[i..j], l);
    DeliveredConcat(received[..i], fate[..i], received[i..j], fate[i..j], l);
    assert received[..j] == received[..i] + received[i..j] && fate[..j] == fate[..i] + fate[i..j];
    DeliveredConcat(received[..j], fate[..j], received[j..], fate[j..], l);
    assert received == received[..j] + received[j..] && fate == fate[..j] + fate[j..];
    a, b := |before|, |before| + |stretch|;
  }

  /** The lane that a packet went to is the one in the slot chosen. */
  ghost predicate Matches(a: Arrival, r: Option<StreamIndex>, f: Option<UdpLane>) {
    && (f.Some? <==> r.Some?)
    && (f.Some? ==> a.looked[r.value].Some? && a.looked[r.value].value.serial == f.value.serial)
  }

  ghost predicate History(log: seq<Arrival>, fate: seq<Option<UdpLane>>, sel: Selector) {
    && |log| == |fate| && sel == SelectorAfter(FRESH_SELECTOR, log)
    && forall n :: 0 <= n < |log| ==> InOrder(log[n]) && Matches(log[n], Selected(FRESH_SELECTOR, log, n), fate[n])
  }

  lemma HistoryMore(log: seq<Arrival>, fate: seq<Option<UdpLane>>, sel: Selector, a: Arrival, f: Option<UdpLane>)
    requires History(log, fate, sel) && InOrder(a) && Matches(a, ChooseRacing(sel, a).1, f)
    ensures History(log + [a], fate + [f], ChooseRacing(sel, a).0)
  {
    hide ChooseRacing, InOrder, Matches, SelectorAfter;
    SelectorAfterSnoc(FRESH_SELECTOR, log, a);
    var more := log + [a];
    forall n | 0 <= n < |more|
      ensures InOrder(more[n]) && Matches(more[n], Selected(FRESH_SELECTOR, more, n), (fate + [f])[n])
    {
      assert more[..n] == log[..n];
      if n == |log| {
        assert log[..n] == log;
      } else {
        assert Selected(FRESH_SELECTOR, more, n) == Selected(FRESH_SELECTOR, log, n);
      }
    }
  }

  /** Lane objects are numbered in order of attachment. */
  ghost predicate Numbered(attached: seq<UdpLane>, all: set<UdpLane>) {
    && (forall i :: 0 <= i < |attached| ==> attached[i] in all && attached[i].serial == i)
    && (forall l :: l in all ==> l.serial < |attached| && attached[l.serial] == l)
  }

  function SlotsIn(lanes: map<StreamIndex, UdpLane>): (snapshot: seq<UdpLane?>)
    ensures |snapshot| == MAX_STREAMS
    ensures forall i: StreamIndex :: if i in lanes then snapshot[i] == lanes[i] else snapshot[i] == null
  {
    seq(64, i requires 0 <= i < 64 => if i in lanes then lanes[i] else null)
  }

  ghost function LaneViews(lanes: seq<UdpLane>): (views: seq<UdpLifecycle.Lane>)
    reads lanes`closed
    ensures |views| == |lanes|
    ensures forall i :: 0 <= i < |lanes| ==> views[i] == UdpLifecycle.Lane(0, lanes[i].streamID, lanes[i].closed)
  {
    if lanes == [] then []
    else
      var l := lanes[|lanes| - 1];
      LaneViews(lanes[..|lanes| - 1]) + [UdpLifecycle.Lane(0, l.streamID, l.closed)]
  }

  class AggregatedUdpSession {
    const key: nat
    const registry: UdpSessionRegistry
    const selector: UdpLaneSelector
    var ctxDone: bool
    var closed: bool          // the once-only close has run
    var backendOpen: bool
    var lanes: map<StreamIndex, UdpLane>
    var downlinkDrops: nat
    /** These three stand for the environment: the packet pool, the packets that
        the other sessions using it hold, and every lane ever attached, whose
        writer and reader may still run. */
    var free: set<Packet>
    var elsewhere: set<Packet>
    var all: set<UdpLane>
    /** The lanes in order of attachment; every packet object ever seen and its
        place; every backend packet, what the selector saw when it arrived, and
        the lane it went to, if any. */
    ghost var attached: seq<UdpLane>
    ghost var owner: map<Packet, Place>
    ghost var received: seq<seq<byte>>
    ghost var log: seq<Arrival>
    ghost var fate: seq<Option<UdpLane>>

    constructor (key: nat, registry: UdpSessionRegistry)
      ensures this.key == key && this.registry == registry
      ensures Valid() && Recorded() && fresh(selector) && selector.View() == FRESH_SELECTOR
      ensures lanes == map[] && all == {} && received == [] && downlinkDrops == 0
      ensures owner == map[] && free == {} && elsewhere == {} && attached == [] && log == [] && fate == []
      ensures !ctxDone && !closed && backendOpen
    {
      this.key, this.registry := key, registry;
      selector := new UdpLaneSelector();
      ctxDone, closed, backendOpen := false, false, true;
      lanes, free, elsewhere, downlinkDrops := map[], {}, {}, 0;
      all, attached, owner, received, log, fate := {}, [], map[], [], [], [];
    }

    /** What lane l has been given so far. */
    ghost function Enqueued(l: UdpLane): seq<seq<byte>>
      requires |received| == |fate|
      reads this`received, this`fate
    {
      Delivered(received, fate, l)
    }

    ghost predicate Queued(l: UdpLane)
      requires |received| == |fate|
      reads this`received, this`fate, this`owner, l`out, l`taken, owner.Keys
    {
      && |l.out| <= QUEUE_SIZE
      && l.taken + |l.out| == |Enqueued(l)|
      && forall i :: 0 <= i < |l.out| ==>
           && l.out[i] in owner && owner[l.out[i]] == OnLane(l, l.taken + i)
           && l.out[i].Bytes() == Enqueued(l)[l.taken + i]
    }

    /** Its writer has written exactly the first payloads the lane was given. */
    ghost predicate Wrote(l: UdpLane)
      requires |received| == |fate|
      reads this`received, this`fate, this`owner, l`taken, l`wire, l`writerDone, l`inFlight, owner.Keys
    {
      && |l.Written()| <= l.taken <= |Enqueued(l)|
      && l.Written() == Enqueued(l)[..|l.Written()|]
      && (!l.writerDone ==> |l.Written()| + (if l.inFlight.Some? then 1 else 0) == l.taken)
      && (l.inFlight.Some? ==>
            && !l.writerDone
            && l.inFlight.value in owner && owner[l.inFlight.value] == OnLane(l, l.taken - 1)
            && l.inFlight.value.Bytes() == Enqueued(l)[l.taken - 1])
    }

    ghost predicate LaneOk(l: UdpLane)
      requires |received| == |fate|
      reads this`received, this`fate, this`owner, l`out, l`taken, l`wire, l`writerDone, l`inFlight, owner.Keys
    {
      Queued(l) && Wrote(l)
    }

    ghost predicate Valid()
      reads this`received, this`fate, this`downlinkDrops, this`owner, this`free, this`elsewhere
      reads this`lanes, this`all, this`attached, all`out, all`taken, all`wire, all`writerDone, all`inFlight, owner.Keys
    {
      && |received| == |fate|
      && downlinkDrops == Dropped(fate)
      && (forall p :: p in free ==> p in owner && owner[p] == Pooled)
      && (forall p :: p in elsewhere ==> p in owner && owner[p] == Elsewhere)
      && (forall l :: l in all ==> LaneOk(l))
      && (forall i :: i in lanes ==> lanes[i] in all && lanes[i].streamID == i)
      && (forall n :: 0 <= n < |fate| && fate[n].Some? ==> fate[n].value in all)
      && Numbered(attached, all)
    }

    ghost function Snapshot(): (snapshot: seq<UdpLane?>)
      reads this`lanes
      ensures |snapshot| == MAX_STREAMS
    {
      SlotsIn(lanes)
    }

    method SnapshotLanesLocked() returns (snapshot: seq<UdpLane?>)
      ensures snapshot == Snapshot()
      ensures forall i: StreamIndex :: if i in lanes then snapshot[i] == lanes[i] else snapshot[i] == null
    {
      snapshot := [];
      for i := 0 to MAX_STREAMS
        invariant |snapshot| == i && snapshot == Snapshot()[..i]
      {
        snapshot := snapshot + [if i in lanes then lanes[i] else null];
      }
    }

    // --------------------------------------------------------- the packet pool

    ghost predicate Idle(p: Packet)
      reads this, all
    {
      forall l :: l in all ==> p !in l.out && l.inFlight != Some(p)
    }

    /** A lane is as it was when neither it nor its packets have changed. */
    twostate lemma LaneUntouched(m: UdpLane)
      requires |received| == |fate| && received == old(received) && fate == old(fate) && old(LaneOk(m))
      requires unchanged(m`out, m`taken, m`wire, m`writerDone, m`inFlight)
      requires forall p :: p in old(owner) && old(owner[p]) != Pooled && old(owner[p]) != Elsewhere ==>
        p in owner && owner[p] == old(owner[p]) && p.Bytes() == old(p.Bytes())
      ensures LaneOk(m)
    {
      hide Delivered, QueuePart;
    }

    /** Likewise when one packet that is not on the lane changes hands. */
    twostate lemma LaneUntouchedBut(m: UdpLane, new p: Packet)
      requires |received| == |fate| && received == old(received) && fate == old(fate) && old(LaneOk(m))
      requires unchanged(m`out, m`taken, m`wire, m`writerDone, m`inFlight)
      requires p !in m.out && m.inFlight != Some(p)
      requires forall q :: q in old(owner) && q != p ==>
        q in owner && owner[q] == old(owner[q]) && q.Bytes() == old(q.Bytes())
      ensures LaneOk(m)
    {
      hide Delivered, QueuePart;
    }

    /** No lane has a packet that is in the pool or held elsewhere. */
    lemma OffLanes(p: Packet)
      requires Valid() && (p in free || p in elsewhere)
      ensures Idle(p)
    {
      hide Delivered, QueuePart, Numbered, Dropped;
      forall l | l in all
        ensures p !in l.out && l.inFlight != Some(p)
      {
        assert LaneOk(l);
      }
    }

    /** Other sessions write to the packets they hold. */
    method OthersWrite()
      requires Valid()
      modifies elsewhere
      ensures Valid()
    {
      hide Numbered, Delivered, Dropped, QueuePart, LaneOk;
      modify elsewhere;
      forall l | l in all
        ensures LaneOk(l)
      {
        LaneUntouched(l);
      }
    }

    /** They put some of them, or new ones, into the pool and take others out. */
    method OthersExchange()
      requires Valid()
      modifies this`free, this`elsewhere, this`owner
      ensures Valid()
      ensures forall p :: p in free || p in elsewhere ==> fresh(p) || p in old(free) || p in old(elsewhere)
      ensures fresh(owner.Keys - old(owner.Keys))
    {
      hide Numbered, Delivered, Dropped, QueuePart, LaneOk;
      var fill := new Packet();
      var give: set<Packet> :| give <= elsewhere;
      var take: set<Packet> :| take <= free;
      ghost var to := map p | p in owner.Keys + {fill} ::
        if p in take then Elsewhere else if p in give + {fill} then Pooled else owner[p];
      free, elsewhere := (free - take) + give + {fill}, (elsewhere - give) + take;
      owner := to;
      forall l | l in all
        ensures LaneOk(l)
      {
        LaneUntouched(l);
      }
    }

    method OthersUsePool()
      requires Valid()
      modifies this`free, this`elsewhere, this`owner, elsewhere
      ensures Valid()
      ensures forall p :: p in free || p in elsewhere ==> fresh(p) || p in old(free) || p in old(elsewhere)
      ensures fresh(owner.Keys - old(owner.Keys))
    {
      OthersWrite();
      OthersExchange();
    }

    /** Takes a pooled object, or makes a new one, and fills it. */
    method AcquirePacket(payload: seq<byte>, ghost lane: UdpLane) returns (p: Packet)
      requires Valid() && lane in all
      modifies this`free, this`elsewhere, this`owner, free, elsewhere
      ensures Valid() && Idle(p) && p !in free && p !in elsewhere && (p in old(owner) || fresh(p))
      ensures p.Bytes() == payload && p in owner && owner[p] == OnLane(lane, lane.taken + |lane.out|)
      ensures fresh(owner.Keys - old(owner.Keys))
    {
      OthersUsePool();
      p := TakeFromPool(payload, lane);
    }

    method TakeFromPool(payload: seq<byte>, ghost lane: UdpLane) returns (p: Packet)
      requires Valid() && lane in all
      modifies this`free, this`owner, free
      ensures Valid() && Idle(p) && p !in free && p !in elsewhere && (p in old(free) || fresh(p))
      ensures p.Bytes() == payload && p in owner && owner[p] == OnLane(lane, lane.taken + |lane.out|)
      ensures fresh(owner.Keys - old(owner.Keys))
    {
      hide *;
      p := GetPacket();
      FillPacket(p, payload, lane);
    }

    method GetPacket() returns (p: Packet)
      requires Valid()
      modifies this`free
      ensures Valid() && Idle(p) && p !in free && p !in elsewhere && (p in old(free) || fresh(p))
      ensures owner == old(owner) && (!fresh(p) ==> p in owner)
    {
      hide Numbered, Delivered, Dropped, QueuePart, LaneOk;
      var reuse: bool := *;
      if reuse && free != {} {
        p :| p in free;
        OffLanes(p);
        free := free - {p};
      } else {
        p := new Packet();
        NewIsIdle(p);
      }
    }

    method FillPacket(p: Packet, payload: seq<byte>, ghost lane: UdpLane)
      requires Valid() && lane in all && Idle(p) && p !in free && p !in elsewhere
      modifies this`owner, p
      ensures Valid() && Idle(p)
      ensures p.Bytes() == payload && p in owner && owner[p] == OnLane(lane, lane.taken + |lane.out|)
      ensures owner.Keys == old(owner.Keys) + {p}
    {
      hide Numbered, Delivered, Dropped, QueuePart, LaneOk;
      p.Fill(payload);
      owner := owner[p := OnLane(lane, lane.taken + |lane.out|)];
      forall m | m in all
        ensures LaneOk(m)
      {
        LaneUntouchedBut(m, p);
      }
    }

    twostate lemma NewIsIdle(new p: Packet)
      requires old(Valid()) && fresh(p) && all == old(all)
      requires forall l :: l in all ==> l.out == old(l.out) && l.inFlight == old(l.inFlight)
      ensures Idle(p)
    {
    }

    /** The whole of the buffer is in use again in the pool. */
    method ReleasePacket(p: Packet)
      requires Valid() && Idle(p) && p !in elsewhere
      modifies this`free, this`owner, p`len
      ensures Valid() && free == old(free) + {p} && owner.Keys == old(owner.Keys) + {p}
    {
      hide Numbered, Delivered, Dropped, QueuePart, LaneOk;
      p.len := |p.store|;
      free := free + {p};
      owner := owner[p := Pooled];
      forall m | m in all
        ensures LaneOk(m)
      {
        LaneUntouchedBut(m, p);
      }
    }

    // ---------------------------------------------------------- a lane's writer

    /** The writer receives the head of its queue. */
    method TakePacket(l: UdpLane)
      requires Valid() && l in all && !l.writerDone && l.inFlight == None && l.out != []
      modifies l`out, l`inFlight, l`taken
      ensures Valid() && l.inFlight == Some(old(l.out[0])) && l.out == old(l.out[1..])
    {
      hide Numbered, Delivered, Dropped, QueuePart;
      l.inFlight := Some(l.out[0]);
      l.out := l.out[1..];
      l.taken := l.taken + 1;
      forall m | m in all
        ensures LaneOk(m)
      {
        assert old(LaneOk(m));
      }
    }

    /** The writer hands the buffer to the connection and releases the packet;
        a failed write ends the writer and leaves the queue as it is. */
    method FinishWrite(l: UdpLane) returns (ok: bool)
      requires Valid() && l in all && l.inFlight.Some?
      modifies this`free, this`owner, l`inFlight, l`wire, l`closed, l`writerDone, l.inFlight.value`len
      ensures Valid() && l.inFlight == None
      ensures ok ==>
        && l.wire == old(l.wire) + [FromQueue(old(l.inFlight.value.Bytes()))]
        && !l.writerDone && l.closed == old(l.closed)
      ensures !ok ==> l.wire == old(l.wire) && l.closed && l.writerDone && l.failing
      ensures free == old(free) + {old(l.inFlight.value)} && owner.Keys == old(owner.Keys)
    {
      hide *;
      var p := l.inFlight.value;
      ok := WriteOut(l);
      ReleasePacket(p);
    }

    method WriteOut(l: UdpLane) returns (ok: bool)
      requires Valid() && l in all && l.inFlight.Some?
      modifies l`inFlight, l`wire, l`closed, l`writerDone
      ensures Valid() && l.inFlight == None
      ensures Idle(old(l.inFlight.value)) && old(l.inFlight.value) in owner && old(l.inFlight.value) !in elsewhere
      ensures ok ==>
        && l.wire == old(l.wire) + [FromQueue(old(l.inFlight.value.Bytes()))]
        && !l.writerDone && l.closed == old(l.closed)
      ensures !ok ==> l.wire == old(l.wire) && l.closed && l.writerDone && l.failing
    {
      hide Numbered, Delivered, Dropped, QueuePart;
      var p := l.inFlight.value;
      assert LaneOk(l);
      OffOtherLanes(l, p);
      ok := *;
      if ok || !l.failing {
        ok := true;
        QueuePartSnoc(l.wire, FromQueue(p.Bytes()));
        l.wire := l.wire + [FromQueue(p.Bytes())];
      } else {
        l.closed := true;
        l.writerDone := true;
      }
      l.inFlight := None;
      forall m | m in all && m != l
        ensures LaneOk(m)
      {
        LaneUntouched(m);
      }
    }

    /** A packet in flight is on no other lane and not queued. */
    lemma OffOtherLanes(l: UdpLane, p: Packet)
      requires Valid() && l in all && l.inFlight == Some(p)
      ensures p !in elsewhere && p !in free
      ensures forall m :: m in all ==> p !in m.out && (m != l ==> m.inFlight != Some(p))
    {
      hide Delivered, QueuePart, Numbered, Dropped;
      assert LaneOk(l);
      forall m | m in all
        ensures p !in m.out && (m != l ==> m.inFlight != Some(p))
      {
        assert LaneOk(m);
      }
    }

    /** After the lane was stopped, or the session's context ended, its writer
        releases what is queued. */
    method DrainQueue(l: UdpLane)
      requires Valid() && l in all && (l.closed || ctxDone) && !l.writerDone && l.inFlight == None
      modifies this`free, this`owner, l`out, l`taken, l`writerDone, l.out`len
      ensures Valid() && l.out == [] && l.writerDone && owner.Keys == old(owner.Keys)
      ensures forall p :: p in free <==> p in old(free) || p in old(l.out)
    {
      hide *;
      EndWriter(l);
      ghost var queued, k, gone: set<Packet> := l.out, 0, {};
      while l.out != []
        modifies this`free, this`owner, l`out, l`taken, queued`len
        invariant Valid() && l in all && l.writerDone && l.inFlight == None && owner.Keys == old(owner.Keys)
        invariant 0 <= k <= |queued| && l.out == queued[k..] && free == old(free) + gone
        invariant forall i :: 0 <= i < k ==> queued[i] in gone
        invariant forall p :: p in gone ==> p in queued
        decreases |l.out|
      {
        assert l.out[0] == queued[k];
        gone := gone + {l.out[0]};
        DrainHead(l);
        k := k + 1;
      }
    }

    method EndWriter(l: UdpLane)
      requires Valid() && l in all && l.inFlight == None
      modifies l`writerDone
      ensures Valid() && l.writerDone
    {
      hide Numbered, Delivered, Dropped, QueuePart;
      l.writerDone := true;
      forall m | m in all
        ensures LaneOk(m)
      {
        assert old(LaneOk(m));
      }
    }

    method DrainHead(l: UdpLane)
      requires Valid() && l in all && l.writerDone && l.inFlight == None && l.out != []
      modifies this`free, this`owner, l`out, l`taken, {l.out[0]}`len
      ensures Valid() && l.out == old(l.out[1..]) && free == old(free) + {old(l.out[0])}
      ensures owner.Keys == old(owner.Keys)
    {
      var p := l.out[0];
      assert LaneOk(l);
      DropHead(l);
      ReleasePacket(p);
    }

    method DropHead(l: UdpLane)
      requires Valid() && l in all && l.writerDone && l.inFlight == None && l.out != []
      modifies l`out, l`taken
      ensures Valid() && l.out == old(l.out[1..]) && Idle(old(l.out[0])) && old(l.out[0]) !in elsewhere
    {
      hide Numbered, Delivered, Dropped, QueuePart;
      ghost var p := l.out[0];
      assert LaneOk(l);
      l.out := l.out[1..];
      l.taken := l.taken + 1;
      forall m | m in all
        ensures LaneOk(m) && p !in m.out && m.inFlight != Some(p)
      {
        assert old(LaneOk(m));
      }
    }

    /** The lane's reader answers a probe on the same connection. */
    method WriteReply(l: UdpLane, packet: seq<byte>) returns (ok: bool)
      requires Valid() && l in all
      modifies l`wire
      ensures Valid() && l.Written() == old(l.Written()) && (!l.failing ==> ok)
      ensures l.wire == if ok then old(l.wire) + [Reply(packet)] else old(l.wire)
    {
      hide Numbered, Delivered, Dropped, QueuePart;
      ok := *;
      if ok || !l.failing {
        ok := true;
        QueuePartSnoc(l.wire, Reply(packet));
        l.wire := l.wire + [Reply(packet)];
      }
      forall m | m in all
        ensures LaneOk(m)
      {
        assert old(LaneOk(m));
      }
    }

    method Stop(lane: UdpLane)
      requires Valid()
      modifies lane`closed
      ensures Valid() && lane.closed
    {
      hide Queued, Wrote, LaneOk, Dropped, Delivered, Numbered;
      lane.closed := true;
    }

    /** One step of whoever works on a lane without the session's lock. */
    method LaneStep(l: UdpLane)
      requires Valid() && l in all
      modifies this`free, this`owner, l`out, l`inFlight, l`taken, l`wire, l`closed, l`writerDone, owner.Keys`len
      ensures Valid() && owner.Keys == old(owner.Keys)
      ensures (old(l.closed) ==> l.closed) && (l.closed ==> old(l.closed) || l.failing) && |l.out| <= |old(l.out)|
    {
      assert LaneOk(l);
      hide Numbered, Delivered, Dropped, QueuePart;
      if {
        case l.failing => Stop(l);
        case true =>
          var packet: seq<byte> := *;
          var ok := WriteReply(l, packet);
        case !l.writerDone && l.inFlight.Some? => var ok := FinishWrite(l);
        case !l.writerDone && l.inFlight == None && (l.closed || ctxDone) => DrainQueue(l);
        case !l.writerDone && l.inFlight == None && l.out != [] => TakePacket(l);
      }
    }

    /** While the lock is held nothing is queued and the lane map stands still,
        but the lanes' writers and readers go on. */
    method LanesRun()
      requires Valid()
      modifies this`free, this`owner, all, owner.Keys
      ensures Valid() && owner.Keys == old(owner.Keys)
      ensures forall l :: l in all ==>
        (old(l.closed) ==> l.closed) && (l.closed ==> old(l.closed) || l.failing) && |l.out| <= |old(l.out)|
    {
      hide *;
      var schedule: seq<UdpLane> := *;
      for k := 0 to |schedule|
        invariant Valid() && owner.Keys == old(owner.Keys)
        invariant forall l :: l in all ==>
          (old(l.closed) ==> l.closed) && (l.closed ==> old(l.closed) || l.failing) && |l.out| <= |old(l.out)|
      {
        if schedule[k] in all {
          LaneStep(schedule[k]);
        }
      }
    }

    // ------------------------------------------------------- a backend packet

    /** Lane steps under the lock only make a snapshot look later. */
    twostate lemma LooksLater(snapshot: seq<UdpLane?>)
      requires |snapshot| == MAX_STREAMS
      requires all == old(all) && forall l :: l in old(all) ==> (old(l.closed) ==> l.closed) && |l.out| <= |old(l.out)|
      requires forall i :: 0 <= i < |snapshot| ==> snapshot[i] == null || snapshot[i] in old(all)
      ensures Later(old(SlotsOf(snapshot)), SlotsOf(snapshot))
    {
    }

    /** The lanes run on, and the snapshot looks later. */
    method LanesRunUnder(snapshot: seq<UdpLane?>) returns (ghost slots: Slots)
      requires Valid() && |snapshot| == MAX_STREAMS
      requires forall i :: 0 <= i < |snapshot| ==> snapshot[i] == null || snapshot[i] in all
      modifies this`free, this`owner, all, owner.Keys
      ensures Valid() && owner.Keys == old(owner.Keys)
      ensures slots == SlotsOf(snapshot) && Later(old(SlotsOf(snapshot)), slots)
      ensures forall l :: l in all ==> (old(l.closed) ==> l.closed) && (l.closed ==> old(l.closed) || l.failing)
    {
      hide Valid, SlotsOf, Later;
      LanesRun();
      LooksLater(snapshot);
      slots := SlotsOf(snapshot);
    }

    /** A fresh pick: the least depth is measured and then looked for. */
    method Seek(snapshot: seq<UdpLane?>, canStripe: bool)
      returns (r: Option<StreamIndex>, ghost s2: Slots, ghost s3: Slots)
      requires Valid() && |snapshot| == MAX_STREAMS
      requires forall i :: 0 <= i < |snapshot| ==> snapshot[i] == null || snapshot[i] in all
      modifies selector
      modifies this`free, this`owner, all, owner.Keys
      ensures Valid() && owner.Keys == old(owner.Keys)
      ensures forall l :: l in all ==> (old(l.closed) ==> l.closed) && (l.closed ==> old(l.closed) || l.failing)
      ensures Later(old(SlotsOf(snapshot)), s2) && Later(s2, s3) && s3 == SlotsOf(snapshot)
      ensures
        var sel := old(selector.View());
        (selector.View(), r) ==
          if canStripe && Least(s2) >= QUEUE_SIZE then (sel.(hasCurrent := false), None)
          else if canStripe then Pick(sel, Scan(s3, sel.cursor, 0, Exactly(Least(s2))), STRIPE_SIZE - 1)
          else Pick(sel, Scan(s3, sel.cursor, 0, Below(QUEUE_SIZE)), 0)
    {
      hide Valid, SlotsOf, Later, Scan, MinDepth, Least;
      s2 := LanesRunUnder(snapshot);
      var minimumDepth := MinimumDepth(snapshot);
      if canStripe && minimumDepth >= QUEUE_SIZE {
        selector.Forget();
        LaterItself(s2);
        return None, s2, s2;
      }
      s3 := LanesRunUnder(snapshot);
      if canStripe {
        r := selector.ScanAndSettle(snapshot, Exactly(minimumDepth), STRIPE_SIZE - 1);
      } else {
        r := selector.ScanAndSettle(snapshot, Below(QUEUE_SIZE), 0);
      }
    }

    /** The scheduling decision, with the lanes running on between its reads. */
    method ChooseLane(snapshot: seq<UdpLane?>, now: int) returns (r: Option<StreamIndex>, ghost a: Arrival)
      requires Valid() && |snapshot| == MAX_STREAMS
      requires forall i :: 0 <= i < |snapshot| ==> snapshot[i] == null || snapshot[i] in all
      modifies selector
      modifies this`free, this`owner, all, owner.Keys
      ensures Valid() && owner.Keys == old(owner.Keys)
      ensures forall l :: l in all ==> (old(l.closed) ==> l.closed) && (l.closed ==> old(l.closed) || l.failing)
      ensures InOrder(a) && a.counted == old(SlotsOf(snapshot)) && a.scanned == SlotsOf(snapshot) && a.now == now
      ensures (selector.View(), r) == ChooseRacing(old(selector.View()), a)
    {
      hide Valid, SlotsOf, Later, Scan, MinDepth, Least, AnyLive, CanStripe, Eligible;
      var canStripe, activeLanes := CountLanes(snapshot);
      ghost var s0 := SlotsOf(snapshot);
      LaterItself(s0);
      if activeLanes == 0 {
        selector.Forget();
        return None, Arrival(s0, s0, s0, s0, now);
      }
      ghost var s1 := LanesRunUnder(snapshot);
      LaterItself(s1);
      var decided;
      decided, r := selector.Stay(snapshot, canStripe, now);
      if decided {
        return r, Arrival(s0, s1, s1, s1, now);
      }
      ghost var s2, s3;
      r, s2, s3 := Seek(snapshot, canStripe);
      a := Arrival(s0, s1, s2, s3, now);
    }

    lemma LaterItself(slots: Slots)
      ensures Later(slots, slots)
    {
    }

    /** A send on the bounded queue that does not wait: a full queue drops. */
    method SendOrRelease(lane: UdpLane, p: Packet, ghost payload: seq<byte>) returns (ok: bool)
      requires Valid() && lane in all && Idle(p) && p !in elsewhere
      requires p.Bytes() == payload && p in owner && owner[p] == OnLane(lane, lane.taken + |lane.out|)
      modifies lane`out, this`free, this`owner, this`received, this`fate, this`downlinkDrops, p`len
      ensures Valid() && ok == (old(|lane.out|) < QUEUE_SIZE)
      ensures lane.out == if ok then old(lane.out) + [p] else old(lane.out)
      ensures received == old(received) + [payload]
      ensures if ok then fate == old(fate) + [Some(lane)] && downlinkDrops == old(downlinkDrops)
              else fate == old(fate) + [None] && downlinkDrops == old(downlinkDrops) + 1
      ensures owner.Keys == old(owner.Keys)
    {
      hide Numbered, Delivered, Dropped, QueuePart, LaneOk;
      ok := |lane.out| < QUEUE_SIZE;
      if ok {
        Push(lane, p, payload);
      } else {
        ReleasePacket(p);
        CountDrop(payload);
      }
    }

    method Push(lane: UdpLane, p: Packet, ghost payload: seq<byte>)
      requires Valid() && lane in all && |lane.out| < QUEUE_SIZE
      requires p.Bytes() == payload && p in owner && owner[p] == OnLane(lane, lane.taken + |lane.out|)
      modifies lane`out, this`received, this`fate
      ensures Valid() && lane.out == old(lane.out) + [p]
      ensures received == old(received) + [payload] && fate == old(fate) + [Some(lane)]
    {
      hide Numbered, Delivered, Dropped, QueuePart;
      ghost var before, beforeFate := received, fate;
      lane.out := lane.out + [p];
      received := received + [payload];
      fate := fate + [Some(lane)];
      DroppedSnoc(beforeFate, Some(lane));
      assert LaneOk(lane) by {
        assert old(LaneOk(lane));
        DeliveredSnoc(before, beforeFate, lane, payload, Some(lane));
      }
      forall l | l in all && l != lane
        ensures LaneOk(l)
      {
        LaneNotGiven(l, payload, Some(lane));
      }
    }

    /** A lane is as it was when a packet went elsewhere or was dropped. */
    twostate lemma LaneNotGiven(m: UdpLane, new payload: seq<byte>, new to: Option<UdpLane>)
      requires old(|received| == |fate|) && old(LaneOk(m)) && to != Some(m)
      requires received == old(received) + [payload] && fate == old(fate) + [to] && owner == old(owner)
      requires unchanged(m) && forall p :: p in owner ==> p.Bytes() == old(p.Bytes())
      ensures LaneOk(m)
    {
      hide Delivered, QueuePart;
      DeliveredSnoc(old(received), old(fate), m, payload, to);
    }

    method CountDrop(ghost payload: seq<byte>)
      requires Valid()
      modifies this`downlinkDrops, this`received, this`fate
      ensures Valid()
      ensures received == old(received) + [payload] && fate == old(fate) + [None]
      ensures downlinkDrops == old(downlinkDrops) + 1
    {
      hide Numbered, Delivered, Dropped, QueuePart;
      ghost var beforeFate := fate;
      downlinkDrops := downlinkDrops + 1;
      received := received + [payload];
      fate := fate + [None];
      DroppedSnoc(beforeFate, None);
      forall l | l in all
        ensures LaneOk(l)
      {
        LaneNotGiven(l, payload, None);
      }
    }

    /** The history is one of this selector's decisions. */
    ghost predicate Recorded()
      reads this`log, this`fate, selector
    {
      History(log, fate, selector.View())
    }

    lemma SnapshotAttached(snapshot: seq<UdpLane?>)
      requires Valid() && |snapshot| == MAX_STREAMS
      requires forall i: StreamIndex :: if i in lanes then snapshot[i] == lanes[i] else snapshot[i] == null
      ensures forall i :: 0 <= i < |snapshot| ==> snapshot[i] == null || snapshot[i] in all
    {
    }

    /** The slot chosen holds a listed lane, whose queue has room. */
    lemma ChosenIsListed(snapshot: seq<UdpLane?>, sel: Selector, a: Arrival, i: StreamIndex)
      requires Valid() && |snapshot| == MAX_STREAMS
      requires forall i: StreamIndex :: if i in lanes then snapshot[i] == lanes[i] else snapshot[i] == null
      requires InOrder(a) && Later(a.scanned, SlotsOf(snapshot)) && ChooseRacing(sel, a).1 == Some(i)
      ensures i in lanes && lanes[i] in all && |lanes[i].out| < QUEUE_SIZE && Matches(a, Some(i), Some(lanes[i]))
    {
      RacingChosenHasRoom(sel, a, SlotsOf(snapshot));
      hide LaneOk, Numbered, Dropped, ChooseRacing, Delivered;
      assert SlotsOf(snapshot)[i].value == lanes[i].View();
    }

    /** What was read last is what the lanes look like now, unless they have
        drained or stopped since; but for the packet just queued. */
    ghost predicate AsRead(a: Arrival, chosen: Option<StreamIndex>)
      reads this`lanes, lanes.Values
    {
      forall i :: i in lanes ==>
        && a.scanned[i].Some? && a.scanned[i].value.serial == lanes[i].serial
        && (a.scanned[i].value.closed ==> lanes[i].closed)
        && |lanes[i].out| <= a.scanned[i].value.depth + if chosen == Some(i) then 1 else 0
    }

    lemma LaterIsAsRead(snapshot: seq<UdpLane?>, a: Arrival)
      requires |snapshot| == MAX_STREAMS && Later(a.scanned, SlotsOf(snapshot))
      requires forall i: StreamIndex :: if i in lanes then snapshot[i] == lanes[i] else snapshot[i] == null
      ensures AsRead(a, None)
    {
      forall i | i in lanes
        ensures SlotsOf(snapshot)[i] == Some(lanes[i].View())
      {
      }
    }

    twostate lemma QueuedAsRead(new a: Arrival, new i: StreamIndex)
      requires old(Valid()) && old(AsRead(a, None)) && lanes == old(lanes) && i in lanes
      requires forall l :: l in old(lanes).Values ==>
        l.closed == old(l.closed) && |l.out| <= |old(l.out)| + if l == lanes[i] then 1 else 0
      ensures AsRead(a, Some(i))
    {
      hide LaneOk, Delivered, Dropped;
    }

    /** The packet goes to the slot chosen, where there is room. */
    method Place(snapshot: seq<UdpLane?>, i: StreamIndex, payload: seq<byte>, ghost sel: Selector, ghost a: Arrival)
      returns (ok: bool)
      requires Valid() && |snapshot| == MAX_STREAMS
      requires forall i: StreamIndex :: if i in lanes then snapshot[i] == lanes[i] else snapshot[i] == null
      requires InOrder(a) && a.scanned == SlotsOf(snapshot) && ChooseRacing(sel, a).1 == Some(i)
      modifies this`free, this`elsewhere, this`owner, this`received, this`fate, this`downlinkDrops
      modifies all, owner.Keys
      ensures Valid() && ok && i in lanes && received == old(received) + [payload]
      ensures downlinkDrops == old(downlinkDrops)
      ensures fate == old(fate) + [Some(lanes[i])] && Matches(a, Some(i), Some(lanes[i])) && AsRead(a, Some(i))
      ensures forall l :: l in all ==> (old(l.closed) ==> l.closed) && (l.closed ==> old(l.closed) || l.failing)
      ensures fresh(owner.Keys - old(owner.Keys))
    {
      hide *;
      SnapshotAttached(snapshot);
      ghost var slots := LanesRunUnder(snapshot);
      ChosenIsListed(snapshot, sel, a, i);
      LaterIsAsRead(snapshot, a);
      label Before:
      ok := Send(lanes[i], payload);
      QueuedAsRead@Before(a, i);
    }

    lemma PacketsOwned()
      requires Valid()
      ensures free <= owner.Keys && elsewhere <= owner.Keys
    {
    }

    method Send(lane: UdpLane, payload: seq<byte>) returns (ok: bool)
      requires Valid() && lane in all
      modifies lane`out, this`free, this`elsewhere, this`owner, this`received, this`fate, this`downlinkDrops, owner.Keys
      ensures Valid() && ok == (old(|lane.out|) < QUEUE_SIZE) && received == old(received) + [payload]
      ensures |lane.out| == old(|lane.out|) + if ok then 1 else 0
      ensures if ok then fate == old(fate) + [Some(lane)] && downlinkDrops == old(downlinkDrops)
              else fate == old(fate) + [None] && downlinkDrops == old(downlinkDrops) + 1
      ensures fresh(owner.Keys - old(owner.Keys))
    {
      hide *;
      PacketsOwned();
      var p := AcquirePacket(payload, lane);
      ok := SendOrRelease(lane, p, payload);
    }

    /** The decision carried out. */
    method Dispatch(snapshot: seq<UdpLane?>, r: Option<StreamIndex>, payload: seq<byte>,
                    ghost sel: Selector, ghost a: Arrival)
      returns (ok: bool)
      requires Valid() && |snapshot| == MAX_STREAMS
      requires forall i: StreamIndex :: if i in lanes then snapshot[i] == lanes[i] else snapshot[i] == null
      requires InOrder(a) && a.scanned == SlotsOf(snapshot) && ChooseRacing(sel, a).1 == r
      modifies this`free, this`elsewhere, this`owner, this`received, this`fate, this`downlinkDrops
      modifies all, owner.Keys
      ensures Valid() && ok == r.Some? && received == old(received) + [payload]
      ensures forall l :: l in all ==> (old(l.closed) ==> l.closed) && (l.closed ==> old(l.closed) || l.failing)
      ensures ok ==> r.value in lanes && fate == old(fate) + [Some(lanes[r.value])]
      ensures ok ==> downlinkDrops == old(downlinkDrops)
      ensures !ok ==> fate == old(fate) + [None] && downlinkDrops == old(downlinkDrops) + 1
      ensures Matches(a, r, fate[|fate| - 1]) && AsRead(a, r)
      ensures fresh(owner.Keys - old(owner.Keys))
    {
      hide Valid, SlotsOf, InOrder, Later, ChooseRacing;
      if r.None? {
        LaterItself(a.scanned);
        LaterIsAsRead(snapshot, a);
        CountDrop(payload);
        ok := false;
      } else {
        ok := Place(snapshot, r.value, payload, sel, a);
      }
    }

    ghost method Remember(a: Arrival, sel: Selector, before: seq<Option<UdpLane>>)
      requires History(log, before, sel) && (exists f :: fate == before + [f])
      requires InOrder(a) && Matches(a, ChooseRacing(sel, a).1, fate[|fate| - 1])
      requires selector.View() == ChooseRacing(sel, a).0
      modifies this`log
      ensures Recorded() && log == old(log) + [a]
    {
      hide History, InOrder, Matches, ChooseRacing;
      HistoryMore(log, before, sel, a, fate[|fate| - 1]);
      log := log + [a];
    }

    /** The decision, on a snapshot of the lane map. */
    method Decide(now: int) returns (snapshot: seq<UdpLane?>, r: Option<StreamIndex>, ghost a: Arrival)
      requires Valid()
      modifies this`free, this`owner, selector, all, owner.Keys
      ensures Valid() && owner.Keys == old(owner.Keys) && snapshot == SlotsIn(lanes)
      ensures forall l :: l in all ==> (old(l.closed) ==> l.closed) && (l.closed ==> old(l.closed) || l.failing)
      ensures InOrder(a) && a.counted == old(SlotsOf(Snapshot())) && a.scanned == SlotsOf(snapshot) && a.now == now
      ensures (selector.View(), r) == ChooseRacing(old(selector.View()), a)
    {
      snapshot := SnapshotLanesLocked();
      SnapshotAttached(snapshot);
      hide *;
      r, a := ChooseLane(snapshot, now);
    }

    /** The packet was queued on exactly the lane chosen, or counted as a drop;
        `a` is what the lanes looked like when they were read, between what they
        were before and what they are now. */
    twostate predicate Outcome(payload: seq<byte>, now: int, ok: bool, a: Arrival)
      reads this`received, this`fate, this`lanes, this`downlinkDrops, selector, lanes.Values
    {
      var (after, chosen) := ChooseRacing(old(selector.View()), a);
      && InOrder(a) && a.counted == old(SlotsOf(Snapshot())) && AsRead(a, chosen) && a.now == now
      && selector.View() == after && ok == chosen.Some? && received == old(received) + [payload]
      && (ok ==>
            && chosen.value in lanes && fate == old(fate) + [Some(lanes[chosen.value])]
            && downlinkDrops == old(downlinkDrops))
      && (!ok ==> fate == old(fate) + [None] && downlinkDrops == old(downlinkDrops) + 1)
    }

    /** The decision and what becomes of the packet. */
    method Handle(payload: seq<byte>, now: int) returns (ok: bool, ghost a: Arrival)
      requires Valid()
      modifies this`free, this`elsewhere, this`owner, this`received, this`fate, this`downlinkDrops, selector
      modifies all, owner.Keys
      ensures Valid() && Outcome(payload, now, ok, a) && (exists f :: fate == old(fate) + [f])
      ensures InOrder(a) && selector.View() == ChooseRacing(old(selector.View()), a).0
      ensures forall l :: l in all ==> (old(l.closed) ==> l.closed) && (l.closed ==> old(l.closed) || l.failing)
      ensures fate != [] && Matches(a, ChooseRacing(old(selector.View()), a).1, fate[|fate| - 1])
      ensures fresh(owner.Keys - old(owner.Keys))
    {
      hide Valid, SlotsOf, InOrder, ChooseRacing, Matches, SlotsIn;
      ghost var sel := selector.View();
      var snapshot, r;
      snapshot, r, a := Decide(now);
      ok := Dispatch(snapshot, r, payload, sel, a);
    }

    method HandleRecorded(payload: seq<byte>, now: int) returns (ok: bool, ghost a: Arrival)
      requires Valid() && Recorded()
      modifies this`free, this`elsewhere, this`owner, this`received, this`fate, this`log, this`downlinkDrops, selector
      modifies all, owner.Keys
      ensures Valid() && Recorded() && Outcome(payload, now, ok, a) && log == old(log) + [a]
      ensures forall l :: l in all ==> (old(l.closed) ==> l.closed) && (l.closed ==> old(l.closed) || l.failing)
      ensures fresh(owner.Keys - old(owner.Keys))
    {
      hide Valid, Outcome, InOrder, Matches, ChooseRacing, History, Numbered;
      ghost var before, sel := fate, selector.View();
      ok, a := Handle(payload, now);
      Remember(a, sel, before);
    }

    /** Among reorder-capable lanes a stripe is under way that the packet belongs
        to: the lane it is on has fewer than 16 packets queued and is not stopped
        even after the decision, picks are left, and the packet comes within 2 ms. */
    twostate predicate InStripe(new now: int)
      reads this`lanes, lanes.Values
    {
      var sel := old(selector.View());
      && old(CanStripe(SlotsOf(Snapshot()))) && sel.hasCurrent && sel.remaining > 0
      && (sel.lastPacket == 0 || now - sel.lastPacket <= 2_000_000)
      && sel.current in old(lanes) && sel.current in lanes && old(|lanes[sel.current].out|) < 16
      && !lanes[sel.current].closed
    }

    twostate lemma StripeGoesOnHere(payload: seq<byte>, new now: int, new ok: bool, new a: Arrival)
      requires old(Valid()) && Outcome(payload, now, ok, a) && InStripe(now) && lanes == old(lanes)
      ensures ok && fate == old(fate) + [Some(lanes[old(selector.current)])]
    {
      hide ChooseRacing, CanStripe, Valid;
      var sel := old(selector.View());
      ghost var lane := lanes[sel.current];
      assert old(SlotsOf(Snapshot()))[sel.current] == Some(old(lane.View()));
      assert CanGoOn(sel, a);
      AllReorder(a.counted);
      StripeRule(sel, a);
    }

    /** One backend packet. A session in service stays so, and the packets that
        turn up are new ones. */
    method EnqueueDownlink(payload: seq<byte>, now: int) returns (ok: bool, ghost a: Arrival)
      requires Valid() && Recorded()
      modifies this`free, this`elsewhere, this`owner, this`received, this`fate, this`log, this`downlinkDrops, selector
      modifies all, owner.Keys
      ensures Valid() && Recorded() && Outcome(payload, now, ok, a) && log == old(log) + [a]
      ensures forall l :: l in all ==> (old(l.closed) ==> l.closed) && (l.closed ==> old(l.closed) || l.failing)
      ensures InStripe(now) ==> ok && fate == old(fate) + [Some(lanes[old(selector.current)])]
      ensures old(InService()) ==> InService()
      ensures fresh(owner.Keys - old(owner.Keys))
    {
      hide *;
      ok, a := HandleRecorded(payload, now);
      if InStripe(now) {
        StripeGoesOnHere(payload, now, ok, a);
      }
      StaysInService();
    }

    /** No packet object is in two places: not twice in the queues, not queued
        and in flight, not on a lane and pooled or held by another session. */
    lemma OnePlaceEach(l: UdpLane, m: UdpLane, i: nat, j: nat)
      requires Valid() && l in all && m in all
      ensures i < |l.out| && j < |m.out| && l.out[i] == m.out[j] ==> l == m && i == j
      ensures i < |l.out| ==> l.out[i] !in free && l.out[i] !in elsewhere && m.inFlight != Some(l.out[i])
      ensures l.inFlight.Some? ==> l.inFlight.value !in free && l.inFlight.value !in elsewhere
      ensures l.inFlight.Some? && l != m ==> l.inFlight != m.inFlight
      ensures free !! elsewhere
    {
      hide Delivered, QueuePart;
      assert LaneOk(l) && LaneOk(m);
    }

    ghost function QueuedPayloads(l: UdpLane): (ps: seq<seq<byte>>)
      reads l, l.out
      ensures |ps| == |l.out| && forall i :: 0 <= i < |ps| ==> ps[i] == l.out[i].Bytes()
    {
      seq(|l.out|, i requires 0 <= i < |l.out| reads l, l.out => l.out[i].Bytes())
    }

    /** Despite the reuse of buffers, a lane's writer has written exactly the
        first payloads queued on it, and the rest is still in flight and queued. */
    lemma WritesFifo(l: UdpLane)
      requires Valid() && l in all
      ensures l.Written() <= Enqueued(l)
      ensures !l.writerDone ==>
        Enqueued(l) == l.Written() + (if l.inFlight.Some? then [l.inFlight.value.Bytes()] else [])
                       + QueuedPayloads(l)
    {
      hide Delivered, QueuePart;
      assert LaneOk(l);
    }

    /** The packets of one pin period, from the packet that chose the lane on,
        go to that lane object or are dropped; those not dropped are, in order
        and without a gap, one stretch of what the lane was given and so of
        what its writer writes. */
    lemma PinPeriodIsOneStream(i: nat, j: nat) returns (a: nat, b: nat)
      requires Valid() && Recorded() && i <= j < |log| && fate[i].Some?
      requires PinPeriod(log, i, j, Selected(FRESH_SELECTOR, log, i).value, fate[i].value.serial)
      ensures forall k :: i <= k <= j ==> fate[k] == None || fate[k] == fate[i]
      ensures a <= b <= |Enqueued(fate[i].value)|
      ensures Enqueued(fate[i].value)[a..b] == Accepted(received[i..j + 1], fate[i..j + 1])
    {
      hide LaneOk, Delivered, ChooseRacing, SelectorAfter, Dropped, InOrder;
      var l := fate[i].value;
      forall k | i <= k <= j
        ensures fate[k] == None || fate[k] == fate[i]
      {
        InPeriod(i, j, k);
      }
      a, b := DeliveredStretch(received, fate, i, j + 1, l);
      AllOnOneLane(received[i..j + 1], fate[i..j + 1], l);
    }

    lemma InPeriod(i: nat, j: nat, k: nat)
      requires Valid() && Recorded() && i <= k <= j < |log| && fate[i].Some?
      requires PinPeriod(log, i, j, Selected(FRESH_SELECTOR, log, i).value, fate[i].value.serial)
      ensures fate[k] == None || fate[k] == fate[i]
    {
      hide LaneOk, Delivered, ChooseRacing, SelectorAfter, Dropped, InOrder;
      var p := Selected(FRESH_SELECTOR, log, i).value;
      if i < k && fate[k].Some? {
        assert PinPeriod(log, i, k, p, fate[i].value.serial);
        PinPersists(FRESH_SELECTOR, log, i, k, p, fate[i].value.serial);
        assert Matches(log[k], Selected(FRESH_SELECTOR, log, k), fate[k]);
        assert Holds(log[k].looked, p, fate[i].value.serial);
        assert attached[fate[i].value.serial] == fate[i].value && attached[fate[k].value.serial] == fate[k].value;
      }
    }

    /** The packets of an unbroken stripe, from the fresh pick on, go to one lane
        object, as long as it stays in its slot. */
    lemma StripeIsOnOneLane(i: nat, n: nat)
      requires Valid() && Recorded() && i <= n < |log| && n - i <= 15 && fate[i].Some? && CanStripe(log[i].counted)
      requires !CanGoOn(SelectorAfter(FRESH_SELECTOR, log[..i]), log[i])
      requires
        var p := Selected(FRESH_SELECTOR, log, i).value;
        Unbroken(log, i, n, p) && forall k: nat :: i < k <= n ==> Holds(log[k].looked, p, fate[i].value.serial)
      ensures fate[n] == fate[i]
    {
      hide LaneOk, Delivered, ChooseRacing, SelectorAfter, Dropped, InOrder, CanGoOn, CanStripe;
      var p := Selected(FRESH_SELECTOR, log, i).value;
      StripeGoesOn(FRESH_SELECTOR, log, i, n, p);
      assert Matches(log[n], Selected(FRESH_SELECTOR, log, n), fate[n]);
      if i < n {
        assert attached[fate[i].value.serial] == fate[i].value && attached[fate[n].value.serial] == fate[n].value;
      }
    }

    // --------------------------------------------------------------- the lanes

    ghost predicate Registered()
      reads registry
    {
      key in registry.sessions && registry.sessions[key] == this
    }

    /** Lanes that were not stopped are listed; the session is registered until
        its context is done, and not after it was closed. */
    ghost predicate InService()
      reads this`lanes, this`all, this`ctxDone, this`closed, registry, all`closed
    {
      && (forall l :: l in all && !l.closed ==> l.streamID in lanes && lanes[l.streamID] == l)
      && (!ctxDone ==> Registered())
      && (closed ==> ctxDone && lanes == map[] && !Registered())
    }

    ghost function SlotsView(): map<nat, nat>
      reads this`lanes
    {
      map i | i in lanes :: lanes[i].serial
    }

    ghost function LanesView(): (views: seq<UdpLifecycle.Lane>)
      reads this`attached, attached`closed
      ensures |views| == |attached|
      ensures forall i :: 0 <= i < |attached| ==>
        views[i] == UdpLifecycle.Lane(0, attached[i].streamID, attached[i].closed)
    {
      LaneViews(attached)
    }

    /** The session as a state of the lifecycle, alone in its world. */
    ghost function LifeView(): UdpLifecycle.State
      reads this`attached, this`lanes, this`ctxDone, this`closed, attached`closed, registry
    {
      var phase := if closed then UdpLifecycle.Finished else UdpLifecycle.Open;
      UdpLifecycle.State(
        [UdpLifecycle.Session(key, ctxDone, phase, SlotsView(), UdpLifecycle.Nobody)],
        LanesView(),
        if Registered() then map[key := 0] else map[])
    }

    /** A new session, once registered, is in service and what the lifecycle
        creates. */
    lemma NewInLifecycle()
      requires lanes == map[] && all == {} && attached == [] && !ctxDone && !closed && Registered()
      ensures InService()
      ensures UdpLifecycle.Step(UdpLifecycle.State([], [], map[]), UdpLifecycle.GetOrCreate(key), LifeView())
    {
    }

    /** It satisfies the invariant of the lifecycle. */
    lemma LifeViewInv()
      requires Valid() && InService()
      ensures UdpLifecycle.Inv(LifeView())
    {
      hide LaneOk, Delivered, Dropped;
      forall l | 0 <= l < |attached|
        ensures UdpLifecycle.LaneInv(LifeView(), l)
      {
      }
      assert UdpLifecycle.SessionInv(LifeView(), 0);
    }

    /** Every listed lane is an attached one under its own stream id. */
    ghost predicate Listing()
      reads this`lanes, this`all, this`attached
    {
      && (forall i :: i in lanes ==> lanes[i] in all && lanes[i].streamID == i)
      && Numbered(attached, all)
    }

    lemma ValidListing()
      requires Valid()
      ensures Listing()
    {
      hide LaneOk, Delivered, Dropped, Numbered;
    }

    /** What an attach does to the lanes. */
    twostate predicate Inserts(streamID: StreamIndex, new lane: UdpLane)
      reads this`lanes, this`all, this`attached, all`closed, lane
    {
      && lanes == old(lanes)[streamID := lane] && attached == old(attached) + [lane] && all == old(all) + {lane}
      && !lane.closed && lane.streamID == streamID && lane.serial == |old(attached)|
      && forall l :: l in old(all) ==>
           l.closed == (old(l.closed) || (streamID in old(lanes) && old(lanes)[streamID] == l))
    }

    twostate lemma InsertKeepsService(streamID: StreamIndex, new lane: UdpLane)
      requires old(InService()) && old(Listing()) && Inserts(streamID, lane) && !ctxDone
      requires ctxDone == old(ctxDone) && closed == old(closed) && registry.sessions == old(registry.sessions)
      ensures InService()
    {
    }

    twostate lemma InsertLanesView(streamID: StreamIndex, new lane: UdpLane)
      requires old(Listing()) && Inserts(streamID, lane)
      ensures
        LanesView() == UdpLifecycle.WithoutPredecessor(old(LifeView()), 0, streamID)
                       + [UdpLifecycle.Lane(0, streamID, false)]
    {
      hide LaneViews;
      forall i | 0 <= i < |old(attached)|
        ensures LanesView()[i] == UdpLifecycle.WithoutPredecessor(old(LifeView()), 0, streamID)[i]
      {
        var l := old(attached)[i];
        assert attached[i] == l && l in old(all);
        assert streamID in old(lanes) ==> old(attached)[old(lanes)[streamID].serial] == old(lanes)[streamID];
      }
    }

    twostate lemma InsertSlotsView(streamID: StreamIndex, new lane: UdpLane)
      requires lanes == old(lanes)[streamID := lane] && lane.serial == |old(attached)|
      ensures SlotsView() == old(SlotsView())[streamID := |old(attached)|]
    {
    }

    /** What attaching did, seen as a step of the lifecycle. */
    twostate lemma AttachView(streamID: StreamIndex, new lane: UdpLane)
      requires old(Listing()) && old(InService()) && Inserts(streamID, lane) && !ctxDone
      requires ctxDone == old(ctxDone) && closed == old(closed) && registry.sessions == old(registry.sessions)
      ensures InService() && LifeView() == UdpLifecycle.Attached(old(LifeView()), 0, streamID)
    {
      InsertKeepsService(streamID, lane);
      InsertLanesView(streamID, lane);
      InsertSlotsView(streamID, lane);
      hide InService, Listing, SlotsView, LanesView, UdpLifecycle.WithoutPredecessor;
    }

    /** A lane that reuses a stream id replaces, and stops, its predecessor. A
        session whose context is done takes no lane. */
    method AddLane(streamID: StreamIndex, supportsReorder: bool, failing: bool) returns (r: Option<UdpLane>)
      requires Valid() && InService()
      modifies this`lanes, this`all, this`attached, all`closed
      ensures Valid() && InService() && (r.None? <==> ctxDone)
      ensures ctxDone ==> lanes == old(lanes) && all == old(all)
      ensures !ctxDone ==>
        && fresh(r.value) && r.value.IsNew() && Enqueued(r.value) == []
        && r.value.streamID == streamID && r.value.supportsReorder == supportsReorder && r.value.failing == failing
        && lanes == old(lanes)[streamID := r.value] && all == old(all) + {r.value}
      ensures forall l :: l in old(all) ==>
        l.closed == (old(l.closed) || (!ctxDone && streamID in old(lanes) && old(lanes)[streamID] == l))
      ensures LifeView() == UdpLifecycle.Attached(old(LifeView()), 0, streamID)
      ensures UdpLifecycle.Reaches(old(LifeView()), LifeView())
    {
      UdpLifecycle.AttachReaches(LifeView(), 0, streamID);
      if ctxDone {
        return None;
      }
      ValidListing();
      var lane := ReplaceLane(streamID, supportsReorder, failing);
      hide Valid, InService, Listing, UdpLifecycle.Reaches, UdpLifecycle.Attached, LifeView;
      AttachView(streamID, lane);
      return Some(lane);
    }

    method ReplaceLane(streamID: StreamIndex, supportsReorder: bool, failing: bool) returns (lane: UdpLane)
      requires Valid()
      modifies this`lanes, this`all, this`attached, all`closed
      ensures Valid() && Inserts(streamID, lane)
      ensures fresh(lane) && lane.IsNew() && Enqueued(lane) == []
      ensures lane.supportsReorder == supportsReorder && lane.failing == failing
    {
      hide Valid, Numbered, Delivered, QueuePart;
      ValidListing();
      if streamID in lanes {
        Stop(lanes[streamID]);
      }
      lane := new UdpLane(streamID, supportsReorder, failing, |attached|);
      InsertLane(lane);
    }

    method InsertLane(lane: UdpLane)
      requires Valid() && lane !in all && lane.serial == |attached| && lane.IsNew()
      modifies this`lanes, this`all, this`attached
      ensures Valid() && Enqueued(lane) == []
      ensures lanes == old(lanes)[lane.streamID := lane] && all == old(all) + {lane}
      ensures attached == old(attached) + [lane]
    {
      hide Dropped, Delivered, QueuePart;
      NewLaneOk(lane);
      lanes := lanes[lane.streamID := lane];
      all := all + {lane};
      attached := attached + [lane];
      forall m | m in all && m != lane
        ensures LaneOk(m)
      {
        assert old(LaneOk(m));
      }
    }

    lemma NewLaneOk(lane: UdpLane)
      requires |received| == |fate| && Some(lane) !in fate && lane.IsNew()
      ensures LaneOk(lane) && Enqueued(lane) == []
    {
      NeverDelivered(received, fate, lane);
    }

    /** What a detach does to the lanes. */
    twostate predicate Deletes(lane: UdpLane)
      reads this`lanes, this`all, this`attached, all`closed, lane`closed
    {
      && lanes == (if lane.streamID in old(lanes) && old(lanes)[lane.streamID] == lane
                   then old(lanes) - {lane.streamID} else old(lanes))
      && all == old(all) && attached == old(attached) && lane in all
      && lane.closed && forall l :: l in all && l != lane ==> l.closed == old(l.closed)
    }

    twostate lemma DeleteKeepsService(lane: UdpLane)
      requires old(InService()) && old(Listing()) && Deletes(lane)
      requires ctxDone == old(ctxDone) && closed == old(closed) && registry.sessions == old(registry.sessions)
      ensures InService()
    {
      hide Numbered;
    }

    twostate lemma DeleteLanesView(lane: UdpLane)
      requires old(Listing()) && Deletes(lane)
      ensures lane.serial < |attached|
      ensures LanesView() == UdpLifecycle.Stop(old(LanesView()), lane.serial)
    {
      hide LaneViews;
      forall i | 0 <= i < |attached|
        ensures LanesView()[i] == UdpLifecycle.Stop(old(LanesView()), lane.serial)[i]
      {
        assert attached[i] in all && attached[i].serial == i;
      }
    }

    twostate lemma DeleteSlotsView(lane: UdpLane)
      requires old(Listing()) && Deletes(lane)
      ensures
        var slots := old(SlotsView());
        SlotsView() ==
          if lane.streamID in slots && slots[lane.streamID] == lane.serial then slots - {lane.streamID} else slots
    {
      if lane.streamID in old(lanes) {
        var l := old(lanes)[lane.streamID];
        assert l == lane <==> l.serial == lane.serial;
      }
    }

    twostate lemma DetachView(lane: UdpLane)
      requires old(Listing()) && old(InService()) && Deletes(lane)
      requires ctxDone == old(ctxDone) && closed == old(closed) && registry.sessions == old(registry.sessions)
      ensures InService() && lane.serial < |attached|
      ensures LifeView() == UdpLifecycle.Detached(old(LifeView()), lane.serial)
    {
      DeleteKeepsService(lane);
      DeleteLanesView(lane);
      DeleteSlotsView(lane);
      assert attached[lane.serial] == lane;
      hide InService, Listing, SlotsView, LanesView;
    }

    /** Stops the lane and takes it off the list; a successor under the same
        stream id stays listed. */
    method Detach(lane: UdpLane) returns (left: nat)
      requires Valid() && InService() && lane in all
      modifies this`lanes, lane`closed
      ensures Valid() && InService() && lane.closed && left == |lanes| && lane.serial < |attached|
      ensures lanes == if lane.streamID in old(lanes) && old(lanes)[lane.streamID] == lane
                       then old(lanes) - {lane.streamID} else old(lanes)
      ensures LifeView() == UdpLifecycle.Detached(old(LifeView()), lane.serial)
      ensures UdpLifecycle.Reaches(old(LifeView()), LifeView())
    {
      ValidListing();
      assert attached[lane.serial] == lane;
      UdpLifecycle.DetachReaches(LifeView(), lane.serial);
      Unlist(lane);
      hide Valid, InService, Listing, UdpLifecycle.Reaches, UdpLifecycle.Detached, LifeView;
      left := |lanes|;
      DetachView(lane);
    }

    method Unlist(lane: UdpLane)
      requires Valid() && lane in all
      modifies this`lanes, lane`closed
      ensures Valid() && Deletes(lane)
    {
      hide LaneOk, Dropped, Delivered, Numbered;
      Stop(lane);
      if lane.streamID in lanes && lanes[lane.streamID] == lane {
        lanes := lanes - {lane.streamID};
      }
    }

    // --------------------------------------------------------------- the close

    /** What a close does to a session not closed before. */
    twostate predicate Closes()
      reads this`lanes, this`all, this`attached, this`ctxDone, this`closed, registry, all`closed
    {
      && all == old(all) && attached == old(attached) && lanes == map[] && ctxDone && closed
      && (forall l :: l in all ==> l.closed == (old(l.closed) || l in old(lanes).Values))
      && registry.sessions == if old(Registered()) then old(registry.sessions) - {key} else old(registry.sessions)
    }

    twostate lemma CloseKeepsService()
      requires old(InService()) && old(Listing()) && Closes()
      ensures InService() && forall l :: l in all ==> l.closed
    {
      hide Numbered;
      forall l | l in all
        ensures l.closed
      {
        assert !old(l.closed) ==> l.streamID in old(lanes) && old(lanes)[l.streamID] == l;
      }
    }

    twostate lemma CloseLanesView()
      requires old(Listing()) && Closes()
      ensures LanesView() == UdpLifecycle.StopAll(old(LanesView()), old(SlotsView()).Values)
    {
      hide LaneViews;
      var slots := old(SlotsView());
      forall i | 0 <= i < |attached|
        ensures LanesView()[i] == UdpLifecycle.StopAll(old(LanesView()), slots.Values)[i]
      {
        var l := attached[i];
        assert l in all && l.serial == i;
        if l in old(lanes).Values {
          assert slots[l.streamID] == i;
        }
      }
    }

    twostate lemma CloseView()
      requires old(Listing()) && old(InService()) && !old(closed) && Closes()
      ensures InService() && (forall l :: l in all ==> l.closed)
      ensures LifeView() == UdpLifecycle.Closed(old(LifeView()), 0)
    {
      CloseKeepsService();
      CloseLanesView();
      assert SlotsView() == map[];
      hide InService, Listing, SlotsView, LanesView;
    }

    /** Runs once: the context ends, the backend socket closes, every listed
        lane stops, and the registry forgets the session unless a successor has
        its key. A second close does nothing. */
    method Close()
      requires Valid() && InService()
      modifies this`ctxDone, this`closed, this`backendOpen, this`lanes, all`closed, registry
      ensures Valid() && InService() && closed && (!old(closed) ==> !backendOpen)
      ensures forall l :: l in all ==> l.closed
      ensures registry.sessions == if old(Registered()) then old(registry.sessions) - {key} else old(registry.sessions)
      ensures LifeView() == UdpLifecycle.Closed(old(LifeView()), 0)
      ensures UdpLifecycle.Reaches(old(LifeView()), LifeView())
    {
      UdpLifecycle.CloseReaches(LifeView(), 0);
      if closed {
        return;
      }
      ValidListing();
      Retire();
      hide Valid, InService, Listing, UdpLifecycle.Reaches, UdpLifecycle.Closed, LifeView, Closes;
      CloseView();
    }

    method Retire()
      requires Valid()
      modifies this`ctxDone, this`closed, this`backendOpen, this`lanes, all`closed, registry
      ensures Valid() && Closes() && !backendOpen
    {
      hide Valid, Delivered, Dropped, Numbered, LaneOk;
      Cancel();
      StopListed();
      registry.Remove(key, this);
    }

    method Cancel()
      requires Valid()
      modifies this`ctxDone, this`closed, this`backendOpen
      ensures Valid() && ctxDone && closed && !backendOpen
    {
      hide LaneOk, Dropped, Delivered, Numbered;
      ctxDone, closed, backendOpen := true, true, false;
    }

    /** Stops every listed lane; the list is then empty. */
    method StopListed()
      requires Valid()
      modifies this`lanes, all`closed
      ensures Valid() && lanes == map[]
      ensures forall l :: l in all ==> l.closed == (old(l.closed) || l in old(lanes).Values)
    {
      ValidListing();
      hide Valid, Numbered;
      var rest := lanes.Keys;
      while rest != {}
        invariant Valid() && Listing() && lanes == old(lanes) && rest <= lanes.Keys
        invariant forall l :: l in all ==>
          l.closed == (old(l.closed) || (l.streamID in lanes && lanes[l.streamID] == l && l.streamID !in rest))
      {
        var id :| id in rest;
        Stop(lanes[id]);
        rest := rest - {id};
      }
      ForgetLanes();
    }

    method ForgetLanes()
      requires Valid()
      modifies this`lanes
      ensures Valid() && lanes == map[]
    {
      hide LaneOk, Dropped, Delivered, Numbered;
      lanes := map[];
    }

    /** No lane is listed twice. */
    lemma ListedApart()
      requires Valid()
      ensures forall i :: i in lanes ==> lanes[i] in all
      ensures forall i, j :: i in lanes && j in lanes && lanes[i] == lanes[j] ==> i == j
    {
      hide LaneOk, Numbered, Delivered, Dropped;
    }

    /** Other connections of the client attach. A lane that was listed stays so,
        and is not stopped, unless a new one replaces it. */
    method OthersAttach()
      requires Valid() && InService()
      modifies this`lanes, this`all, this`attached, all`closed
      ensures Valid() && InService() && old(all) <= all && forall l :: l in old(all) && old(l.closed) ==> l.closed
      ensures ctxDone ==> lanes == old(lanes)
      ensures forall i :: i in old(lanes) ==>
        i in lanes && (fresh(lanes[i]) || (lanes[i] == old(lanes)[i] && lanes[i].closed == old(lanes[i].closed)))
      ensures forall l :: l in all ==> l in old(all) || fresh(l)
      ensures UdpLifecycle.Reaches(old(LifeView()), LifeView())
    {
      UdpLifecycle.ReachesSelf(LifeView());
      hide *;
      var arrivals: seq<(StreamIndex, bool, bool)> := *;
      for k := 0 to |arrivals|
        invariant Valid() && InService() && old(all) <= all && forall l :: l in old(all) && old(l.closed) ==> l.closed
        invariant ctxDone ==> lanes == old(lanes)
        invariant forall i :: i in old(lanes) ==>
          i in lanes && (fresh(lanes[i]) || (lanes[i] == old(lanes)[i] && lanes[i].closed == old(lanes[i].closed)))
        invariant forall l :: l in all ==> l in old(all) || fresh(l)
        invariant UdpLifecycle.Reaches(old(LifeView()), LifeView())
      {
        ghost var was := LifeView();
        ListedApart();
        var lane := AddLane(arrivals[k].0, arrivals[k].1, arrivals[k].2);
        UdpLifecycle.ReachesFrom(old(LifeView()), was, LifeView());
      }
    }

    /** The departing lane is stopped and unlisted, and the lanes left are
        counted; whatever attaches before the session is then closed, or is
        stopped with it. As long as a lane is left, every other lane stays listed
        and goes on, a successor under the same stream id among them, unless a
        new one replaces it. */
    method RemoveLane(lane: UdpLane) returns (left: nat)
      requires Valid() && InService() && lane in all
      modifies this`lanes, this`all, this`attached, this`ctxDone, this`closed, this`backendOpen, all`closed, registry
      ensures Valid() && InService() && lane in all && lane.closed
      ensures left == |if lane.streamID in old(lanes) && old(lanes)[lane.streamID] == lane
                       then old(lanes) - {lane.streamID} else old(lanes)|
      ensures left == 0 ==> closed && forall l :: l in all ==> l.closed
      ensures left > 0 ==>
        closed == old(closed) && ctxDone == old(ctxDone) && registry.sessions == old(registry.sessions)
      ensures left > 0 ==> forall i :: i in old(lanes) && old(lanes)[i] != lane ==>
        i in lanes && (fresh(lanes[i]) || (lanes[i] == old(lanes)[i] && lanes[i].closed == old(lanes[i].closed)))
      ensures UdpLifecycle.Reaches(old(LifeView()), LifeView())
    {
      hide *;
      ghost var st0 := LifeView();
      left := Detach(lane);
      ghost var st1 := LifeView();
      LeaveTo(left);
      UdpLifecycle.ReachesFrom(st0, st1, LifeView());
    }

    /** What follows the count: others attach, and the session closes if the
        count was zero. */
    method LeaveTo(left: nat)
      requires Valid() && InService()
      modifies this`lanes, this`all, this`attached, this`ctxDone, this`closed, this`backendOpen, all`closed, registry
      ensures Valid() && InService() && old(all) <= all && forall l :: l in old(all) && old(l.closed) ==> l.closed
      ensures left == 0 ==> closed && forall l :: l in all ==> l.closed
      ensures left > 0 ==>
        closed == old(closed) && ctxDone == old(ctxDone) && registry.sessions == old(registry.sessions)
      ensures left > 0 ==> forall i :: i in old(lanes) ==>
        i in lanes && (fresh(lanes[i]) || (lanes[i] == old(lanes)[i] && lanes[i].closed == old(lanes[i].closed)))
      ensures UdpLifecycle.Reaches(old(LifeView()), LifeView())
    {
      ghost var st0 := LifeView();
      hide *;
      OthersAttach();
      ghost var st1 := LifeView();
      if left == 0 {
        Close();
        UdpLifecycle.ReachesFrom(st0, st1, LifeView());
      }
    }

    /** Whatever only stops lanes leaves the session in service. */
    twostate lemma StaysInService()
      requires lanes == old(lanes) && all == old(all) && ctxDone == old(ctxDone) && closed == old(closed)
      requires registry.sessions == old(registry.sessions) && forall l :: l in all ==> (old(l.closed) ==> l.closed)
      ensures old(InService()) ==> InService()
    {
    }
  }

  lemma {:induction false} NeverDelivered(received: seq<seq<byte>>, fate: seq<Option<UdpLane>>, l: UdpLane)
    requires |received| == |fate| && Some(l) !in fate
    ensures Delivered(received, fate, l) == []
  {
    if fate != [] {
      var n := |fate| - 1;
      assert fate[n] in fate;
      NeverDelivered(received[..n], fate[..n], l);
    }
  }

  class UdpSessionRegistry {
    var sessions: map<nat, AggregatedUdpSession>

    constructor ()
      ensures sessions == map[]
    {
      sessions := map[];
    }

    /** The live session under the key, or else, when its backend can be dialled,
        a new one in its place. */
    method GetOrCreate(key: nat, dials: bool) returns (r: Option<AggregatedUdpSession>)
      requires forall k :: k in sessions ==> sessions[k].key == k && sessions[k].registry == this
      modifies this
      ensures forall k :: k in sessions ==> sessions[k].key == k && sessions[k].registry == this
      ensures r.Some? <==> dials || (key in old(sessions) && !old(sessions[key].ctxDone))
      ensures r.Some? ==> key in sessions && sessions[key] == r.value && !r.value.ctxDone
      ensures r.None? || !fresh(r.value) ==> sessions == old(sessions)
      ensures key in old(sessions) && !old(sessions[key].ctxDone) ==> r == Some(old(sessions[key]))
      ensures r.Some? && fresh(r.value) ==>
        && sessions == old(sessions)[key := r.value] && fresh(r.value.selector)
        && r.value.Valid() && r.value.Recorded() && r.value.InService()
        && r.value.all == {} && r.value.owner == map[] && r.value.elsewhere == {} && r.value.log == []
        && UdpLifecycle.Step(UdpLifecycle.State([], [], map[]), UdpLifecycle.GetOrCreate(key), r.value.LifeView())
    {
      hide *;
      if key in sessions && !sessions[key].ctxDone {
        return Some(sessions[key]);
      }
      if !dials {
        return None;
      }
      var session := new AggregatedUdpSession(key, this);
      sessions := sessions[key := session];
      Created(session);
      return Some(session);
    }

    lemma Created(session: AggregatedUdpSession)
      requires session.lanes == map[] && session.all == {} && session.attached == []
      requires !session.ctxDone && !session.closed && session.registry == this
      requires session.key in sessions && sessions[session.key] == session
      ensures session.InService()
      ensures UdpLifecycle.Step(UdpLifecycle.State([], [], map[]), UdpLifecycle.GetOrCreate(session.key),
                                session.LifeView())
    {
      session.NewInLifecycle();
    }

    /** Only the session itself is removed, never a successor under its key. */
    method Remove(key: nat, wanted: AggregatedUdpSession)
      modifies this
      ensures sessions == if key in old(sessions) && old(sessions)[key] == wanted
                          then old(sessions) - {key} else old(sessions)
    {
      if key in sessions && sessions[key] == wanted {
        sessions := sessions - {key};
      }
    }
  }
}
