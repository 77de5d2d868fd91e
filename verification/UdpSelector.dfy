/** The downlink scheduler of an aggregated UDP session as a function of the
    lanes it sees: pinning for clients without a reorder buffer, stripes and
    flowlets for the others. */
module UdpSelector {
  import opened Options

  const MAX_STREAMS: nat := 64
  const QUEUE_SIZE: nat := 128
  const STRIPE_SIZE: nat := 16
  /** Two milliseconds, in nanoseconds. */
  const FLOWLET_GAP: int := 2_000_000
  /** The instant that a time value holds before it is set. */
  const ZERO_TIME: int := 0

  type StreamIndex = i: nat | i < 64

  /** What the scheduler sees of a lane; `serial` tells lane objects apart. */
  datatype LaneView = LaneView(serial: nat, closed: bool, reorder: bool, depth: nat)

  type Slots = s: seq<Option<LaneView>> | |s| == 64 witness seq(64, i => None)

  datatype Selector = Selector(
    current: StreamIndex,
    hasCurrent: bool,
    remaining: nat,
    cursor: StreamIndex,
    lastPacket: int)

  const FRESH_SELECTOR := Selector(0, false, 0, 0, ZERO_TIME)

  predicate Live(slots: Slots, i: StreamIndex) {
    slots[i].Some? && !slots[i].value.closed
  }

  function Depth(slots: Slots, i: StreamIndex): nat
    requires Live(slots, i)
  {
    slots[i].value.depth
  }

  predicate AnyLive(slots: Slots) {
    exists i: StreamIndex :: Live(slots, i)
  }

  predicate CanStripe(slots: Slots) {
    forall i: StreamIndex :: Live(slots, i) ==> slots[i].value.reorder
  }

  /** What a scan accepts: a live lane below a depth, or exactly at it. */
  datatype Wanted = Below(limit: nat) | Exactly(depth: nat)

  predicate Eligible(slots: Slots, i: StreamIndex, w: Wanted) {
    Live(slots, i) && match w
      case Below(limit) => Depth(slots, i) < limit
      case Exactly(depth) => Depth(slots, i) == depth
  }

  function At(cursor: StreamIndex, offset: nat): StreamIndex {
    (cursor + offset) % 64
  }

  /** The first eligible lane at or after the cursor, going round once. */
  function Scan(slots: Slots, cursor: StreamIndex, offset: nat, w: Wanted): (r: Option<StreamIndex>)
    ensures r.Some? ==> Eligible(slots, r.value, w)
    decreases MAX_STREAMS - offset
  {
    if offset >= MAX_STREAMS then None
    else if Eligible(slots, At(cursor, offset), w) then Some(At(cursor, offset))
    else Scan(slots, cursor, offset + 1, w)
  }

  /** The least depth among the live lanes below `n`, or one past a full queue. */
  function MinDepth(slots: Slots, n: nat): (d: nat)
    requires n <= MAX_STREAMS
    ensures d <= QUEUE_SIZE + 1
    ensures forall i: StreamIndex :: i < n && Live(slots, i) ==> d <= Depth(slots, i)
    ensures d <= QUEUE_SIZE ==> exists i: StreamIndex :: i < n && Live(slots, i) && Depth(slots, i) == d
  {
    if n == 0 then QUEUE_SIZE + 1
    else
      var d := MinDepth(slots, n - 1);
      if Live(slots, n - 1) && Depth(slots, n - 1) < d then Depth(slots, n - 1) else d
  }

  function Least(slots: Slots): nat {
    MinDepth(slots, MAX_STREAMS)
  }

  function Settle(sel: Selector, i: StreamIndex, remaining: nat): Selector {
    sel.(cursor := At(i, 1), current := i, hasCurrent := true, remaining := remaining)
  }

  function Pick(sel: Selector, found: Option<StreamIndex>, remaining: nat): (Selector, Option<StreamIndex>) {
    if found.Some? then (Settle(sel, found.value, remaining), found)
    else (sel.(hasCurrent := false), None)
  }

  function ChoosePinned(sel: Selector, slots: Slots): (Selector, Option<StreamIndex>) {
    if sel.hasCurrent && Live(slots, sel.current) then
      (sel, if Depth(slots, sel.current) < QUEUE_SIZE then Some(sel.current) else None)
    else Pick(sel, Scan(slots, sel.cursor, 0, Below(QUEUE_SIZE)), 0)
  }

  predicate GapExpired(sel: Selector, now: int) {
    sel.lastPacket != ZERO_TIME && now - sel.lastPacket > FLOWLET_GAP
  }

  function Arrive(sel: Selector, now: int): Selector {
    (if GapExpired(sel, now) then sel.(hasCurrent := false, remaining := 0) else sel).(lastPacket := now)
  }

  predicate Continues(sel: Selector, slots: Slots) {
    sel.hasCurrent && sel.remaining > 0 && Live(slots, sel.current) && Depth(slots, sel.current) < STRIPE_SIZE
  }

  function ChooseStriped(sel: Selector, slots: Slots, now: int): (Selector, Option<StreamIndex>) {
    var s := Arrive(sel, now);
    if Continues(s, slots) then (s.(remaining := s.remaining - 1), Some(s.current))
    else if Least(slots) >= QUEUE_SIZE then (s.(hasCurrent := false), None)
    else Pick(s, Scan(slots, s.cursor, 0, Exactly(Least(slots))), STRIPE_SIZE - 1)
  }

  function Choose(sel: Selector, slots: Slots, now: int): (Selector, Option<StreamIndex>) {
    if !AnyLive(slots) then (sel.(hasCurrent := false), None)
    else if !CanStripe(slots) then ChoosePinned(sel, slots)
    else ChooseStriped(sel, slots, now)
  }

  // ------------------------------------------------------------- the choice

  lemma {:induction false} ScanFindsFrom(slots: Slots, cursor: StreamIndex, offset: nat, w: Wanted, o: nat)
    requires offset <= o < MAX_STREAMS && Eligible(slots, At(cursor, o), w)
    ensures Scan(slots, cursor, offset, w).Some?
    decreases o - offset
  {
    if offset < o {
      ScanFindsFrom(slots, cursor, offset + 1, w, o);
    }
  }

  /** The scan misses no eligible lane. */
  lemma ScanFinds(slots: Slots, cursor: StreamIndex, w: Wanted, i: StreamIndex)
    requires Eligible(slots, i, w)
    ensures Scan(slots, cursor, 0, w).Some?
  {
    var o := if i >= cursor then i - cursor else i + 64 - cursor;
    assert At(cursor, o) == i;
    ScanFindsFrom(slots, cursor, 0, w, o);
  }

  predicate HasRoom(slots: Slots, i: StreamIndex) {
    Live(slots, i) && Depth(slots, i) < QUEUE_SIZE
  }

  predicate AnyRoom(slots: Slots) {
    exists i: StreamIndex :: HasRoom(slots, i)
  }

  lemma LeastRoom(slots: Slots)
    ensures Least(slots) < QUEUE_SIZE <==> AnyRoom(slots)
  {
    if AnyRoom(slots) {
      var i: StreamIndex :| HasRoom(slots, i);
      assert i < MAX_STREAMS;
    } else if Least(slots) < QUEUE_SIZE {
      var i: StreamIndex :| i < MAX_STREAMS && Live(slots, i) && Depth(slots, i) == Least(slots);
      assert HasRoom(slots, i);
    }
  }

  lemma LeastIsTaken(slots: Slots, cursor: StreamIndex)
    requires Least(slots) < QUEUE_SIZE
    ensures Scan(slots, cursor, 0, Exactly(Least(slots))).Some?
  {
    var i: StreamIndex :| i < MAX_STREAMS && Live(slots, i) && Depth(slots, i) == Least(slots);
    ScanFinds(slots, cursor, Exactly(Least(slots)), i);
  }

  /** The packet is refused exactly when the pinned lane is full, or no lane is
      pinned and every live lane is full. */
  predicate Refuses(sel: Selector, slots: Slots) {
    if !CanStripe(slots) && sel.hasCurrent && Live(slots, sel.current) then !HasRoom(slots, sel.current)
    else !AnyRoom(slots)
  }

  lemma ChooseRefusesExactly(sel: Selector, slots: Slots, now: int)
    ensures Choose(sel, slots, now).1.None? <==> Refuses(sel, slots)
  {
    LeastRoom(slots);
    if Least(slots) < QUEUE_SIZE {
      LeastIsTaken(slots, sel.cursor);
    }
    if AnyRoom(slots) {
      var i: StreamIndex :| HasRoom(slots, i);
      ScanFinds(slots, sel.cursor, Below(QUEUE_SIZE), i);
    }
    if Continues(sel, slots) {
      assert HasRoom(slots, sel.current);
    }
  }

  /** A chosen lane is live with room in its queue, so the send that follows
      in the same critical section never falls through; and it is remembered. */
  lemma ChosenHasRoom(sel: Selector, slots: Slots, now: int)
    requires Choose(sel, slots, now).1.Some?
    ensures
      var (sel', r) := Choose(sel, slots, now);
      HasRoom(slots, r.value) && sel'.hasCurrent && sel'.current == r.value
  {
  }

  // -------------------------------------- reads that writers may fall between

  /** What a lane looks like later in the same critical section: its writer may
      have taken packets out or stopped it, and nobody puts packets in. */
  predicate Later(a: Slots, b: Slots) {
    forall i: StreamIndex ::
      if a[i].None? then b[i].None?
      else
        && b[i].Some? && b[i].value.serial == a[i].value.serial && b[i].value.reorder == a[i].value.reorder
        && (a[i].value.closed ==> b[i].value.closed) && b[i].value.depth <= a[i].value.depth
  }

  /** One decision reads the lanes four times: it counts them, looks at the
      current one, measures the least depth and scans from the cursor. What one
      scan saw need not be of one moment: its order is asked slot by slot. */
  datatype Arrival = Arrival(counted: Slots, looked: Slots, measured: Slots, scanned: Slots, now: int)

  predicate InOrder(a: Arrival) {
    Later(a.counted, a.looked) && Later(a.looked, a.measured) && Later(a.measured, a.scanned)
  }

  predicate Pinned(sel: Selector, a: Arrival) {
    sel.hasCurrent && Live(a.looked, sel.current)
  }

  function ChooseRacing(sel: Selector, a: Arrival): (Selector, Option<StreamIndex>) {
    if !AnyLive(a.counted) then (sel.(hasCurrent := false), None)
    else if !CanStripe(a.counted) then
      if Pinned(sel, a) then (sel, if Depth(a.looked, sel.current) < QUEUE_SIZE then Some(sel.current) else None)
      else Pick(sel, Scan(a.scanned, sel.cursor, 0, Below(QUEUE_SIZE)), 0)
    else
      var s := Arrive(sel, a.now);
      if Continues(s, a.looked) then (s.(remaining := s.remaining - 1), Some(s.current))
      else if Least(a.measured) >= QUEUE_SIZE then (s.(hasCurrent := false), None)
      else Pick(s, Scan(a.scanned, s.cursor, 0, Exactly(Least(a.measured))), STRIPE_SIZE - 1)
  }

  /** With nothing in between, the four reads are one snapshot. */
  lemma AtOnce(sel: Selector, slots: Slots, now: int)
    ensures InOrder(Arrival(slots, slots, slots, slots, now))
    ensures ChooseRacing(sel, Arrival(slots, slots, slots, slots, now)) == Choose(sel, slots, now)
  {
    hide Scan, MinDepth;
  }

  /** What a packet that is neither pinned nor continues a stripe looks for: a
      lane with room, or, when all can reorder, a lane of the depth measured. */
  function Sought(a: Arrival): Wanted {
    if CanStripe(a.counted) then Exactly(Least(a.measured)) else Below(QUEUE_SIZE)
  }

  /** A stripe can go on: the selector has a current lane and picks left, the
      packet comes within 2 ms, and the lane looks live with fewer than 16 queued. */
  predicate CanGoOn(sel: Selector, a: Arrival) {
    && sel.hasCurrent && sel.remaining > 0 && (sel.lastPacket == 0 || a.now - sel.lastPacket <= 2_000_000)
    && Live(a.looked, sel.current) && Depth(a.looked, sel.current) < 16
  }

  /** The packet stays on the current lane. */
  predicate Keeps(sel: Selector, a: Arrival) {
    if CanStripe(a.counted) then CanGoOn(sel, a) else Pinned(sel, a)
  }

  ghost predicate SomeSought(a: Arrival) {
    exists i: StreamIndex :: Eligible(a.scanned, i, Sought(a))
  }

  lemma ScanFindsIff(slots: Slots, cursor: StreamIndex, w: Wanted)
    ensures Scan(slots, cursor, 0, w).Some? <==> exists i: StreamIndex :: Eligible(slots, i, w)
  {
    if exists i: StreamIndex :: Eligible(slots, i, w) {
      var i: StreamIndex :| Eligible(slots, i, w);
      ScanFinds(slots, cursor, w, i);
    }
  }

  /** Exactly when a packet is refused, whatever the writers do meanwhile: no
      lane lives; or the pinned lane is full; or, for a fresh pick, every lane
      measured is full or the scan meets no lane of the kind it seeks. */
  lemma RefusedIff(sel: Selector, a: Arrival)
    ensures ChooseRacing(sel, a).1.None? <==>
      || !AnyLive(a.counted)
      || (Keeps(sel, a) && !CanStripe(a.counted) && !HasRoom(a.looked, sel.current))
      || (!Keeps(sel, a) && CanStripe(a.counted) && Least(a.measured) >= QUEUE_SIZE)
      || (!Keeps(sel, a) && !SomeSought(a))
  {
    hide Scan, MinDepth, Least, AnyLive, CanStripe;
    ScanFindsIff(a.scanned, sel.cursor, Sought(a));
  }

  /** A fresh pick among reorder-capable lanes is refused although a lane had
      room exactly when the writers left no live lane at the depth measured. */
  lemma RefusedWithRoomIff(sel: Selector, a: Arrival)
    requires AnyLive(a.counted) && CanStripe(a.counted) && !Keeps(sel, a)
    ensures ChooseRacing(sel, a).1.None? && AnyRoom(a.measured) <==>
            Least(a.measured) < QUEUE_SIZE
            && forall i: StreamIndex :: Live(a.scanned, i) ==> Depth(a.scanned, i) != Least(a.measured)
  {
    RefusedIff(sel, a);
    LeastRoom(a.measured);
    hide ChooseRacing, Least, Scan;
    forall i: StreamIndex
      ensures Eligible(a.scanned, i, Sought(a)) <==> Live(a.scanned, i) && Depth(a.scanned, i) == Least(a.measured)
    {
    }
  }

  function OneLane(depth: nat): Slots {
    seq(64, i => if i == 0 then Some(LaneView(0, false, true, depth)) else None)
  }

  lemma OneLaneFacts(depth: nat)
    ensures forall i: StreamIndex :: Live(OneLane(depth), i) <==> i == 0
    ensures Depth(OneLane(depth), 0) == depth && AnyLive(OneLane(depth)) && CanStripe(OneLane(depth))
    ensures depth < QUEUE_SIZE ==> AnyRoom(OneLane(depth)) && Least(OneLane(depth)) == depth
  {
    var slots := OneLane(depth);
    assert Live(slots, 0);
    if depth < QUEUE_SIZE {
      assert HasRoom(slots, 0);
    }
  }

  /** It happens: one lane with five packets, of which its writer takes one
      between the two scans. */
  lemma RefusedWithRoomExample(now: int)
    ensures
      var a := Arrival(OneLane(5), OneLane(5), OneLane(5), OneLane(4), now);
      InOrder(a) && AnyRoom(a.scanned) && ChooseRacing(FRESH_SELECTOR, a).1.None?
  {
    hide ChooseRacing, Scan, Least, MinDepth, AnyLive, CanStripe, AnyRoom;
    OneLaneFacts(5);
    OneLaneFacts(4);
    RefusedWithRoomIff(FRESH_SELECTOR, Arrival(OneLane(5), OneLane(5), OneLane(5), OneLane(4), now));
  }

  /** Where a chosen lane was seen live with room; later in the same critical
      section it has no more packets, so the send never falls through. */
  lemma RacingChosenHasRoom(sel: Selector, a: Arrival, at: Slots)
    requires ChooseRacing(sel, a).1.Some? && InOrder(a) && Later(a.scanned, at)
    ensures
      var (sel', r) := ChooseRacing(sel, a);
      && sel'.hasCurrent && sel'.current == r.value
      && HasRoom(if Keeps(sel, a) then a.looked else a.scanned, r.value)
      && at[r.value].Some? && at[r.value].value.depth < QUEUE_SIZE
  {
    hide Scan, MinDepth;
  }

  /** While a live lane lacks reorder support, the pin holds as long as the
      pinned lane lives. */
  lemma PinHolds(sel: Selector, a: Arrival, i: StreamIndex)
    requires Live(a.counted, i) && !a.counted[i].value.reorder && sel.hasCurrent && Live(a.looked, sel.current)
    ensures ChooseRacing(sel, a).0 == sel
    ensures ChooseRacing(sel, a).1 == if Depth(a.looked, sel.current) < 128 then Some(sel.current) else None
  {
    hide Scan, MinDepth, Least;
  }

  /** What a refusal leaves behind: a full pinned lane stays pinned, and else no
      lane is current; only a packet that found reorder-capable lanes is timed. */
  lemma RefusalForgets(sel: Selector, a: Arrival)
    requires ChooseRacing(sel, a).1.None?
    ensures
      var sel' := ChooseRacing(sel, a).0;
      && sel'.cursor == sel.cursor
      && sel'.hasCurrent ==
           (AnyLive(a.counted) && !CanStripe(a.counted) && sel.hasCurrent && Live(a.looked, sel.current))
      && sel'.lastPacket == if AnyLive(a.counted) && CanStripe(a.counted) then a.now else sel.lastPacket
  {
    hide Scan, MinDepth, Least, AnyLive, CanStripe;
  }

  /** No offset before `o` leads to an eligible lane. */
  ghost predicate FirstAt(slots: Slots, cursor: StreamIndex, w: Wanted, o: nat) {
    o < MAX_STREAMS && Eligible(slots, At(cursor, o), w)
    && forall k: nat :: k < o ==> !Eligible(slots, At(cursor, k), w)
  }

  lemma {:induction false} ScanTakesFirst(slots: Slots, cursor: StreamIndex, offset: nat, w: Wanted)
    requires Scan(slots, cursor, offset, w).Some?
    requires forall k: nat :: k < offset ==> !Eligible(slots, At(cursor, k), w)
    ensures exists o: nat :: FirstAt(slots, cursor, w, o) && Scan(slots, cursor, offset, w) == Some(At(cursor, o))
    decreases MAX_STREAMS - offset
  {
    if Eligible(slots, At(cursor, offset), w) {
      assert FirstAt(slots, cursor, w, offset);
    } else {
      ScanTakesFirst(slots, cursor, offset + 1, w);
    }
  }

  /** A fresh pick goes to the first lane sought from the cursor round, and the
      cursor moves just past that lane; a stripe has 15 more picks. */
  lemma FreshPickRotates(sel: Selector, a: Arrival)
    requires ChooseRacing(sel, a).1.Some? && !Keeps(sel, a)
    ensures
      var (sel', r) := ChooseRacing(sel, a);
      && (exists o: nat :: FirstAt(a.scanned, sel.cursor, Sought(a), o) && r == Some(At(sel.cursor, o)))
      && sel'.cursor == At(r.value, 1)
      && sel'.remaining == if CanStripe(a.counted) then STRIPE_SIZE - 1 else 0
  {
    hide Least, MinDepth;
    ScanTakesFirst(a.scanned, sel.cursor, 0, Sought(a));
  }

  // ------------------------------------------------------------ pin periods

  /** Between arrivals the lanes change freely; the selector only at arrivals. */
  function SelectorAfter(sel: Selector, arrivals: seq<Arrival>): Selector {
    if arrivals == [] then sel
    else ChooseRacing(SelectorAfter(sel, arrivals[..|arrivals| - 1]), arrivals[|arrivals| - 1]).0
  }

  lemma SelectorAfterSnoc(sel: Selector, arrivals: seq<Arrival>, a: Arrival)
    ensures SelectorAfter(sel, arrivals + [a]) == ChooseRacing(SelectorAfter(sel, arrivals), a).0
  {
    hide ChooseRacing;
    assert (arrivals + [a])[..|arrivals|] == arrivals;
  }

  function Selected(sel: Selector, arrivals: seq<Arrival>, k: nat): Option<StreamIndex>
    requires k < |arrivals|
  {
    ChooseRacing(SelectorAfter(sel, arrivals[..k]), arrivals[k]).1
  }

  /** The lane object with this serial is live in slot i. */
  predicate Holds(slots: Slots, i: StreamIndex, serial: nat) {
    Live(slots, i) && slots[i].value.serial == serial
  }

  /** From arrival i, which chose slot p, to arrival j some live lane lacks
      reorder support and the lane object with this serial stays live in p. */
  ghost predicate PinPeriod(arrivals: seq<Arrival>, i: nat, j: nat, p: StreamIndex, serial: nat)
    requires j < |arrivals|
  {
    forall k: nat :: i < k <= j ==>
      !CanStripe(arrivals[k].counted) && Holds(arrivals[k].looked, p, serial)
  }

  /** A live lane without reorder support. */
  ghost function Lacking(slots: Slots): (i: StreamIndex)
    requires !CanStripe(slots)
    ensures Live(slots, i) && !slots[i].value.reorder
  {
    var i: StreamIndex :| Live(slots, i) && !slots[i].value.reorder;
    i
  }

  lemma {:induction false} PinPersists(sel: Selector, arrivals: seq<Arrival>, i: nat, j: nat,
                                         p: StreamIndex, serial: nat)
    requires i < j < |arrivals| && InOrder(arrivals[i]) && Selected(sel, arrivals, i) == Some(p)
    requires PinPeriod(arrivals, i, j, p, serial)
    ensures SelectorAfter(sel, arrivals[..j]).hasCurrent && SelectorAfter(sel, arrivals[..j]).current == p
    ensures Selected(sel, arrivals, j).None? || Selected(sel, arrivals, j) == Some(p)
    decreases j
  {
    hide ChooseRacing, CanStripe, InOrder;
    assert arrivals[..j][..j - 1] == arrivals[..j - 1];
    var before := SelectorAfter(sel, arrivals[..j - 1]);
    if i + 1 == j {
      RacingChosenHasRoom(before, arrivals[i], arrivals[i].scanned);
    } else {
      assert PinPeriod(arrivals, i, j - 1, p, serial);
      PinPersists(sel, arrivals, i, j - 1, p, serial);
      PinHolds(before, arrivals[j - 1], Lacking(arrivals[j - 1].counted));
    }
    PinHolds(SelectorAfter(sel, arrivals[..j]), arrivals[j], Lacking(arrivals[j].counted));
  }

  /** As long as some live lane lacks reorder support at every arrival, two
      packets go to different lane objects only if the first one's lane was
      closed, removed or replaced in between. */
  lemma SelectionChangesOnlyAfterPinLost(sel: Selector, arrivals: seq<Arrival>, i: nat, j: nat)
    requires i < j < |arrivals| && InOrder(arrivals[i])
    requires Selected(sel, arrivals, i).Some? && Selected(sel, arrivals, j).Some?
    requires forall k: nat :: i < k <= j ==> !CanStripe(arrivals[k].counted)
    requires
      var p, q := Selected(sel, arrivals, i).value, Selected(sel, arrivals, j).value;
      arrivals[i].looked[p].Some? && arrivals[j].looked[q].Some? &&
      arrivals[i].looked[p].value.serial != arrivals[j].looked[q].value.serial
    ensures
      var p := Selected(sel, arrivals, i).value;
      exists k: nat :: i < k <= j && arrivals[i].looked[p].Some?
                       && !Holds(arrivals[k].looked, p, arrivals[i].looked[p].value.serial)
  {
    hide ChooseRacing, CanStripe, InOrder;
    var p := Selected(sel, arrivals, i).value;
    var serial := arrivals[i].looked[p].value.serial;
    if forall k: nat :: i < k <= j ==> Holds(arrivals[k].looked, p, serial) {
      assert PinPeriod(arrivals, i, j, p, serial);
      PinPersists(sel, arrivals, i, j, p, serial);
    }
  }

  // --------------------------------------------------------------- a burst

  function Deepen(slots: Slots, i: StreamIndex): Slots
    requires Live(slots, i)
  {
    slots[i := Some(slots[i].value.(depth := slots[i].value.depth + 1))]
  }

  /** One packet arriving while nothing drains. */
  datatype Burst = Burst(sel: Selector, slots: Slots, log: seq<Option<StreamIndex>>)

  function Packet(b: Burst, now: int): Burst {
    var (sel, r) := Choose(b.sel, b.slots, now);
    Burst(sel, if r.Some? then Deepen(b.slots, r.value) else b.slots, b.log + [r])
  }

  function RunBurst(sel: Selector, slots: Slots, times: seq<int>): Burst {
    if times == [] then Burst(sel, slots, [])
    else Packet(RunBurst(sel, slots, times[..|times| - 1]), times[|times| - 1])
  }

  /** Total depth and number of the live lanes below `n`. */
  function TotalDepth(slots: Slots, n: nat): nat
    requires n <= MAX_STREAMS
  {
    if n == 0 then 0
    else TotalDepth(slots, n - 1) + if Live(slots, n - 1) then Depth(slots, n - 1) else 0
  }

  function LiveCount(slots: Slots, n: nat): nat
    requires n <= MAX_STREAMS
  {
    if n == 0 then 0 else LiveCount(slots, n - 1) + if Live(slots, n - 1) then 1 else 0
  }

  lemma {:induction false} DeepenTotal(slots: Slots, i: StreamIndex, n: nat)
    requires Live(slots, i) && n <= MAX_STREAMS
    ensures TotalDepth(Deepen(slots, i), n) == TotalDepth(slots, n) + if i < n then 1 else 0
    ensures LiveCount(Deepen(slots, i), n) == LiveCount(slots, n)
  {
    if n > 0 {
      DeepenTotal(slots, i, n - 1);
    }
  }

  lemma {:induction false} TotalBounds(slots: Slots, n: nat)
    requires n <= MAX_STREAMS
    requires forall i: StreamIndex :: Live(slots, i) ==> Depth(slots, i) <= QUEUE_SIZE
    ensures TotalDepth(slots, n) <= QUEUE_SIZE * LiveCount(slots, n)
    ensures TotalDepth(slots, n) == QUEUE_SIZE * LiveCount(slots, n) <==>
            forall i: StreamIndex :: i < n && Live(slots, i) ==> Depth(slots, i) == QUEUE_SIZE
  {
    if n > 0 {
      TotalBounds(slots, n - 1);
    }
  }

  lemma {:induction false} EmptyTotal(slots: Slots, n: nat)
    requires n <= MAX_STREAMS
    requires forall i: StreamIndex :: Live(slots, i) ==> Depth(slots, i) == 0
    ensures TotalDepth(slots, n) == 0
  {
    if n > 0 {
      EmptyTotal(slots, n - 1);
    }
  }

  /** Lanes with a reorder buffer, all queues empty. */
  ghost predicate BurstStart(slots: Slots) {
    CanStripe(slots) && forall i: StreamIndex :: Live(slots, i) ==> Depth(slots, i) == 0
  }

  function Max(a: nat, b: nat): nat {
    if a < b then b else a
  }

  ghost predicate Balanced(slots: Slots) {
    forall i: StreamIndex :: Live(slots, i) ==> Depth(slots, i) <= Max(STRIPE_SIZE, Least(slots) + 1)
  }

  ghost predicate SameLanes(a: Slots, b: Slots) {
    forall i: StreamIndex :: Live(a, i) <==> Live(b, i)
  }

  lemma LeastGrows(slots: Slots, i: StreamIndex, n: nat)
    requires Live(slots, i) && n <= MAX_STREAMS
    ensures MinDepth(slots, n) <= MinDepth(Deepen(slots, i), n)
  {
    var d := MinDepth(Deepen(slots, i), n);
    if d <= QUEUE_SIZE {
      var j: StreamIndex :| j < n && Live(Deepen(slots, i), j) && Depth(Deepen(slots, i), j) == d;
      assert Live(slots, j);
    }
  }

  lemma ChosenIsShallow(sel: Selector, slots: Slots, now: int)
    requires CanStripe(slots) && Choose(sel, slots, now).1.Some?
    ensures
      var i := Choose(sel, slots, now).1.value;
      Live(slots, i) &&
        (Depth(slots, i) < STRIPE_SIZE || (Depth(slots, i) == Least(slots) && Depth(slots, i) < QUEUE_SIZE))
  {
    hide MinDepth, Least;
  }

  lemma PacketBalanced(b: Burst, now: int)
    requires CanStripe(b.slots) && Balanced(b.slots)
    requires forall i: StreamIndex :: Live(b.slots, i) ==> Depth(b.slots, i) <= QUEUE_SIZE
    ensures
      var slots := Packet(b, now).slots;
      && CanStripe(slots) && Balanced(slots) && SameLanes(b.slots, slots)
      && (forall i: StreamIndex :: Live(slots, i) ==> Depth(slots, i) <= QUEUE_SIZE)
  {
    hide Choose, MinDepth;
    var (sel, r) := Choose(b.sel, b.slots, now);
    if r.Some? {
      ChosenIsShallow(b.sel, b.slots, now);
      var slots := Deepen(b.slots, r.value);
      LeastGrows(b.slots, r.value, MAX_STREAMS);
      forall i: StreamIndex | Live(slots, i)
        ensures Depth(slots, i) <= Max(STRIPE_SIZE, Least(slots) + 1)
      {
        assert Live(b.slots, i);
      }
    }
  }

  lemma NoRoomMeansFull(slots: Slots)
    requires forall i: StreamIndex :: Live(slots, i) ==> Depth(slots, i) <= QUEUE_SIZE
    ensures !AnyRoom(slots) <==>
            forall i: StreamIndex :: i < MAX_STREAMS && Live(slots, i) ==> Depth(slots, i) == QUEUE_SIZE
  {
    if AnyRoom(slots) {
      var i: StreamIndex :| HasRoom(slots, i);
      assert i < MAX_STREAMS && Live(slots, i);
    } else {
      forall i: StreamIndex | i < MAX_STREAMS && Live(slots, i)
        ensures Depth(slots, i) == QUEUE_SIZE
      {
        assert !HasRoom(slots, i);
      }
    }
  }

  lemma PacketAccepted(b: Burst, now: int)
    requires CanStripe(b.slots)
    requires forall i: StreamIndex :: Live(b.slots, i) ==> Depth(b.slots, i) <= QUEUE_SIZE
    ensures
      var b' := Packet(b, now);
      var total := TotalDepth(b.slots, MAX_STREAMS);
      var capacity := QUEUE_SIZE * LiveCount(b.slots, MAX_STREAMS);
      && LiveCount(b'.slots, MAX_STREAMS) == LiveCount(b.slots, MAX_STREAMS)
      && total <= capacity
      && (b'.log[|b.log|].Some? <==> total < capacity)
      && TotalDepth(b'.slots, MAX_STREAMS) == if total < capacity then total + 1 else total
  {
    var r := Choose(b.sel, b.slots, now).1;
    ChooseRefusesExactly(b.sel, b.slots, now);
    TotalBounds(b.slots, MAX_STREAMS);
    NoRoomMeansFull(b.slots);
    if r.Some? {
      DeepenTotal(b.slots, r.value, MAX_STREAMS);
    }
  }

  /** In a burst over k reorder-capable live lanes that start empty, exactly
      the first 128k packets are accepted, and no lane ever runs ahead of the
      shortest one by more than a stripe or one packet. */
  lemma {:induction false} BurstFillsEvenly(sel: Selector, slots: Slots, times: seq<int>)
    requires BurstStart(slots)
    ensures
      var b := RunBurst(sel, slots, times);
      var capacity := 128 * LiveCount(slots, 64);
      && |b.log| == |times|
      && (forall n :: 0 <= n < |times| ==> (b.log[n].Some? <==> n < capacity))
      && Balanced(b.slots) && SameLanes(slots, b.slots)
      && TotalDepth(b.slots, 64) == (if |times| < capacity then |times| else capacity)
    ensures
      var b := RunBurst(sel, slots, times);
      && CanStripe(b.slots) && LiveCount(b.slots, MAX_STREAMS) == LiveCount(slots, MAX_STREAMS)
      && (forall i: StreamIndex :: Live(b.slots, i) ==> Depth(b.slots, i) <= QUEUE_SIZE)
  {
    if times == [] {
      EmptyTotal(slots, MAX_STREAMS);
    } else {
      var b := RunBurst(sel, slots, times[..|times| - 1]);
      BurstFillsEvenly(sel, slots, times[..|times| - 1]);
      PacketBalanced(b, times[|times| - 1]);
      PacketAccepted(b, times[|times| - 1]);
    }
  }

  // ---------------------------------------------------------------- stripes

  lemma AllReorder(slots: Slots)
    requires CanStripe(slots)
    ensures forall i: StreamIndex :: Live(slots, i) ==> slots[i].value.reorder
  {
  }

  /** Among reorder-capable lanes a stripe that can go on does, and uses up one
      of its picks; else the packet is a fresh pick, with 15 more to follow. */
  lemma StripeRule(sel: Selector, a: Arrival)
    requires InOrder(a) && forall i: StreamIndex :: Live(a.counted, i) ==> a.counted[i].value.reorder
    ensures
      var (sel', r) := ChooseRacing(sel, a);
      && (CanGoOn(sel, a) ==>
            r == Some(sel.current) && sel' == sel.(remaining := sel.remaining - 1, lastPacket := a.now))
      && (!CanGoOn(sel, a) && r.Some? ==>
            && sel' == Selector(r.value, true, 15, (r.value + 1) % 64, a.now)
            && Live(a.scanned, r.value) && Depth(a.scanned, r.value) == Least(a.measured) < 128)
  {
    hide Scan, Least;
    if CanGoOn(sel, a) {
      assert Live(a.counted, sel.current);
    }
  }

  /** Up to arrival n no arrival since i breaks the stripe on lane p: each finds
      reorder-capable lanes, comes within 2 ms of the one before, and sees lane p
      live with fewer than 16 packets queued. */
  ghost predicate Unbroken(arrivals: seq<Arrival>, i: nat, n: nat, p: StreamIndex)
    requires n < |arrivals|
  {
    forall k: nat :: i < k <= n ==>
      && InOrder(arrivals[k]) && CanStripe(arrivals[k].counted)
      && (arrivals[k - 1].now == 0 || arrivals[k].now - arrivals[k - 1].now <= 2_000_000)
      && Live(arrivals[k].looked, p) && Depth(arrivals[k].looked, p) < 16
  }

  /** A stripe that nothing breaks goes on: after a fresh pick the next 15
      packets go to the same lane. */
  lemma {:induction false} StripeGoesOn(sel: Selector, arrivals: seq<Arrival>, i: nat, n: nat, p: StreamIndex)
    requires i <= n < |arrivals| && n - i <= 15 && Unbroken(arrivals, i, n, p)
    requires InOrder(arrivals[i]) && CanStripe(arrivals[i].counted) && Selected(sel, arrivals, i) == Some(p)
    requires !CanGoOn(SelectorAfter(sel, arrivals[..i]), arrivals[i])
    ensures Selected(sel, arrivals, n) == Some(p)
    ensures
      var after := SelectorAfter(sel, arrivals[..n + 1]);
      after.hasCurrent && after.current == p && after.remaining == 15 - (n - i) && after.lastPacket == arrivals[n].now
  {
    hide ChooseRacing, CanStripe, InOrder, SelectorAfter;
    OneMore(sel, arrivals, n);
    AllReorder(arrivals[n].counted);
    StripeRule(SelectorAfter(sel, arrivals[..n]), arrivals[n]);
    if i < n {
      StripeGoesOn(sel, arrivals, i, n - 1, p);
    }
  }

  // ------------------------------------------------------ stripes in a burst

  /** All gaps are at most 2 ms. */
  ghost predicate Dense(times: seq<int>) {
    forall n :: 0 < n < |times| ==> times[n - 1] == 0 || times[n] - times[n - 1] <= 2_000_000
  }

  /** After n packets of a burst over lanes that started empty, and as long as
      some lane is untouched: the lanes hold 16 packets or none, but for the one
      whose stripe is under way. */
  ghost predicate StripedSoFar(b: Burst, last: int, n: nat) {
    && (n > 0 ==> b.sel.hasCurrent && Live(b.slots, b.sel.current) && b.sel.lastPacket == last)
    && (n > 0 ==> b.sel.remaining == (if n % 16 == 0 then 0 else 16 - n % 16))
    && (n > 0 ==> Depth(b.slots, b.sel.current) == if n % 16 == 0 then 16 else n % 16)
    && (forall i: StreamIndex :: Live(b.slots, i) && (n == 0 || i != b.sel.current) ==>
          Depth(b.slots, i) == 0 || Depth(b.slots, i) == 16)
  }

  lemma {:induction false} AllSixteen(slots: Slots, n: nat)
    requires n <= MAX_STREAMS && forall i: StreamIndex :: i < n && Live(slots, i) ==> Depth(slots, i) == 16
    ensures TotalDepth(slots, n) == 16 * LiveCount(slots, n)
  {
    if n > 0 {
      AllSixteen(slots, n - 1);
    }
  }

  /** At the end of a stripe an untouched lane is left, as long as 16 packets
      for each lane have not arrived. */
  lemma UntouchedLeft(b: Burst, last: int, n: nat)
    requires StripedSoFar(b, last, n) && n % 16 == 0
    requires TotalDepth(b.slots, MAX_STREAMS) == n < 16 * LiveCount(b.slots, MAX_STREAMS)
    ensures Least(b.slots) == 0
  {
    hide MinDepth, TotalDepth, LiveCount;
    if forall i: StreamIndex :: Live(b.slots, i) ==> Depth(b.slots, i) == 16 {
      AllSixteen(b.slots, MAX_STREAMS);
    } else {
      var i: StreamIndex :| Live(b.slots, i) && Depth(b.slots, i) != 16;
      LeastAtMost(b.slots, i);
    }
  }

  lemma LeastAtMost(slots: Slots, i: StreamIndex)
    requires Live(slots, i)
    ensures Least(slots) <= Depth(slots, i)
  {
    assert i < MAX_STREAMS;
  }

  /** One more packet of the burst: to the current lane in mid-stripe, and to an
      untouched one when a stripe is complete. */
  lemma StripedStep(b: Burst, last: int, now: int, n: nat)
    requires StripedSoFar(b, last, n) && CanStripe(b.slots)
    requires n > 0 ==> last == 0 || now - last <= 2_000_000
    requires n == 0 ==> !b.sel.hasCurrent || b.sel.remaining == 0
    requires TotalDepth(b.slots, MAX_STREAMS) == n < 16 * LiveCount(b.slots, MAX_STREAMS)
    requires Choose(b.sel, b.slots, now).1.Some?
    ensures StripedSoFar(Packet(b, now), now, n + 1)
    ensures n % 16 > 0 ==> Choose(b.sel, b.slots, now).1 == Some(b.sel.current)
    ensures Packet(b, now).sel.current == Choose(b.sel, b.slots, now).1.value
  {
    hide Choose, ChooseRacing, TotalDepth, LiveCount, Least, CanStripe;
    var a := Arrival(b.slots, b.slots, b.slots, b.slots, now);
    AtOnce(b.sel, b.slots, now);
    AllReorder(b.slots);
    StripeRule(b.sel, a);
    if n % 16 == 0 {
      UntouchedLeft(b, last, n);
    }
    var i := Choose(b.sel, b.slots, now).1.value;
    var slots := Packet(b, now).slots;
    forall j: StreamIndex
      ensures Live(slots, j) <==> Live(b.slots, j)
      ensures Live(slots, j) ==> Depth(slots, j) == Depth(b.slots, j) + if j == i then 1 else 0
    {
    }
  }

  /** Where the stripe of packet n begins. */
  function StripeStart(n: nat): (m: nat)
    ensures m <= n
  {
    n - n % 16
  }

  /** The packets so far went to one lane each for 16 packets in a row. */
  ghost predicate InStripes(log: seq<Option<StreamIndex>>) {
    forall n :: 0 <= n < |log| ==> log[n].Some? && log[n] == log[StripeStart(n)]
  }

  lemma SameStripe(n: nat)
    ensures if n % 16 == 0 then StripeStart(n) == n else StripeStart(n) == StripeStart(n - 1)
  {
  }

  lemma StripesSnoc(log: seq<Option<StreamIndex>>, r: Option<StreamIndex>)
    requires InStripes(log) && r.Some?
    requires |log| % 16 > 0 ==> r == log[|log| - 1]
    ensures InStripes(log + [r])
  {
    SameStripe(|log|);
    hide StripeStart;
    var more := log + [r];
    forall n | 0 <= n < |more|
      ensures more[n].Some? && more[n] == more[StripeStart(n)]
    {
      if n == |log| && n % 16 > 0 {
        assert log[n - 1] == log[StripeStart(n - 1)];
      }
    }
  }

  lemma {:induction false} StripedAllAlong(sel: Selector, slots: Slots, times: seq<int>)
    requires BurstStart(slots) && Dense(times) && |times| <= 16 * LiveCount(slots, 64)
    requires !sel.hasCurrent || sel.remaining == 0
    ensures
      var b := RunBurst(sel, slots, times);
      && StripedSoFar(b, if times == [] then 0 else times[|times| - 1], |times|) && InStripes(b.log)
      && |b.log| == |times| && (times != [] ==> b.log[|times| - 1] == Some(b.sel.current))
  {
    hide Choose, TotalDepth, LiveCount, StripedSoFar, BurstStart, Balanced, SameLanes, CanStripe, InStripes;
    NoneStriped(sel, slots);
    if times != [] {
      var m := |times| - 1;
      var init := times[..m];
      var b := RunBurst(sel, slots, init);
      StripedAllAlong(sel, slots, init);
      BurstFillsEvenly(sel, slots, init);
      BurstFillsEvenly(sel, slots, times);
      StripedStep(b, if m == 0 then 0 else init[m - 1], times[m], m);
      StripesSnoc(b.log, Choose(b.sel, b.slots, times[m]).1);
    }
  }

  lemma {:induction false} BurstPrefix(sel: Selector, slots: Slots, times: seq<int>, m: nat)
    requires m <= |times|
    ensures |RunBurst(sel, slots, times).log| == |times|
    ensures RunBurst(sel, slots, times[..m]).log == RunBurst(sel, slots, times).log[..m]
  {
    hide Choose;
    if m == |times| {
      assert times[..m] == times;
      if m > 0 {
        BurstPrefix(sel, slots, times[..m - 1], 0);
      }
    } else {
      var init := times[..|times| - 1];
      BurstPrefix(sel, slots, init, m);
      assert init[..m] == times[..m];
    }
  }

  /** In a burst over k reorder-capable lanes that start empty, with no gap over
      2 ms, the first 16k packets go out in stripes of 16 on one lane each. */
  lemma BurstGoesInStripes(sel: Selector, slots: Slots, times: seq<int>, n: nat)
    requires BurstStart(slots) && Dense(times) && (!sel.hasCurrent || sel.remaining == 0)
    requires n < |times| && n < 16 * LiveCount(slots, 64)
    ensures
      var log := RunBurst(sel, slots, times).log;
      |log| == |times| && log[n].Some? && log[n] == log[n - n % 16]
  {
    hide Choose, LiveCount, StripedSoFar, BurstStart, RunBurst;
    BurstPrefix(sel, slots, times, n + 1);
    StripedAllAlong(sel, slots, times[..n + 1]);
    var log := RunBurst(sel, slots, times).log;
    assert log[..n + 1][n] == log[n] && log[..n + 1][StripeStart(n)] == log[StripeStart(n)];
  }

  lemma NoneStriped(sel: Selector, slots: Slots)
    requires BurstStart(slots)
    ensures StripedSoFar(Burst(sel, slots, []), 0, 0) && RunBurst(sel, slots, []) == Burst(sel, slots, [])
    ensures InStripes([])
  {
  }

  /** Among reorder-capable lanes, packet n carries on the stripe. */
  predicate Continued(sel: Selector, arrivals: seq<Arrival>, n: nat)
    requires n < |arrivals|
  {
    CanStripe(arrivals[n].counted) && Keeps(SelectorAfter(sel, arrivals[..n]), arrivals[n])
  }

  lemma {:induction false} FewRemain(sel: Selector, arrivals: seq<Arrival>)
    requires sel.remaining < STRIPE_SIZE
    ensures SelectorAfter(sel, arrivals).remaining < STRIPE_SIZE
  {
    hide Scan, Least, AnyLive, CanStripe;
    if arrivals != [] {
      FewRemain(sel, arrivals[..|arrivals| - 1]);
    }
  }

  lemma OneMore(sel: Selector, arrivals: seq<Arrival>, n: nat)
    requires n < |arrivals|
    ensures SelectorAfter(sel, arrivals[..n + 1]) == ChooseRacing(SelectorAfter(sel, arrivals[..n]), arrivals[n]).0
  {
    hide ChooseRacing;
    assert arrivals[..n + 1] == arrivals[..n] + [arrivals[n]];
    SelectorAfterSnoc(sel, arrivals[..n], arrivals[n]);
  }

  /** What the selector remembers of a packet that found reorder-capable lanes. */
  lemma Remembers(sel: Selector, a: Arrival)
    requires CanStripe(a.counted) && ChooseRacing(sel, a).0.hasCurrent
    ensures ChooseRacing(sel, a).1 == Some(ChooseRacing(sel, a).0.current)
    ensures ChooseRacing(sel, a).0.lastPacket == a.now
  {
    hide Scan, Least, CanStripe;
  }

  lemma CarriesOn(sel: Selector, a: Arrival)
    requires InOrder(a) && CanStripe(a.counted) && Keeps(sel, a)
    ensures sel.hasCurrent && !GapExpired(sel, a.now)
    ensures ChooseRacing(sel, a).1 == Some(sel.current)
    ensures ChooseRacing(sel, a).0.remaining == sel.remaining - 1
  {
    hide Scan, Least, CanStripe;
    assert Live(a.counted, sel.current);
  }

  /** A packet that continues a stripe goes to the lane of the packet before it,
      if that one found reorder-capable lanes too, and within the gap; it uses
      up one of the remaining picks. Lanes and queues may change in between. */
  lemma ContinuedStep(sel: Selector, arrivals: seq<Arrival>, n: nat)
    requires 0 < n < |arrivals| && InOrder(arrivals[n])
    requires Continued(sel, arrivals, n) && CanStripe(arrivals[n - 1].counted)
    ensures Selected(sel, arrivals, n).Some? && Selected(sel, arrivals, n) == Selected(sel, arrivals, n - 1)
    ensures arrivals[n - 1].now == ZERO_TIME || arrivals[n].now - arrivals[n - 1].now <= FLOWLET_GAP
    ensures SelectorAfter(sel, arrivals[..n + 1]).remaining == SelectorAfter(sel, arrivals[..n]).remaining - 1
  {
    hide ChooseRacing, CanStripe, InOrder, Keeps, SelectorAfter;
    CarriesOn(SelectorAfter(sel, arrivals[..n]), arrivals[n]);
    OneMore(sel, arrivals, n);
    OneMore(sel, arrivals, n - 1);
    Remembers(SelectorAfter(sel, arrivals[..n - 1]), arrivals[n - 1]);
  }

  /** A stripe: one pick and the packets that continue it, at most 16 in all,
      on one lane, with no gap over 2 ms inside (a packet stamped with the zero
      time starts no measurement). */
  ghost predicate IsStripe(sel: Selector, arrivals: seq<Arrival>, a: nat, e: nat)
    requires a <= e < |arrivals|
  {
    && e - a < STRIPE_SIZE
    && (forall n: nat :: a <= n <= e ==>
          Selected(sel, arrivals, n).Some? && Selected(sel, arrivals, n) == Selected(sel, arrivals, a))
    && (forall n: nat :: a < n <= e ==>
          arrivals[n - 1].now == ZERO_TIME || arrivals[n].now - arrivals[n - 1].now <= FLOWLET_GAP)
  }

  /** Over any arrivals, whatever becomes of lanes and queues in between: every
      row of continuations, after a packet that found reorder-capable lanes, is
      one stripe. */
  lemma {:induction false} StripesAreShort(sel: Selector, arrivals: seq<Arrival>, a: nat, e: nat)
    requires sel.remaining < STRIPE_SIZE && a < e < |arrivals| && CanStripe(arrivals[a].counted)
    requires forall n: nat :: a < n <= e ==> InOrder(arrivals[n]) && Continued(sel, arrivals, n)
    ensures IsStripe(sel, arrivals, a, e)
    ensures SelectorAfter(sel, arrivals[..e + 1]).remaining + (e - a) < STRIPE_SIZE
  {
    hide ChooseRacing, InOrder, CanStripe, Keeps, SelectorAfter, Selected;
    ContinuedStep(sel, arrivals, e);
    if a + 1 < e {
      StripesAreShort(sel, arrivals, a, e - 1);
    } else {
      FewRemain(sel, arrivals[..e]);
    }
  }
}
