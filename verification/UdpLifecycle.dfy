/** Sessions, their lanes and the registry as a step system. An attach checks
    the session's context and inserts its lane inside one critical section, but
    cancellation does not take that lock and may fall in between; closing is a
    once-only sequence of four separate steps. */
module UdpLifecycle {
  import Runs

  /** How far the once-only close has come. */
  datatype Phase = Open | Entered | Cancelled | Swept | Finished

  datatype Attaching = Nobody | InsideLock(streamID: nat)

  datatype Session = Session(
    key: nat,
    ctxDone: bool,
    phase: Phase,
    slots: map<nat, nat>,
    attaching: Attaching)

  datatype Lane = Lane(session: nat, streamID: nat, stopped: bool)

  /** Sessions and lanes are numbered in order of creation and never forgotten;
      `registry` maps keys to sessions. */
  datatype State = State(sessions: seq<Session>, lanes: seq<Lane>, registry: map<nat, nat>)

  datatype Op =
    | GetOrCreate(key: nat)
    | ParentCancel(session: nat)
    | AttachCheck(session: nat, streamID: nat)
    | AttachInsert(session: nat)
    | StopLane(lane: nat)
    | Detach(lane: nat)
    | CloseEnter(session: nat)
    | CloseCancel(session: nat)
    | CloseSweep(session: nat)
    | CloseUnregister(session: nat)

  predicate Is(st: State, s: nat) {
    s < |st.sessions|
  }

  function SetSession(st: State, s: nat, x: Session): State
    requires Is(st, s)
  {
    st.(sessions := st.sessions[s := x])
  }

  function Stop(lanes: seq<Lane>, l: nat): seq<Lane>
    requires l < |lanes|
  {
    lanes[l := lanes[l].(stopped := true)]
  }

  function StopAll(lanes: seq<Lane>, which: set<nat>): (r: seq<Lane>)
    ensures |r| == |lanes|
    ensures forall l :: 0 <= l < |lanes| ==> r[l] == if l in which then lanes[l].(stopped := true) else lanes[l]
  {
    seq(|lanes|, l requires 0 <= l < |lanes| => if l in which then lanes[l].(stopped := true) else lanes[l])
  }

  predicate Reuses(st: State, key: nat) {
    key in st.registry && Is(st, st.registry[key]) && !st.sessions[st.registry[key]].ctxDone
  }

  /** The lanes after the predecessor under a stream id, if any, was stopped. */
  function WithoutPredecessor(st: State, s: nat, streamID: nat): (lanes: seq<Lane>)
    requires Is(st, s)
    ensures |lanes| == |st.lanes|
  {
    var slots := st.sessions[s].slots;
    if streamID in slots && slots[streamID] < |st.lanes| then Stop(st.lanes, slots[streamID]) else st.lanes
  }

  predicate Step(st: State, op: Op, st': State) {
    match op
    case GetOrCreate(key) =>
      st' == if Reuses(st, key) then st
             else st.(sessions := st.sessions + [Session(key, false, Open, map[], Nobody)],
                      registry := st.registry[key := |st.sessions|])
    case ParentCancel(s) =>
      Is(st, s) && st' == SetSession(st, s, st.sessions[s].(ctxDone := true))
    case AttachCheck(s, id) =>
      && Is(st, s) && st.sessions[s].attaching == Nobody
      && st' == if st.sessions[s].ctxDone then st
                else SetSession(st, s, st.sessions[s].(attaching := InsideLock(id)))
    case AttachInsert(s) =>
      && Is(st, s) && st.sessions[s].attaching.InsideLock?
      && var id := st.sessions[s].attaching.streamID;
         var lanes := WithoutPredecessor(st, s, id) + [Lane(s, id, false)];
         st' == SetSession(st, s, st.sessions[s].(slots := st.sessions[s].slots[id := |st.lanes|], attaching := Nobody))
                .(lanes := lanes)
    case StopLane(l) =>
      l < |st.lanes| && st' == st.(lanes := Stop(st.lanes, l))
    case Detach(l) =>
      && l < |st.lanes| && st.lanes[l].stopped
      && var s := st.lanes[l].session;
         && Is(st, s) && st.sessions[s].attaching == Nobody
         && var slots := st.sessions[s].slots;
            var id := st.lanes[l].streamID;
            st' == if id in slots && slots[id] == l
                  then SetSession(st, s, st.sessions[s].(slots := slots - {id})) else st
    case CloseEnter(s) =>
      && Is(st, s) && st.sessions[s].phase == Open
      && st' == SetSession(st, s, st.sessions[s].(phase := Entered))
    case CloseCancel(s) =>
      && Is(st, s) && st.sessions[s].phase == Entered
      && st' == SetSession(st, s, st.sessions[s].(phase := Cancelled, ctxDone := true))
    case CloseSweep(s) =>
      && Is(st, s) && st.sessions[s].phase == Cancelled && st.sessions[s].attaching == Nobody
      && st' == SetSession(st, s, st.sessions[s].(phase := Phase.Swept, slots := map[]))
                .(lanes := StopAll(st.lanes, st.sessions[s].slots.Values))
    case CloseUnregister(s) =>
      && Is(st, s) && st.sessions[s].phase == Phase.Swept
      && var key := st.sessions[s].key;
         st' == SetSession(st, s, st.sessions[s].(phase := Finished))
                .(registry := if key in st.registry && st.registry[key] == s then st.registry - {key} else st.registry)
  }

  // ------------------------------------------------------------- invariants

  predicate Late(p: Phase) {
    p == Phase.Swept || p == Finished
  }

  /** A lane that was not stopped is the one its session lists. */
  ghost predicate LaneInv(st: State, l: nat)
    requires l < |st.lanes|
  {
    var lane := st.lanes[l];
    && Is(st, lane.session)
    && (!lane.stopped ==>
          && lane.streamID in st.sessions[lane.session].slots
          && st.sessions[lane.session].slots[lane.streamID] == l)
  }

  /** A session lists its own lanes; once swept it lists none and can gain
      none; it is registered until its context is done, and not after closing. */
  ghost predicate SessionInv(st: State, s: nat)
    requires Is(st, s)
  {
    var x := st.sessions[s];
    && (forall id :: id in x.slots ==> x.slots[id] < |st.lanes| && st.lanes[x.slots[id]].session == s
                                       && st.lanes[x.slots[id]].streamID == id)
    && (x.phase == Cancelled || Late(x.phase) ==> x.ctxDone)
    && (Late(x.phase) ==> x.slots == map[] && x.attaching == Nobody)
    && (!x.ctxDone ==> x.key in st.registry && st.registry[x.key] == s)
    && (x.phase == Finished ==> forall k :: k in st.registry ==> st.registry[k] != s)
  }

  ghost predicate Inv(st: State) {
    && (forall l :: 0 <= l < |st.lanes| ==> LaneInv(st, l))
    && (forall s :: 0 <= s < |st.sessions| ==> SessionInv(st, s))
    && (forall k :: k in st.registry ==> Is(st, st.registry[k]) && st.sessions[st.registry[k]].key == k)
  }

  lemma StepKeepsLanes(st: State, op: Op, st': State)
    requires Inv(st) && Step(st, op, st')
    ensures forall l :: 0 <= l < |st'.lanes| ==> LaneInv(st', l)
  {
    hide LaneInv, SessionInv, Step;
    forall l | 0 <= l < |st'.lanes|
      ensures LaneInv(st', l)
    {
      StepKeepsLane(st, op, st', l);
    }
  }

  lemma StepKeepsLane(st: State, op: Op, st': State, l: nat)
    requires Inv(st) && Step(st, op, st') && l < |st'.lanes|
    ensures LaneInv(st', l)
  {
    if l < |st.lanes| {
      assert LaneInv(st, l);
      assert SessionInv(st, st.lanes[l].session);
    }
  }

  lemma CreateKeepsSession(st: State, op: Op, st': State, s: nat)
    requires Inv(st) && Step(st, op, st') && op.GetOrCreate? && Is(st', s)
    ensures SessionInv(st', s)
  {
    if s < |st.sessions| {
      assert SessionInv(st, s);
    }
  }

  lemma InsertKeepsSession(st: State, op: Op, st': State, s: nat)
    requires Inv(st) && Step(st, op, st') && op.AttachInsert? && Is(st', s)
    ensures SessionInv(st', s)
  {
    assert SessionInv(st, s);
  }

  lemma SweepKeepsSession(st: State, op: Op, st': State, s: nat)
    requires Inv(st) && Step(st, op, st') && (op.CloseSweep? || op.StopLane?) && Is(st', s)
    ensures SessionInv(st', s)
  {
    assert SessionInv(st, s);
  }

  lemma OtherKeepsSession(st: State, op: Op, st': State, s: nat)
    requires Inv(st) && Step(st, op, st') && Is(st', s)
    requires !op.GetOrCreate? && !op.AttachInsert? && !op.CloseSweep? && !op.StopLane?
    ensures SessionInv(st', s)
  {
    assert SessionInv(st, s);
  }

  lemma StepKeepsSessions(st: State, op: Op, st': State)
    requires Inv(st) && Step(st, op, st')
    ensures forall s :: 0 <= s < |st'.sessions| ==> SessionInv(st', s)
  {
    forall s | 0 <= s < |st'.sessions|
      ensures SessionInv(st', s)
    {
      match op {
        case GetOrCreate(_) => CreateKeepsSession(st, op, st', s);
        case AttachInsert(_) => InsertKeepsSession(st, op, st', s);
        case CloseSweep(_) => SweepKeepsSession(st, op, st', s);
        case StopLane(_) => SweepKeepsSession(st, op, st', s);
        case _ => OtherKeepsSession(st, op, st', s);
      }
    }
  }

  lemma StepKeepsInv(st: State, op: Op, st': State)
    requires Inv(st) && Step(st, op, st')
    ensures Inv(st')
  {
    StepKeepsLanes(st, op, st');
    StepKeepsSessions(st, op, st');
  }

  // ------------------------------------------------------------------- runs

  ghost predicate Next(st: State, st': State) {
    exists op :: Step(st, op, st')
  }

  ghost predicate Run(trace: seq<State>) {
    Runs.Steps(Next, trace) && trace[0] == State([], [], map[])
  }

  lemma NextKeepsInv()
    ensures Runs.Kept(Next, Inv)
  {
    hide Step, Inv;
    forall st: State, st': State | Inv(st) && Next(st, st')
      ensures Inv(st')
    {
      var op :| Step(st, op, st');
      StepKeepsInv(st, op, st');
    }
  }

  lemma RunKeepsInv(trace: seq<State>, i: nat)
    requires Run(trace) && i < |trace|
    ensures Inv(trace[i])
  {
    hide Step;
    NextKeepsInv();
    Runs.KeptAlong(Next, Inv, trace, 0, i);
  }

  /** `st'` is reached from `st` by some steps. */
  ghost predicate Reaches(st: State, st': State) {
    Runs.Reaches(Next, st, st')
  }

  lemma ReachesSelf(st: State)
    ensures Reaches(st, st)
  {
    Runs.Self(Next, st);
  }

  lemma ReachesStep(st: State, m: State, op: Op, st': State)
    requires Reaches(st, m) && Step(m, op, st')
    ensures Reaches(st, st')
  {
    hide Step;
    assert Next(m, st');
    Runs.Step(Next, st, m, st');
  }

  lemma ReachesFrom(st: State, m: State, st': State)
    requires Reaches(st, m) && Reaches(m, st')
    ensures Reaches(st, st')
  {
    Runs.From(Next, st, m, st');
  }

  // ---------------------------------------------- operations without interference

  /** An attach: nothing when the context is done, else the lane replaces its
      predecessor. */
  function Attached(st: State, s: nat, id: nat): State
    requires Is(st, s)
  {
    if st.sessions[s].ctxDone then st
    else
      SetSession(st, s, st.sessions[s].(slots := st.sessions[s].slots[id := |st.lanes|], attaching := Nobody))
      .(lanes := WithoutPredecessor(st, s, id) + [Lane(s, id, false)])
  }

  lemma AttachReaches(st: State, s: nat, id: nat)
    requires Is(st, s) && st.sessions[s].attaching == Nobody
    ensures Reaches(st, Attached(st, s, id))
  {
    ReachesSelf(st);
    if !st.sessions[s].ctxDone {
      var m := SetSession(st, s, st.sessions[s].(attaching := InsideLock(id)));
      ReachesStep(st, st, AttachCheck(s, id), m);
      assert WithoutPredecessor(m, s, id) == WithoutPredecessor(st, s, id);
      assert Step(m, AttachInsert(s), Attached(st, s, id));
      ReachesStep(st, m, AttachInsert(s), Attached(st, s, id));
    }
  }

  /** A detach stops the lane and takes it off the list unless it was replaced. */
  function Detached(st: State, l: nat): State
    requires l < |st.lanes| && Is(st, st.lanes[l].session)
  {
    var s, id := st.lanes[l].session, st.lanes[l].streamID;
    var stopped := st.(lanes := Stop(st.lanes, l));
    var slots := st.sessions[s].slots;
    if id in slots && slots[id] == l then SetSession(stopped, s, st.sessions[s].(slots := slots - {id})) else stopped
  }

  lemma DetachReaches(st: State, l: nat)
    requires l < |st.lanes| && Is(st, st.lanes[l].session) && st.sessions[st.lanes[l].session].attaching == Nobody
    ensures Reaches(st, Detached(st, l))
  {
    ReachesSelf(st);
    var m := st.(lanes := Stop(st.lanes, l));
    ReachesStep(st, st, StopLane(l), m);
    ReachesStep(st, m, Op.Detach(l), Detached(st, l));
  }

  /** A whole close: context done, listed lanes stopped, nothing listed, and the
      key free unless a successor has it. */
  function Closed(st: State, s: nat): State
    requires Is(st, s)
  {
    var x := st.sessions[s];
    if x.phase != Open then st
    else
      SetSession(st, s, x.(phase := Finished, ctxDone := true, slots := map[]))
      .(lanes := StopAll(st.lanes, x.slots.Values),
        registry := if x.key in st.registry && st.registry[x.key] == s then st.registry - {x.key} else st.registry)
  }

  function Cancelling(st: State, s: nat): State
    requires Is(st, s)
  {
    SetSession(st, s, st.sessions[s].(phase := Cancelled, ctxDone := true))
  }

  lemma CancelReaches(st: State, s: nat)
    requires Is(st, s) && st.sessions[s].phase == Open
    ensures Reaches(st, Cancelling(st, s))
  {
    hide Reaches;
    ReachesSelf(st);
    var a := SetSession(st, s, st.sessions[s].(phase := Entered));
    ReachesStep(st, st, CloseEnter(s), a);
    assert a.sessions[s := Cancelling(st, s).sessions[s]] == Cancelling(st, s).sessions;
    ReachesStep(st, a, CloseCancel(s), Cancelling(st, s));
  }

  lemma SweepReaches(st: State, m: State, s: nat)
    requires Reaches(st, m) && Is(m, s) && m.sessions[s].phase == Cancelled && m.sessions[s].attaching == Nobody
    ensures Reaches(st, Swept(m, s))
  {
    hide Reaches;
    ReachesStep(st, m, CloseSweep(s), Swept(m, s));
  }

  function Swept(m: State, s: nat): State
    requires Is(m, s)
  {
    SetSession(m, s, m.sessions[s].(phase := Phase.Swept, slots := map[]))
    .(lanes := StopAll(m.lanes, m.sessions[s].slots.Values))
  }

  lemma CloseReaches(st: State, s: nat)
    requires Is(st, s) && st.sessions[s].attaching == Nobody
    ensures Reaches(st, Closed(st, s))
  {
    ReachesSelf(st);
    hide Reaches;
    if st.sessions[s].phase == Open {
      CancelReaches(st, s);
      SweepReaches(st, Cancelling(st, s), s);
      var d := Swept(Cancelling(st, s), s);
      assert d.sessions[s := Closed(st, s).sessions[s]] == Closed(st, s).sessions;
      hide StopAll;
      ReachesStep(st, d, CloseUnregister(s), Closed(st, s));
    }
  }

  predicate IsClosed(st: State, s: nat) {
    Is(st, s) && st.sessions[s].phase == Finished
  }

  /** Lane l belongs to session s. */
  predicate LaneOf(st: State, l: nat, s: nat) {
    l < |st.lanes| && st.lanes[l].session == s
  }

  lemma ClosedStep(st: State, op: Op, st': State, s: nat)
    requires Inv(st) && Step(st, op, st') && IsClosed(st, s)
    ensures IsClosed(st', s)
    ensures forall l: nat :: LaneOf(st', l, s) ==> LaneOf(st, l, s)
  {
    assert SessionInv(st, s);
  }

  lemma {:induction false} ClosedStays(trace: seq<State>, i: nat, j: nat, s: nat)
    requires Run(trace) && i <= j < |trace| && IsClosed(trace[i], s)
    ensures IsClosed(trace[j], s)
    ensures forall l: nat :: LaneOf(trace[j], l, s) ==> LaneOf(trace[i], l, s)
    decreases j
  {
    if i < j {
      ClosedStays(trace, i, j - 1, s);
      RunKeepsInv(trace, j - 1);
      assert Runs.StepAt(Next, trace, j - 1);
      var op :| Step(trace[j - 1], op, trace[j]);
      ClosedStep(trace[j - 1], op, trace[j], s);
    }
  }

  /** Once close has finished, and from then on: every lane ever attached is
      stopped, no later attach succeeds, and no key maps to the session. */
  lemma ClosedForGood(trace: seq<State>, i: nat, j: nat, s: nat)
    requires Run(trace) && i <= j < |trace| && IsClosed(trace[i], s)
    ensures forall l: nat :: LaneOf(trace[j], l, s) ==> trace[j].lanes[l].stopped
    ensures forall l: nat :: LaneOf(trace[j], l, s) ==> LaneOf(trace[i], l, s)
    ensures forall k :: k in trace[j].registry ==> trace[j].registry[k] != s
  {
    ClosedStays(trace, i, j, s);
    RunKeepsInv(trace, j);
    assert SessionInv(trace[j], s);
    forall l: nat | LaneOf(trace[j], l, s)
      ensures trace[j].lanes[l].stopped
    {
      assert LaneInv(trace[j], l);
    }
  }

  /** Retiring never evicts a successor: at every point of every run, a session
      whose context is not done is the one registered under its key, and a
      lane that was not stopped is the one listed under its stream id. */
  lemma SuccessorsKept(trace: seq<State>, i: nat, s: nat, l: nat)
    requires Run(trace) && i < |trace|
    ensures
      var st := trace[i];
      Is(st, s) && !st.sessions[s].ctxDone ==> st.sessions[s].key in st.registry && st.registry[st.sessions[s].key] == s
    ensures
      var st := trace[i];
      l < |st.lanes| && !st.lanes[l].stopped ==>
        && Is(st, st.lanes[l].session)
        && st.lanes[l].streamID in st.sessions[st.lanes[l].session].slots
        && st.sessions[st.lanes[l].session].slots[st.lanes[l].streamID] == l
  {
    RunKeepsInv(trace, i);
    if Is(trace[i], s) {
      assert SessionInv(trace[i], s);
    }
    if l < |trace[i].lanes| {
      assert LaneInv(trace[i], l);
    }
  }
}
