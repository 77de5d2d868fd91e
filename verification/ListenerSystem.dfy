/** The UDP listener as a step system. The connection table is only touched
    under the listener's lock, so what happens to it in one critical section is
    one step; the accept queue and the wait-group count are touched without it. */
module ListenerSystem {
  import Runs

  const BACKLOG := 128

  /** A connection is created in the queue. Accept takes it out and only then
      counts it; closing discounts it and only then deletes its table entry. */
  datatype Stage = Queued | Popped | Accepted | Closing | Closed | Dropped

  datatype Conn = Conn(addr: nat, stage: Stage)

  datatype Lock = Free | Looking(addr: nat) | Draining

  datatype Shutdown = Open | Refusing | Emptying | Emptied | Released

  /** Connections are numbered in order of creation. `zero` says the count has
      been zero, which is what the goroutine that closes the socket waits for. */
  datatype Listener = Listener(
    conns: seq<Conn>,
    table: map<nat, nat>,
    queue: seq<nat>,
    lock: Lock,
    shutdown: Shutdown,
    count: int,
    zero: bool,
    socketOpen: bool)

  const FRESH_LISTENER := Listener([], map[], [], Free, Open, 1, false, true)

  datatype Op =
    | LookUp(addr: nat)
    | Enqueue
    | Pop
    | Count(c: nat)
    | CloseConn(c: nat)
    | Delete(c: nat)
    | Refuse
    | LockForDrain
    | DrainOne
    | Unlock
    | Release
    | CloseSocket

  predicate At(l: Listener, c: nat, stage: Stage) {
    c < |l.conns| && l.conns[c].stage == stage
  }

  function Move(l: Listener, c: nat, stage: Stage): Listener
    requires c < |l.conns|
  {
    l.(conns := l.conns[c := l.conns[c].(stage := stage)])
  }

  function Discount(l: Listener): Listener {
    l.(count := l.count - 1, zero := l.zero || l.count == 1)
  }

  predicate Step(l: Listener, op: Op, l': Listener) {
    match op
    case LookUp(a) =>
      && l.lock == Free && a !in l.table && l.shutdown == Open
      && l' == l.(lock := Looking(a))
    case Enqueue =>
      && l.lock.Looking?
      && l' == if |l.queue| < BACKLOG
               then l.(conns := l.conns + [Conn(l.lock.addr, Queued)], queue := l.queue + [|l.conns|],
                       table := l.table[l.lock.addr := |l.conns|], lock := Free)
               else l.(lock := Free)
    case Pop =>
      && l.queue != [] && l.queue[0] < |l.conns|
      && l' == Move(l, l.queue[0], Popped).(queue := l.queue[1..])
    case Count(c) =>
      At(l, c, Popped) && l' == Move(l, c, Accepted).(count := l.count + 1)
    case CloseConn(c) =>
      At(l, c, Accepted) && l' == Discount(Move(l, c, Closing))
    case Delete(c) =>
      At(l, c, Closing) && l.lock == Free && l' == Move(l, c, Closed).(table := l.table - {l.conns[c].addr})
    case Refuse =>
      l.shutdown == Open && l' == l.(shutdown := Refusing)
    case LockForDrain =>
      l.shutdown == Refusing && l.lock == Free && l' == l.(shutdown := Emptying, lock := Draining)
    case DrainOne =>
      && l.shutdown == Emptying && l.queue != [] && l.queue[0] < |l.conns|
      && l' == Move(l, l.queue[0], Dropped).(queue := l.queue[1..], table := l.table - {l.conns[l.queue[0]].addr})
    case Unlock =>
      l.shutdown == Emptying && l.queue == [] && l' == l.(shutdown := Emptied, lock := Free)
    case Release =>
      l.shutdown == Emptied && l' == Discount(l.(shutdown := Released))
    case CloseSocket =>
      l.zero && l' == l.(socketOpen := false)
  }

  ghost predicate Next(l: Listener, l': Listener) {
    exists op :: Step(l, op, l')
  }

  ghost predicate Run(trace: seq<Listener>) {
    Runs.Steps(Next, trace) && trace[0] == FRESH_LISTENER
  }

  ghost predicate Reaches(l: Listener, l': Listener) {
    Runs.Reaches(Next, l, l')
  }

  lemma ReachesItself(l: Listener)
    ensures Reaches(l, l)
  {
    Runs.Self(Next, l);
  }

  lemma ReachesMore(l: Listener, m: Listener, op: Op, l': Listener)
    requires Reaches(l, m) && Step(m, op, l')
    ensures Reaches(l, l')
  {
    hide Step;
    assert Next(m, l');
    Runs.Step(Next, l, m, l');
  }

  // ------------------------------------------------------------- invariant

  predicate Live(stage: Stage) {
    stage == Queued || stage == Popped || stage == Accepted || stage == Closing
  }

  /** The table holds one connection per remote address: exactly those queued
      or accepted whose entry was not deleted yet. */
  ghost predicate TableExact(l: Listener) {
    && (forall a :: a in l.table ==>
          && l.table[a] < |l.conns| && l.conns[l.table[a]].addr == a
          && Live(l.conns[l.table[a]].stage))
    && (forall c :: 0 <= c < |l.conns| && Live(l.conns[c].stage) ==>
          l.conns[c].addr in l.table && l.table[l.conns[c].addr] == c)
  }

  ghost predicate QueueExact(l: Listener) {
    && |l.queue| <= BACKLOG
    && (forall c: nat :: c in l.queue <==> At(l, c, Queued))
    && (forall i, j :: 0 <= i < j < |l.queue| ==> l.queue[i] != l.queue[j])
  }

  function AcceptedWeight(stage: Stage): nat {
    if stage == Accepted then 1 else 0
  }

  /** How many connections were counted by Accept and not discounted yet. */
  function AcceptedCount(conns: seq<Conn>): nat {
    if conns == [] then 0 else AcceptedCount(conns[..|conns| - 1]) + AcceptedWeight(conns[|conns| - 1].stage)
  }

  predicate Counted(l: Listener) {
    && l.count == AcceptedCount(l.conns) + (if l.shutdown == Released then 0 else 1)
    && (l.zero ==> l.shutdown == Released)
    && (!l.socketOpen ==> l.zero)
  }

  predicate Phases(l: Listener) {
    && (l.lock == Draining <==> l.shutdown == Emptying)
    && (l.lock.Looking? ==> l.lock.addr !in l.table && (l.shutdown == Open || l.shutdown == Refusing))
    && (l.shutdown == Emptied || l.shutdown == Released ==> l.queue == [])
  }

  ghost predicate Inv(l: Listener) {
    TableExact(l) && QueueExact(l) && Counted(l) && Phases(l)
  }

  lemma {:induction false} AcceptedMove(conns: seq<Conn>, c: nat, x: Conn)
    requires c < |conns|
    ensures AcceptedCount(conns[c := x]) + AcceptedWeight(conns[c].stage)
            == AcceptedCount(conns) + AcceptedWeight(x.stage)
  {
    var n := |conns| - 1;
    if c < n {
      assert conns[c := x][..n] == conns[..n][c := x];
      AcceptedMove(conns[..n], c, x);
    } else {
      assert conns[c := x][..n] == conns[..n];
    }
  }

  lemma AcceptedSnoc(conns: seq<Conn>, x: Conn)
    ensures AcceptedCount(conns + [x]) == AcceptedCount(conns) + AcceptedWeight(x.stage)
  {
    assert (conns + [x])[..|conns|] == conns;
  }

  lemma {:induction false} NoneAcceptedIff(conns: seq<Conn>)
    ensures AcceptedCount(conns) == 0 <==> forall c :: 0 <= c < |conns| ==> conns[c].stage != Accepted
  {
    if conns != [] {
      var n := |conns| - 1;
      NoneAcceptedIff(conns[..n]);
      assert forall c :: 0 <= c < n ==> conns[..n][c] == conns[c];
    }
  }

  /** An entry leaves the table together with its connection. */
  lemma EntryLeaves(l: Listener, c: nat, stage: Stage, l': Listener)
    requires TableExact(l) && c < |l.conns| && Live(l.conns[c].stage) && !Live(stage)
    requires l'.conns == Move(l, c, stage).conns && l'.table == l.table - {l.conns[c].addr}
    ensures TableExact(l')
  {
  }

  /** A connection enters under an address that is not taken. */
  lemma EntryEnters(l: Listener, a: nat, l': Listener)
    requires TableExact(l) && a !in l.table
    requires l'.conns == l.conns + [Conn(a, Queued)] && l'.table == l.table[a := |l.conns|]
    ensures TableExact(l')
  {
  }

  lemma EntryStays(l: Listener, c: nat, stage: Stage, l': Listener)
    requires TableExact(l) && c < |l.conns| && Live(l.conns[c].stage) && Live(stage)
    requires l'.conns == Move(l, c, stage).conns && l'.table == l.table
    ensures TableExact(l')
  {
  }

  lemma SameTable(l: Listener, l': Listener)
    requires TableExact(l) && l'.conns == l.conns && l'.table == l.table
    ensures TableExact(l')
  {
  }

  lemma StepKeepsTable(l: Listener, op: Op, l': Listener)
    requires Inv(l) && Step(l, op, l')
    ensures TableExact(l')
  {
    hide TableExact, AcceptedCount;
    match op
    case Enqueue => TableAfterEnqueue(l, l');
    case Pop => QueueHead(l); EntryStays(l, l.queue[0], Popped, l');
    case Count(c) => EntryStays(l, c, Accepted, l');
    case CloseConn(c) => EntryStays(l, c, Closing, l');
    case Delete(c) => EntryLeaves(l, c, Closed, l');
    case DrainOne => QueueHead(l); EntryLeaves(l, l.queue[0], Dropped, l');
    case _ => SameTable(l, l');
  }

  lemma TableAfterEnqueue(l: Listener, l': Listener)
    requires Inv(l) && Step(l, Enqueue, l')
    ensures TableExact(l')
  {
    hide TableExact, AcceptedCount;
    if |l.queue| < BACKLOG {
      EntryEnters(l, l.lock.addr, l');
    } else {
      SameTable(l, l');
    }
  }

  lemma QueueHead(l: Listener)
    requires QueueExact(l) && l.queue != []
    ensures At(l, l.queue[0], Queued)
  {
    assert l.queue[0] in l.queue;
  }

  lemma StepKeepsQueue(l: Listener, op: Op, l': Listener)
    requires Inv(l) && Step(l, op, l')
    ensures QueueExact(l')
  {
    hide AcceptedCount, TableExact;
    if op.Pop? || op.DrainOne? {
      HeadLeaves(l, l', if op.Pop? then Popped else Dropped);
    } else if op.Enqueue? && |l.queue| < BACKLOG {
      TailEnters(l, l');
    } else {
      forall c: nat
        ensures c in l'.queue <==> At(l', c, Queued)
      {
        assert At(l, c, Queued) <==> At(l', c, Queued);
      }
    }
  }

  lemma HeadLeaves(l: Listener, l': Listener, stage: Stage)
    requires QueueExact(l) && l.queue != [] && l.queue[0] < |l.conns| && stage != Queued
    requires l'.queue == l.queue[1..] && l'.conns == Move(l, l.queue[0], stage).conns
    ensures QueueExact(l')
  {
    forall c: nat
      ensures c in l'.queue <==> At(l', c, Queued)
    {
      assert c in l.queue <==> c == l.queue[0] || c in l.queue[1..];
    }
  }

  lemma TailEnters(l: Listener, l': Listener)
    requires QueueExact(l) && |l.queue| < BACKLOG
    requires exists a :: l'.conns == l.conns + [Conn(a, Queued)]
    requires l'.queue == l.queue + [|l.conns|]
    ensures QueueExact(l')
  {
    forall c: nat
      ensures c in l'.queue <==> At(l', c, Queued)
    {
      assert c in l.queue <==> At(l, c, Queued);
    }
    assert forall i :: 0 <= i < |l.queue| ==> l.queue[i] in l.queue;
  }

  lemma StepKeepsCount(l: Listener, op: Op, l': Listener)
    requires Inv(l) && Step(l, op, l')
    ensures Counted(l') && Phases(l')
  {
    hide TableExact, AcceptedCount;
    match op
    case Enqueue =>
      AcceptedSnoc(l.conns, Conn(l.lock.addr, Queued));
    case Pop =>
      QueueHead(l);
      AcceptedMove(l.conns, l.queue[0], l'.conns[l.queue[0]]);
    case DrainOne =>
      QueueHead(l);
      AcceptedMove(l.conns, l.queue[0], l'.conns[l.queue[0]]);
    case Count(c) => AcceptedMove(l.conns, c, l'.conns[c]);
    case CloseConn(c) => AcceptedMove(l.conns, c, l'.conns[c]);
    case Delete(c) => AcceptedMove(l.conns, c, l'.conns[c]);
    case _ =>
  }

  lemma StepKeepsInv(l: Listener, op: Op, l': Listener)
    requires Inv(l) && Step(l, op, l')
    ensures Inv(l')
  {
    StepKeepsTable(l, op, l');
    StepKeepsQueue(l, op, l');
    StepKeepsCount(l, op, l');
  }

  lemma NextKeepsInv()
    ensures Runs.Kept(Next, Inv)
  {
    hide Step, Inv;
    forall l: Listener, l': Listener | Inv(l) && Next(l, l')
      ensures Inv(l')
    {
      var op :| Step(l, op, l');
      StepKeepsInv(l, op, l');
    }
  }

  /** In every reachable state the table is exact, the queue holds the queued
      connections once each, and the count is never negative. */
  lemma RunKeepsInv(trace: seq<Listener>, i: nat)
    requires Run(trace) && i < |trace|
    ensures Inv(trace[i]) && trace[i].count >= 0
  {
    hide Step;
    NextKeepsInv();
    Runs.KeptAlong(Next, Inv, trace, 0, i);
  }

  lemma ReachesKeepsInv(l: Listener, l': Listener)
    requires Inv(l) && Reaches(l, l')
    ensures Inv(l')
  {
    hide Step, Inv;
    NextKeepsInv();
    Runs.KeptByReaching(Next, Inv, l, l');
  }

  // ---------------------------------------------- operations without interference

  function Enqueued(l: Listener, a: nat): Listener {
    l.(conns := l.conns + [Conn(a, Queued)], queue := l.queue + [|l.conns|], table := l.table[a := |l.conns|])
  }

  lemma EnqueueReaches(l: Listener, a: nat)
    requires l.lock == Free && a !in l.table && l.shutdown == Open && |l.queue| < BACKLOG
    ensures Reaches(l, Enqueued(l, a))
  {
    ReachesItself(l);
    hide Reaches;
    var m := l.(lock := Looking(a));
    ReachesMore(l, l, LookUp(a), m);
    ReachesMore(l, m, Enqueue, Enqueued(l, a));
  }

  predicate HasHead(l: Listener) {
    l.queue != [] && l.queue[0] < |l.conns|
  }

  function AcceptedHead(l: Listener): Listener
    requires HasHead(l)
  {
    Move(l, l.queue[0], Accepted).(queue := l.queue[1..], count := l.count + 1)
  }

  lemma AcceptReaches(l: Listener)
    requires HasHead(l)
    ensures Reaches(l, AcceptedHead(l))
  {
    ReachesItself(l);
    hide Reaches;
    var c := l.queue[0];
    var m := Move(l, c, Popped).(queue := l.queue[1..]);
    ReachesMore(l, l, Pop, m);
    assert Move(m, c, Accepted).(count := l.count + 1) == AcceptedHead(l);
    ReachesMore(l, m, Count(c), AcceptedHead(l));
  }

  function ConnClosed(l: Listener, c: nat): Listener
    requires c < |l.conns|
  {
    Discount(Move(l, c, Closed)).(table := l.table - {l.conns[c].addr})
  }

  lemma CloseConnReaches(l: Listener, c: nat)
    requires At(l, c, Accepted) && l.lock == Free
    ensures Reaches(l, ConnClosed(l, c))
  {
    ReachesItself(l);
    hide Reaches;
    var m := Discount(Move(l, c, Closing));
    ReachesMore(l, l, CloseConn(c), m);
    assert Move(m, c, Closed).(table := m.table - {m.conns[c].addr}) == ConnClosed(l, c);
    ReachesMore(l, m, Delete(c), ConnClosed(l, c));
  }

  /** A close, up to where the lock is held and the queue is being emptied. */
  function Refused(l: Listener): Listener {
    l.(shutdown := Emptying, lock := Draining)
  }

  lemma RefuseReaches(l0: Listener, l: Listener)
    requires Reaches(l0, l) && Inv(l) && l.shutdown == Open && l.lock == Free
    ensures Reaches(l0, Refused(l)) && Inv(Refused(l))
  {
    hide Reaches, Inv;
    var m := l.(shutdown := Refusing);
    ReachesMore(l0, l, Refuse, m);
    StepKeepsInv(l, Refuse, m);
    ReachesMore(l0, m, LockForDrain, Refused(l));
    StepKeepsInv(m, LockForDrain, Refused(l));
  }

  /** And from where the queue is empty to the end. */
  function Finished(l: Listener): Listener {
    Discount(l.(shutdown := Released, lock := Free))
  }

  lemma FinishReaches(l0: Listener, l: Listener)
    requires Reaches(l0, l) && Inv(l) && l.shutdown == Emptying && l.queue == []
    ensures Reaches(l0, Finished(l)) && Inv(Finished(l)) && l.count > 0 && !l.zero
  {
    assert l.count > 0 && !l.zero by {
      NoneAcceptedIff(l.conns);
    }
    hide Reaches, Inv;
    var m := l.(shutdown := Emptied, lock := Free);
    ReachesMore(l0, l, Unlock, m);
    StepKeepsInv(l, Unlock, m);
    ReachesMore(l0, m, Release, Finished(l));
    StepKeepsInv(m, Release, Finished(l));
  }

  // --------------------------------------------------------------- the table

  /** Two live connections never share a remote address. */
  lemma OnePerAddress(trace: seq<Listener>, i: nat, c: nat, d: nat)
    requires Run(trace) && i < |trace| && c < |trace[i].conns| && d < |trace[i].conns|
    requires Live(trace[i].conns[c].stage) && Live(trace[i].conns[d].stage)
    requires trace[i].conns[c].addr == trace[i].conns[d].addr
    ensures c == d
  {
    RunKeepsInv(trace, i);
  }

  /** Deleting by address deletes the closed connection's own entry: whatever
      else is live, a later connection for that address included, stays. */
  lemma ClosingRemovesOnlyItself(trace: seq<Listener>, i: nat, c: nat)
    requires Run(trace) && i + 1 < |trace| && Step(trace[i], Delete(c), trace[i + 1])
    ensures trace[i].conns[c].addr in trace[i].table && trace[i].table[trace[i].conns[c].addr] == c
    ensures forall d :: 0 <= d < |trace[i].conns| && d != c && Live(trace[i].conns[d].stage) ==>
              trace[i + 1].conns[d].addr in trace[i + 1].table && trace[i + 1].table[trace[i + 1].conns[d].addr] == d
  {
    RunKeepsInv(trace, i);
    RunKeepsInv(trace, i + 1);
  }

  // -------------------------------------------------------------- the socket

  ghost predicate AnyAt(l: Listener, stage: Stage) {
    exists c: nat :: At(l, c, stage)
  }

  /** When the count falls to zero the listener is closed, its queue is empty
      and no connection that Accept has counted is open. */
  lemma CountReachesZeroLast(trace: seq<Listener>, i: nat)
    requires Run(trace) && i + 1 < |trace| && !trace[i].zero && trace[i + 1].zero
    ensures trace[i + 1].shutdown == Released && trace[i + 1].queue == [] && !AnyAt(trace[i + 1], Accepted)
  {
    hide AcceptedCount;
    var l, l' := trace[i], trace[i + 1];
    RunKeepsInv(trace, i);
    RunKeepsInv(trace, i + 1);
    assert Runs.StepAt(Next, trace, i);
    var op :| Step(l, op, l');
    assert l'.count == 0;
    NoneAcceptedIff(l'.conns);
  }

  /** The socket is closed under a connection that is still open. */
  ghost predicate SocketLost(l: Listener) {
    !l.socketOpen && AnyAt(l, Accepted)
  }

  ghost predicate Settled(l: Listener) {
    Inv(l) && l.zero && !AnyAt(l, Accepted) && !AnyAt(l, Popped)
  }

  lemma StepKeepsSettled(l: Listener, op: Op, l': Listener)
    requires Settled(l) && Step(l, op, l')
    ensures Settled(l')
  {
    StepKeepsInv(l, op, l');
    forall c: nat | c < |l'.conns|
      ensures !At(l', c, Accepted) && !At(l', c, Popped)
    {
      assert !At(l, c, Accepted) && !At(l, c, Popped);
    }
  }

  lemma NextKeepsSettled()
    ensures Runs.Kept(Next, Settled)
  {
    hide Step, Settled;
    forall l: Listener, l': Listener | Settled(l) && Next(l, l')
      ensures Settled(l')
    {
      var op :| Step(l, op, l');
      StepKeepsSettled(l, op, l');
    }
  }

  /** What remains once the count has been zero: an Accept that had taken its
      connection out of the queue and not counted it yet. From the moment the
      count falls to zero, the socket can be closed under an open connection
      exactly when such an Accept is in flight then. */
  lemma SocketCanBeLostIff(l: Listener)
    requires Inv(l) && l.zero && !AnyAt(l, Accepted)
    ensures (exists l' :: Reaches(l, l') && SocketLost(l')) <==> AnyAt(l, Popped)
  {
    hide Inv, Step;
    if AnyAt(l, Popped) {
      var c: nat :| At(l, c, Popped);
      ReachesItself(l);
      LateCount(l, l, c);
    } else {
      NextKeepsSettled();
      forall l' | Reaches(l, l')
        ensures !SocketLost(l')
      {
        Runs.KeptByReaching(Next, Settled, l, l');
      }
    }
  }

  /** If no Accept is in flight when the count falls to zero, as when taking a
      connection and counting it are one step, the socket is closed only after
      the listener and every accepted connection are closed. */
  lemma SocketClosesLast(trace: seq<Listener>, i: nat)
    requires Run(trace) && i < |trace|
    requires forall j: nat :: j + 1 < |trace| && !trace[j].zero && trace[j + 1].zero ==> !AnyAt(trace[j + 1], Popped)
    ensures !trace[i].socketOpen ==> trace[i].shutdown == Released && !AnyAt(trace[i], Accepted)
  {
    hide Step, TableExact, QueueExact, AcceptedCount, Phases;
    RunKeepsInv(trace, i);
    ZeroMeansSettled(trace, i);
  }

  lemma {:induction false} ZeroMeansSettled(trace: seq<Listener>, i: nat)
    requires Run(trace) && i < |trace|
    requires forall j: nat :: j + 1 < |trace| && !trace[j].zero && trace[j + 1].zero ==> !AnyAt(trace[j + 1], Popped)
    ensures trace[i].zero ==> Settled(trace[i])
  {
    hide Step, Inv, AnyAt;
    if i > 0 && trace[i].zero {
      ZeroMeansSettled(trace, i - 1);
      if trace[i - 1].zero {
        assert Runs.StepAt(Next, trace, i - 1);
        var op :| Step(trace[i - 1], op, trace[i]);
        StepKeepsSettled(trace[i - 1], op, trace[i]);
      } else {
        RunKeepsInv(trace, i);
        CountReachesZeroLast(trace, i - 1);
      }
    }
  }

  lemma LateCount(l0: Listener, l: Listener, c: nat)
    requires Reaches(l0, l) && l.zero && At(l, c, Popped)
    ensures exists l' :: Reaches(l0, l') && SocketLost(l')
  {
    hide Reaches;
    var m := Move(l, c, Accepted).(count := l.count + 1);
    var n := m.(socketOpen := false);
    ReachesMore(l0, l, Count(c), m);
    ReachesMore(l0, m, CloseSocket, n);
    assert At(n, c, Accepted);
  }

  /** Close can run from end to end while nothing is queued. */
  lemma CloseRuns(l0: Listener, l: Listener)
    requires Reaches(l0, l) && l.shutdown == Open && l.lock == Free && l.queue == []
    ensures Reaches(l0, Discount(l.(shutdown := Released)))
  {
    hide Reaches;
    var l1 := l.(shutdown := Refusing);
    var l2 := l1.(shutdown := Emptying, lock := Draining);
    var l3 := l2.(shutdown := Emptied, lock := Free);
    ReachesMore(l0, l, Refuse, l1);
    ReachesMore(l0, l1, LockForDrain, l2);
    ReachesMore(l0, l2, Unlock, l3);
    ReachesMore(l0, l3, Release, Discount(l3.(shutdown := Released)));
  }

  /** Such an interleaving exists: Accept takes a connection, Close runs to its
      end, the count reaches zero, and only then does Accept count. */
  lemma LateAcceptIsReachable()
    ensures exists l :: Reaches(FRESH_LISTENER, l) && SocketLost(l)
  {
    hide Reaches, SocketLost;
    var l0 := FRESH_LISTENER;
    var l1 := l0.(lock := Looking(7));
    var l2 := l1.(conns := [Conn(7, Queued)], queue := [0], table := map[7 := 0], lock := Free);
    var l3 := l2.(conns := [Conn(7, Popped)], queue := []);
    ReachesItself(l0);
    ReachesMore(l0, l0, LookUp(7), l1);
    ReachesMore(l0, l1, Enqueue, l2);
    ReachesMore(l0, l2, Pop, l3);
    CloseRuns(l0, l3);
    LateCount(l0, Discount(l3.(shutdown := Released)), 0);
  }
}
