/** The admission gate with every atomic update as a step of its own. Admission
    runs under a mutex; handlers update the counters without it. */
module GateSystem {
  import Runs

  datatype Config = Config(
    maxSessions: int,
    maxHandshakes: int,
    maxGoroutines: int,
    minFreeFDs: int,
    canary: bool,
    canaryMaxSessions: int)

  function EffectiveMaxSessions(c: Config): int {
    if c.canary && c.canaryMaxSessions > 0 && (c.maxSessions <= 0 || c.canaryMaxSessions < c.maxSessions)
    then c.canaryMaxSessions else c.maxSessions
  }

  predicate Reached(limit: int, n: int) {
    limit > 0 && n >= limit
  }

  /** The effective limit is reached exactly when the configured limit or, on a
      canary, the canary limit is; a limit of zero or less is no limit. */
  lemma EffectiveLimitIsTighter(c: Config, n: int)
    ensures Reached(EffectiveMaxSessions(c), n) <==>
            Reached(c.maxSessions, n) || (c.canary && Reached(c.canaryMaxSessions, n))
  {
  }

  /** Where the holder of the mutex is in an admission. */
  datatype Admission = Free | CheckedSessions | CheckedHandshakes | AddedWait | AddedActive

  /** How far markEstablished has come on a lease, and how far done; done reads
      the flag first and remembers what it read. */
  datatype Mark = Unmarked | FlagSet | HandshakeDone | Marked

  datatype Done =
    | NotStarted
    | Read(flag: bool)
    | CounterDone(flag: bool)
    | ActiveDone(flag: bool)
    | Finished(flag: bool)

  datatype Lease = Lease(mark: Mark, done: Done)

  const NEW_LEASE := Lease(Unmarked, NotStarted)

  datatype Gate = Gate(
    draining: bool,
    mu: Admission,
    wait: int,
    active: int,
    established: int,
    handshakes: int,
    leases: seq<Lease>,
    waited: bool)

  const FRESH_GATE := Gate(false, Free, 0, 0, 0, 0, [], false)

  datatype Op =
    | CheckSessions
    | CheckHandshakes
    | Reject
    | AddWait
    | AddActive
    | AddHandshake
    | MarkFlag(l: nat)
    | MarkHandshakes(l: nat)
    | MarkEstablished(l: nat)
    | DoneEnter(l: nat)
    | DoneDecrement(l: nat)
    | DoneDecrementActive(l: nat)
    | DoneWait(l: nat)
    | BeginDrain
    | WaitReturns

  predicate Is(g: Gate, l: nat) {
    l < |g.leases|
  }

  function ToMark(g: Gate, l: nat, m: Mark): Gate
    requires Is(g, l)
  {
    g.(leases := g.leases[l := g.leases[l].(mark := m)])
  }

  function ToDone(g: Gate, l: nat, d: Done): Gate
    requires Is(g, l)
  {
    g.(leases := g.leases[l := g.leases[l].(done := d)])
  }

  /** Nothing in the gate orders the two calls on a lease: markEstablished and
      done may start, and interleave, in any order. */
  predicate Step(c: Config, g: Gate, op: Op, g': Gate) {
    match op
    case CheckSessions =>
      && g.mu == Free && !g.draining && !Reached(EffectiveMaxSessions(c), g.active)
      && g' == g.(mu := CheckedSessions)
    case CheckHandshakes =>
      && g.mu == CheckedSessions && !Reached(c.maxHandshakes, g.handshakes)
      && g' == g.(mu := CheckedHandshakes)
    case Reject =>
      && (g.mu == CheckedSessions || g.mu == CheckedHandshakes)
      && g' == g.(mu := Free)
    case AddWait =>
      g.mu == CheckedHandshakes && g' == g.(mu := AddedWait, wait := g.wait + 1)
    case AddActive =>
      g.mu == AddedWait && g' == g.(mu := AddedActive, active := g.active + 1)
    case AddHandshake =>
      g.mu == AddedActive && g' == g.(mu := Free, handshakes := g.handshakes + 1, leases := g.leases + [NEW_LEASE])
    case MarkFlag(l) =>
      Is(g, l) && g.leases[l].mark == Unmarked && g' == ToMark(g, l, FlagSet)
    case MarkHandshakes(l) =>
      && Is(g, l) && g.leases[l].mark == FlagSet
      && g' == ToMark(g, l, HandshakeDone).(handshakes := g.handshakes - 1)
    case MarkEstablished(l) =>
      && Is(g, l) && g.leases[l].mark == HandshakeDone
      && g' == ToMark(g, l, Marked).(established := g.established + 1)
    case DoneEnter(l) =>
      && Is(g, l) && g.leases[l].done == NotStarted
      && g' == ToDone(g, l, Read(g.leases[l].mark != Unmarked))
    case DoneDecrement(l) =>
      && Is(g, l) && g.leases[l].done.Read?
      && var flag := g.leases[l].done.flag;
         g' == if flag then ToDone(g, l, CounterDone(flag)).(established := g.established - 1)
               else ToDone(g, l, CounterDone(flag)).(handshakes := g.handshakes - 1)
    case DoneDecrementActive(l) =>
      && Is(g, l) && g.leases[l].done.CounterDone?
      && g' == ToDone(g, l, ActiveDone(g.leases[l].done.flag)).(active := g.active - 1)
    case DoneWait(l) =>
      && Is(g, l) && g.leases[l].done.ActiveDone?
      && g' == ToDone(g, l, Finished(g.leases[l].done.flag)).(wait := g.wait - 1)
    case BeginDrain =>
      g.mu == Free && g' == g.(draining := true)
    case WaitReturns =>
      g.wait == 0 && g' == g.(waited := g.waited || g.draining)
  }

  // ------------------------------------------------------------- accounting

  datatype Counter = WaitCount | ActiveCount | EstablishedCount | HandshakeCount

  predicate Counted(d: Done) {
    d.CounterDone? || d.ActiveDone? || d.Finished?
  }

  /** What a lease contributes to a counter; it may be negative. */
  function Share(k: Counter, x: Lease): int {
    match k
    case WaitCount => if x.done.Finished? then 0 else 1
    case ActiveCount => if x.done.ActiveDone? || x.done.Finished? then 0 else 1
    case EstablishedCount =>
      (if x.mark == Marked then 1 else 0) - (if Counted(x.done) && x.done.flag then 1 else 0)
    case HandshakeCount =>
      1 - (if x.mark == HandshakeDone || x.mark == Marked then 1 else 0)
        - (if Counted(x.done) && !x.done.flag then 1 else 0)
  }

  function Total(k: Counter, leases: seq<Lease>): int {
    if leases == [] then 0 else Total(k, leases[..|leases| - 1]) + Share(k, leases[|leases| - 1])
  }

  lemma {:induction false} TotalMove(k: Counter, leases: seq<Lease>, l: nat, x: Lease)
    requires l < |leases|
    ensures Total(k, leases[l := x]) + Share(k, leases[l]) == Total(k, leases) + Share(k, x)
  {
    hide Share;
    var n := |leases| - 1;
    if l < n {
      assert leases[l := x][..n] == leases[..n][l := x];
      TotalMove(k, leases[..n], l, x);
    } else {
      assert leases[l := x][..n] == leases[..n];
    }
  }

  lemma TotalSnoc(k: Counter, leases: seq<Lease>, x: Lease)
    ensures Total(k, leases + [x]) == Total(k, leases) + Share(k, x)
  {
    assert (leases + [x])[..|leases|] == leases;
  }

  lemma {:induction false} SharesOrdered(leases: seq<Lease>)
    ensures 0 <= Total(ActiveCount, leases) <= Total(WaitCount, leases)
    ensures Total(HandshakeCount, leases) + Total(EstablishedCount, leases) <= Total(ActiveCount, leases)
  {
    if leases != [] {
      SharesOrdered(leases[..|leases| - 1]);
    }
  }

  /** A flag that done read as set was set. */
  predicate Sound(x: Lease) {
    x.done != NotStarted && x.done.flag ==> x.mark != Unmarked
  }

  /** The counters are the sums of the shares. */
  ghost predicate Sums(g: Gate) {
    && g.wait == Total(WaitCount, g.leases) + (if g.mu == AddedWait || g.mu == AddedActive then 1 else 0)
    && g.active == Total(ActiveCount, g.leases) + (if g.mu == AddedActive then 1 else 0)
    && g.established == Total(EstablishedCount, g.leases)
    && g.handshakes == Total(HandshakeCount, g.leases)
    && (forall l :: 0 <= l < |g.leases| ==> Sound(g.leases[l]))
  }

  ghost predicate Inv(c: Config, g: Gate) {
    && Sums(g)
    && (g.draining ==> g.mu == Free)
    && (g.waited ==> g.draining && g.wait == 0)
    && Within(EffectiveMaxSessions(c), g.active,
              g.mu == CheckedSessions || g.mu == CheckedHandshakes || g.mu == AddedWait)
    && Within(c.maxHandshakes, g.handshakes, g.mu == CheckedHandshakes || g.mu == AddedWait || g.mu == AddedActive)
  }

  /** The limit holds, with room for one more while an admission is under way. */
  predicate Within(limit: int, n: int, reserved: bool) {
    limit > 0 ==> n <= limit && (reserved ==> n < limit)
  }

  predicate Marks(op: Op) {
    op.MarkFlag? || op.MarkHandshakes? || op.MarkEstablished?
  }

  predicate GivesBack(op: Op) {
    op.DoneEnter? || op.DoneDecrement? || op.DoneDecrementActive? || op.DoneWait?
  }

  /** One lease changes; each counter changes with its share. */
  lemma MoveKeepsSums(g: Gate, l: nat, x: Lease, g': Gate)
    requires Sums(g) && Is(g, l) && Sound(x) && g'.leases == g.leases[l := x] && g'.mu == g.mu
    requires g'.wait - g.wait == Share(WaitCount, x) - Share(WaitCount, g.leases[l])
    requires g'.active - g.active == Share(ActiveCount, x) - Share(ActiveCount, g.leases[l])
    requires g'.established - g.established == Share(EstablishedCount, x) - Share(EstablishedCount, g.leases[l])
    requires g'.handshakes - g.handshakes == Share(HandshakeCount, x) - Share(HandshakeCount, g.leases[l])
    ensures Sums(g')
  {
    hide Total, Share, Sound;
    TotalMove(WaitCount, g.leases, l, x);
    TotalMove(ActiveCount, g.leases, l, x);
    TotalMove(EstablishedCount, g.leases, l, x);
    TotalMove(HandshakeCount, g.leases, l, x);
  }

  lemma HandlerKeepsInv(c: Config, g: Gate, op: Op, g': Gate)
    requires Inv(c, g) && Step(c, g, op, g') && (Marks(op) || GivesBack(op))
    ensures Inv(c, g')
  {
    hide Sums, EffectiveMaxSessions;
    if Marks(op) {
      MarkKeepsSums(c, g, op, g');
    } else {
      GiveBackKeepsSums(c, g, op, g');
    }
    WaitNotNegative(g');
  }

  lemma SoundAt(g: Gate, l: nat)
    requires Sums(g) && Is(g, l)
    ensures Sound(g.leases[l])
  {
    hide Total;
  }

  lemma MarkKeepsSums(c: Config, g: Gate, op: Op, g': Gate)
    requires Sums(g) && Step(c, g, op, g') && Marks(op)
    ensures Sums(g')
  {
    hide Sums, EffectiveMaxSessions;
    SoundAt(g, op.l);
    MoveKeepsSums(g, op.l, g'.leases[op.l], g');
  }

  lemma GiveBackKeepsSums(c: Config, g: Gate, op: Op, g': Gate)
    requires Sums(g) && Step(c, g, op, g') && GivesBack(op)
    ensures Sums(g')
  {
    hide Sums, EffectiveMaxSessions;
    SoundAt(g, op.l);
    MoveKeepsSums(g, op.l, g'.leases[op.l], g');
  }

  lemma WaitNotNegative(g: Gate)
    requires Sums(g)
    ensures 0 <= g.wait
  {
    SharesOrdered(g.leases);
  }

  lemma AddHandshakeKeepsSums(c: Config, g: Gate, op: Op, g': Gate)
    requires Sums(g) && Step(c, g, op, g') && op.AddHandshake?
    ensures Sums(g')
  {
    hide Total, EffectiveMaxSessions;
    TotalSnoc(WaitCount, g.leases, NEW_LEASE);
    TotalSnoc(ActiveCount, g.leases, NEW_LEASE);
    TotalSnoc(EstablishedCount, g.leases, NEW_LEASE);
    TotalSnoc(HandshakeCount, g.leases, NEW_LEASE);
  }

  lemma StepKeepsInv(c: Config, g: Gate, op: Op, g': Gate)
    requires Inv(c, g) && Step(c, g, op, g')
    ensures Inv(c, g')
  {
    hide Total, EffectiveMaxSessions;
    if Marks(op) || GivesBack(op) {
      HandlerKeepsInv(c, g, op, g');
    } else if op.AddHandshake? {
      AddHandshakeKeepsSums(c, g, op, g');
    }
  }

  // ------------------------------------------------------------------- runs

  ghost predicate Next(c: Config, g: Gate, g': Gate) {
    exists op :: Step(c, g, op, g')
  }

  ghost function Moves(c: Config): (Gate, Gate) -> bool {
    (g, g') => Next(c, g, g')
  }

  ghost function Invariant(c: Config): Gate -> bool {
    g => Inv(c, g)
  }

  ghost predicate Run(c: Config, trace: seq<Gate>) {
    Runs.Steps(Moves(c), trace) && trace[0] == FRESH_GATE
  }

  lemma NextKeepsInv(c: Config)
    ensures Runs.Kept(Moves(c), Invariant(c))
  {
    hide Step, Inv;
    forall g: Gate, g': Gate | Inv(c, g) && Next(c, g, g')
      ensures Inv(c, g')
    {
      var op :| Step(c, g, op, g');
      StepKeepsInv(c, g, op, g');
    }
  }

  lemma RunKeepsInv(c: Config, trace: seq<Gate>, i: nat)
    requires Run(c, trace) && i < |trace|
    ensures Inv(c, trace[i])
  {
    assert Invariant(c)(FRESH_GATE);
    hide Step;
    NextKeepsInv(c);
    Runs.KeptAlong(Moves(c), Invariant(c), trace, 0, i);
  }

  /** In every run, whatever the order of the calls: the limits hold, and no
      more sessions are counted in either state than are active. */
  lemma LimitsHold(c: Config, trace: seq<Gate>, i: nat)
    requires Run(c, trace) && i < |trace|
    ensures
      var g := trace[i];
      && 0 <= g.active <= g.wait && g.handshakes + g.established <= g.active
      && (EffectiveMaxSessions(c) > 0 ==> g.active <= EffectiveMaxSessions(c))
      && (c.maxHandshakes > 0 ==> g.handshakes <= c.maxHandshakes)
  {
    RunKeepsInv(c, trace, i);
    SharesOrdered(trace[i].leases);
  }

  // -------------------------------------------------- when the counters drift

  /** Done found the flag clear, and the lease was marked after all. */
  predicate Misread(x: Lease) {
    x.done != NotStarted && !x.done.flag && x.mark != Unmarked
  }

  /** No call is under way on the lease. */
  predicate Settled(x: Lease) {
    (x.mark == Unmarked || x.mark == Marked) && (x.done == NotStarted || x.done.Finished?)
  }

  predicate AtRest(g: Gate) {
    g.mu == Free && forall l :: 0 <= l < |g.leases| ==> Settled(g.leases[l])
  }

  datatype Kind = LiveUnmarked | LiveMarked | MisreadKind

  predicate OfKind(k: Kind, x: Lease) {
    match k
    case LiveUnmarked => x.done == NotStarted && x.mark == Unmarked
    case LiveMarked => x.done == NotStarted && x.mark == Marked
    case MisreadKind => Misread(x)
  }

  function HowMany(k: Kind, leases: seq<Lease>): nat {
    if leases == [] then 0
    else HowMany(k, leases[..|leases| - 1]) + if OfKind(k, leases[|leases| - 1]) then 1 else 0
  }

  lemma {:induction false} SettledShares(leases: seq<Lease>)
    requires forall l :: 0 <= l < |leases| ==> Settled(leases[l]) && Sound(leases[l])
    ensures Total(HandshakeCount, leases) == HowMany(LiveUnmarked, leases) - HowMany(MisreadKind, leases)
    ensures Total(EstablishedCount, leases) == HowMany(LiveMarked, leases) + HowMany(MisreadKind, leases)
    ensures Total(ActiveCount, leases) == Total(WaitCount, leases)
            == HowMany(LiveUnmarked, leases) + HowMany(LiveMarked, leases)
  {
    if leases != [] {
      SettledShares(leases[..|leases| - 1]);
    }
  }

  /** With no call under way, each counter is off by exactly the number of
      leases misread: too few handshakes and too many established sessions. */
  lemma DriftIsTheMisread(c: Config, trace: seq<Gate>, i: nat)
    requires Run(c, trace) && i < |trace| && AtRest(trace[i])
    ensures
      var g := trace[i];
      var off := HowMany(MisreadKind, g.leases);
      && g.active == g.wait == HowMany(LiveUnmarked, g.leases) + HowMany(LiveMarked, g.leases)
      && g.handshakes == HowMany(LiveUnmarked, g.leases) - off
      && g.established == HowMany(LiveMarked, g.leases) + off
  {
    RunKeepsInv(c, trace, i);
    SettledShares(trace[i].leases);
  }

  /** A step makes a lease misread exactly when it marks a lease whose done has
      already read the flag; and a misread lease stays one. */
  lemma MisreadExactly(c: Config, g: Gate, op: Op, g': Gate, l: nat)
    requires Inv(c, g) && Step(c, g, op, g') && Is(g, l)
    ensures Is(g', l)
    ensures Misread(g'.leases[l]) <==>
            Misread(g.leases[l]) || (op == MarkFlag(l) && g.leases[l].done != NotStarted)
  {
    hide Total, EffectiveMaxSessions;
    assert Sound(g.leases[l]);
  }

  lemma {:induction false} MisreadForGood(c: Config, trace: seq<Gate>, i: nat, j: nat, l: nat)
    requires Run(c, trace) && i <= j < |trace| && Is(trace[i], l) && Misread(trace[i].leases[l])
    ensures Is(trace[j], l) && Misread(trace[j].leases[l])
    decreases j
  {
    hide Inv, Step, Misread;
    if i < j {
      MisreadForGood(c, trace, i, j - 1, l);
      assert Runs.StepAt(Moves(c), trace, j - 1);
      var op :| Step(c, trace[j - 1], op, trace[j]);
      RunKeepsInv(c, trace, j - 1);
      MisreadExactly(c, trace[j - 1], op, trace[j], l);
    }
  }

  // ------------------------------------------------------------- in order

  /** As in the accept loop, where one goroutine makes both calls: a lease is
      marked, if at all, wholly before it is given back. */
  predicate InTurn(g: Gate, op: Op) {
    && (op.MarkFlag? && Is(g, op.l) ==> g.leases[op.l].done == NotStarted)
    && (op.DoneEnter? && Is(g, op.l) ==> g.leases[op.l].mark == Unmarked || g.leases[op.l].mark == Marked)
  }

  ghost predicate NextInTurn(c: Config, g: Gate, g': Gate) {
    exists op :: Step(c, g, op, g') && InTurn(g, op)
  }

  ghost function MovesInTurn(c: Config): (Gate, Gate) -> bool {
    (g, g') => NextInTurn(c, g, g')
  }

  ghost predicate OrderlyRun(c: Config, trace: seq<Gate>) {
    Runs.Steps(MovesInTurn(c), trace) && trace[0] == FRESH_GATE
  }

  predicate Orderly(x: Lease) {
    x.done != NotStarted ==> x.mark == if x.done.flag then Marked else Unmarked
  }

  lemma OrderlyIsRun(c: Config, trace: seq<Gate>)
    requires OrderlyRun(c, trace)
    ensures Run(c, trace)
  {
    forall i: nat | i + 1 < |trace|
      ensures Runs.StepAt(Moves(c), trace, i)
    {
      assert Runs.StepAt(MovesInTurn(c), trace, i);
    }
  }

  lemma StepStaysOrderly(c: Config, g: Gate, op: Op, g': Gate)
    requires Step(c, g, op, g') && InTurn(g, op) && forall l :: 0 <= l < |g.leases| ==> Orderly(g.leases[l])
    ensures forall l :: 0 <= l < |g'.leases| ==> Orderly(g'.leases[l])
  {
    hide EffectiveMaxSessions;
  }

  lemma {:induction false} RunStaysOrderly(c: Config, trace: seq<Gate>, i: nat)
    requires OrderlyRun(c, trace) && i < |trace|
    ensures forall l :: 0 <= l < |trace[i].leases| ==> Orderly(trace[i].leases[l])
  {
    hide Step, InTurn, Orderly;
    if i == 0 {
      assert trace[0].leases == [];
    } else {
      RunStaysOrderly(c, trace, i - 1);
      assert Runs.StepAt(MovesInTurn(c), trace, i - 1);
      var op :| Step(c, trace[i - 1], op, trace[i]) && InTurn(trace[i - 1], op);
      StepStaysOrderly(c, trace[i - 1], op, trace[i]);
    }
  }

  /** Done has lowered a counter that marking has not raised, or that marking
      has lowered too. */
  predicate Overtaken(x: Lease) {
    Counted(x.done) && if x.done.flag then x.mark != Marked else x.mark == HandshakeDone || x.mark == Marked
  }

  lemma {:induction false} SharesNotNegative(leases: seq<Lease>)
    requires forall l :: 0 <= l < |leases| ==> !Overtaken(leases[l])
    ensures 0 <= Total(HandshakeCount, leases) && 0 <= Total(EstablishedCount, leases)
  {
    if leases != [] {
      SharesNotNegative(leases[..|leases| - 1]);
    }
  }

  /** In every run, a counter is negative only while some lease is overtaken. */
  lemma NegativeOnlyIfOvertaken(c: Config, trace: seq<Gate>, i: nat)
    requires Run(c, trace) && i < |trace| && (trace[i].handshakes < 0 || trace[i].established < 0)
    ensures exists l :: 0 <= l < |trace[i].leases| && Overtaken(trace[i].leases[l])
  {
    RunKeepsInv(c, trace, i);
    if forall l :: 0 <= l < |trace[i].leases| ==> !Overtaken(trace[i].leases[l]) {
      SharesNotNegative(trace[i].leases);
    }
  }

  /** At every point between two atomic updates of an orderly run no counter is
      negative and no lease misread. */
  lemma CountersOrdered(c: Config, trace: seq<Gate>, i: nat)
    requires OrderlyRun(c, trace) && i < |trace|
    ensures
      var g := trace[i];
      && 0 <= g.handshakes && 0 <= g.established && g.handshakes + g.established <= g.active <= g.wait
      && forall l :: 0 <= l < |g.leases| ==> !Misread(g.leases[l])
  {
    OrderlyIsRun(c, trace);
    LimitsHold(c, trace, i);
    RunStaysOrderly(c, trace, i);
    SharesNotNegative(trace[i].leases);
    RunKeepsInv(c, trace, i);
  }

  // ------------------------------------------------------------------ drain

  lemma {:induction false} WaitedStays(c: Config, trace: seq<Gate>, i: nat, j: nat)
    requires Run(c, trace) && i <= j < |trace| && trace[i].waited
    ensures trace[j].waited
    decreases j
  {
    if i < j {
      WaitedStays(c, trace, i, j - 1);
      assert Runs.StepAt(Moves(c), trace, j - 1);
    }
  }

  /** After drain began and a wait returned, nothing is active ever again, and
      in an orderly run all counters stay zero. */
  lemma DrainedForGood(c: Config, trace: seq<Gate>, i: nat, j: nat)
    requires Run(c, trace) && i <= j < |trace| && trace[i].waited
    ensures trace[j].wait == 0 && trace[j].active == 0
    ensures OrderlyRun(c, trace) ==> trace[j].established == 0 && trace[j].handshakes == 0
  {
    WaitedStays(c, trace, i, j);
    RunKeepsInv(c, trace, j);
    SharesOrdered(trace[j].leases);
    if OrderlyRun(c, trace) {
      CountersOrdered(c, trace, j);
    }
  }

  lemma {:induction false} NoneLive(leases: seq<Lease>)
    requires forall l :: 0 <= l < |leases| ==> leases[l].done.Finished?
    ensures HowMany(LiveUnmarked, leases) == 0 && HowMany(LiveMarked, leases) == 0
  {
    if leases != [] {
      NoneLive(leases[..|leases| - 1]);
    }
  }

  /** When the last call has ended after a drain, the counters are back at zero
      if and only if no lease was misread. */
  lemma ZeroAfterDrainIff(c: Config, trace: seq<Gate>, i: nat)
    requires Run(c, trace) && i < |trace| && trace[i].waited && AtRest(trace[i])
    ensures trace[i].established == 0 && trace[i].handshakes == 0 <==>
            forall l :: 0 <= l < |trace[i].leases| ==> !Misread(trace[i].leases[l])
  {
    DriftIsTheMisread(c, trace, i);
    DrainedForGood(c, trace, i, i);
    NoneMisreadIff(trace[i].leases);
  }

  lemma {:induction false} NoneMisreadIff(leases: seq<Lease>)
    ensures HowMany(MisreadKind, leases) == 0 <==> forall l :: 0 <= l < |leases| ==> !Misread(leases[l])
  {
    if leases != [] {
      var n := |leases| - 1;
      NoneMisreadIff(leases[..n]);
      assert forall l :: 0 <= l < n ==> leases[..n][l] == leases[l];
    }
  }

  /** `g'` is reached from `g` by some steps. */
  ghost predicate Reaches(c: Config, g: Gate, g': Gate) {
    Runs.Reaches(Moves(c), g, g')
  }

  lemma ReachesSelf(c: Config, g: Gate)
    ensures Reaches(c, g, g)
  {
    Runs.Self(Moves(c), g);
  }

  lemma ReachesStep(c: Config, g: Gate, m: Gate, op: Op, g': Gate)
    requires Reaches(c, g, m) && Step(c, m, op, g')
    ensures Reaches(c, g, g')
  {
    hide Step;
    assert Next(c, m, g');
    Runs.Step(Moves(c), g, m, g');
  }

  lemma ReachesFrom(c: Config, g: Gate, m: Gate, g': Gate)
    requires Reaches(c, g, m) && Reaches(c, m, g')
    ensures Reaches(c, g, g')
  {
    Runs.From(Moves(c), g, m, g');
  }

  lemma ReachesKeepsInv(c: Config, g: Gate, g': Gate)
    requires Inv(c, g) && Reaches(c, g, g')
    ensures Inv(c, g')
  {
    hide Step, Inv;
    NextKeepsInv(c);
    assert Invariant(c)(g);
    Runs.KeptByReaching(Moves(c), Invariant(c), g, g');
  }

  /** The whole of an admission, run without interference. */
  function Admitted(g: Gate): Gate {
    g.(wait := g.wait + 1, active := g.active + 1, handshakes := g.handshakes + 1, leases := g.leases + [NEW_LEASE])
  }

  lemma AdmissionReaches(c: Config, g: Gate)
    requires g.mu == Free && !g.draining
    requires !Reached(EffectiveMaxSessions(c), g.active) && !Reached(c.maxHandshakes, g.handshakes)
    ensures Reaches(c, g, Admitted(g))
  {
    hide Reaches, EffectiveMaxSessions;
    ReachesSelf(c, g);
    var a := g.(mu := CheckedSessions);
    ReachesStep(c, g, g, CheckSessions, a);
    var b := a.(mu := CheckedHandshakes);
    ReachesStep(c, g, a, CheckHandshakes, b);
    var d := b.(mu := AddedWait, wait := g.wait + 1);
    ReachesStep(c, g, b, AddWait, d);
    var e := d.(mu := AddedActive, active := g.active + 1);
    ReachesStep(c, g, d, AddActive, e);
    ReachesStep(c, g, e, AddHandshake, Admitted(g));
  }

  function MarkedEstablished(g: Gate, l: nat): Gate
    requires Is(g, l)
  {
    ToMark(g, l, Marked).(handshakes := g.handshakes - 1, established := g.established + 1)
  }

  lemma MarkReaches(c: Config, g: Gate, l: nat)
    requires Is(g, l) && g.leases[l].mark == Unmarked
    ensures Reaches(c, g, MarkedEstablished(g, l))
  {
    hide Reaches, EffectiveMaxSessions;
    ReachesSelf(c, g);
    var a := ToMark(g, l, FlagSet);
    ReachesStep(c, g, g, MarkFlag(l), a);
    var b := ToMark(a, l, HandshakeDone).(handshakes := g.handshakes - 1);
    ReachesStep(c, g, a, MarkHandshakes(l), b);
    assert ToMark(b, l, Marked).(established := g.established + 1) == MarkedEstablished(g, l);
    ReachesStep(c, g, b, Op.MarkEstablished(l), MarkedEstablished(g, l));
  }

  function Released(g: Gate, l: nat): Gate
    requires Is(g, l)
  {
    var flag := g.leases[l].mark != Unmarked;
    var h := ToDone(g, l, Finished(flag)).(wait := g.wait - 1, active := g.active - 1);
    if flag then h.(established := g.established - 1) else h.(handshakes := g.handshakes - 1)
  }

  lemma DoneReaches(c: Config, g: Gate, l: nat)
    requires Is(g, l) && g.leases[l].done == NotStarted
    ensures Reaches(c, g, Released(g, l))
  {
    hide Reaches, EffectiveMaxSessions;
    ReachesSelf(c, g);
    var flag := g.leases[l].mark != Unmarked;
    var a := ToDone(g, l, Read(flag));
    ReachesStep(c, g, g, DoneEnter(l), a);
    var b := if flag then ToDone(a, l, CounterDone(flag)).(established := g.established - 1)
             else ToDone(a, l, CounterDone(flag)).(handshakes := g.handshakes - 1);
    ReachesStep(c, g, a, DoneDecrement(l), b);
    assert ToDone(b, l, Finished(flag)).(active := b.active - 1, wait := b.wait - 1) == Released(g, l);
    LeaveReaches(c, g, b, l);
  }

  /** The rest of done, once the counter for the session's state is lowered. */
  lemma LeaveReaches(c: Config, g: Gate, b: Gate, l: nat)
    requires Reaches(c, g, b) && Is(b, l) && b.leases[l].done.CounterDone?
    ensures
      var flag := b.leases[l].done.flag;
      Reaches(c, g, ToDone(b, l, Finished(flag)).(active := b.active - 1, wait := b.wait - 1))
  {
    hide Reaches, EffectiveMaxSessions;
    var flag := b.leases[l].done.flag;
    var d := ToDone(b, l, ActiveDone(flag)).(active := b.active - 1);
    ReachesStep(c, g, b, DoneDecrementActive(l), d);
    assert ToDone(d, l, Finished(flag)).(wait := b.wait - 1)
        == ToDone(b, l, Finished(flag)).(active := b.active - 1, wait := b.wait - 1);
    ReachesStep(c, g, d, DoneWait(l), ToDone(d, l, Finished(flag)).(wait := b.wait - 1));
  }

  /** Under every configuration a lease given back before it is marked leaves a
      drained gate, for good, with -1 handshakes and one established session. */
  lemma LateMarkDrifts(c: Config) returns (g: Gate)
    ensures Reaches(c, FRESH_GATE, g) && AtRest(g) && g.waited
    ensures g.wait == 0 && g.active == 0 && g.handshakes == -1 && g.established == 1
  {
    hide Reaches;
    AdmissionReaches(c, FRESH_GATE);
    var a := Admitted(FRESH_GATE);
    DoneReaches(c, a, 0);
    var b := Released(a, 0);
    MarkReaches(c, b, 0);
    var d := MarkedEstablished(b, 0);
    ReachesFrom(c, FRESH_GATE, a, b);
    ReachesFrom(c, FRESH_GATE, b, d);
    var e := d.(draining := true);
    ReachesStep(c, FRESH_GATE, d, BeginDrain, e);
    g := e.(waited := true);
    ReachesStep(c, FRESH_GATE, e, WaitReturns, g);
  }

  /** And one given back between the two halves of its marking makes a counter
      negative only until the marking is complete. */
  lemma EarlyDoneDips(c: Config) returns (low: Gate, g: Gate)
    ensures Reaches(c, FRESH_GATE, low) && low.established == -1
    ensures Reaches(c, FRESH_GATE, g) && Reaches(c, low, g) && AtRest(g) && |g.leases| == 1
    ensures g.wait == 0 && g.active == 0 && g.handshakes == 0 && g.established == 0
  {
    hide Reaches;
    AdmissionReaches(c, FRESH_GATE);
    var a := Admitted(FRESH_GATE);
    var b := ToMark(a, 0, FlagSet);
    var d := ToDone(b, 0, Read(true));
    low := ToDone(d, 0, CounterDone(true)).(established := -1);
    ReachesSelf(c, low);
    ReachesStep(c, FRESH_GATE, a, MarkFlag(0), b);
    ReachesStep(c, FRESH_GATE, b, DoneEnter(0), d);
    ReachesStep(c, FRESH_GATE, d, DoneDecrement(0), low);
    g := Recovered(c, low);
    ReachesFrom(c, FRESH_GATE, low, g);
  }

  lemma Recovered(c: Config, low: Gate) returns (g: Gate)
    requires low == Gate(false, Free, 1, 1, -1, 1, [Lease(FlagSet, CounterDone(true))], false)
    ensures Reaches(c, low, g) && g == Gate(false, Free, 0, 0, 0, 0, [Lease(Marked, Finished(true))], false)
  {
    hide Reaches, EffectiveMaxSessions;
    ReachesSelf(c, low);
    var a := ToMark(low, 0, HandshakeDone).(handshakes := 0);
    ReachesStep(c, low, low, MarkHandshakes(0), a);
    var b := ToMark(a, 0, Marked).(established := 0);
    ReachesStep(c, low, a, Op.MarkEstablished(0), b);
    var d := ToDone(b, 0, ActiveDone(true)).(active := 0);
    ReachesStep(c, low, b, DoneDecrementActive(0), d);
    g := ToDone(d, 0, Finished(true)).(wait := 0);
    ReachesStep(c, low, d, DoneWait(0), g);
  }
}
