/** The admission gate as the object the server uses. Each method is a run of
    GateSystem steps. */
module ConnectionGate {
  import opened GateSystem

  datatype Reason = Admissible | Drain | Sessions | Handshakes | Goroutines | FileDescriptors

  /** What the process reports of itself; a negative count is unknown. */
  datatype Resources = Resources(goroutines: int, monitored: bool, openFDs: int, maxFDs: int)

  function RejectionReason(c: Config, draining: bool, active: int, handshakes: int, r: Resources): Reason {
    if draining then Drain
    else if Reached(EffectiveMaxSessions(c), active) then Sessions
    else if Reached(c.maxHandshakes, handshakes) then Handshakes
    else if Reached(c.maxGoroutines, r.goroutines) then Goroutines
    else if FewFDs(c, r) then FileDescriptors
    else Admissible
  }

  predicate FewFDs(c: Config, r: Resources) {
    c.minFreeFDs > 0 && r.monitored && r.openFDs >= 0 && r.maxFDs > 0 && r.maxFDs - r.openFDs < c.minFreeFDs
  }

  /** Each reason is given exactly when it applies and none before it does, in
      this order: drain, sessions, handshakes, goroutines, file descriptors. */
  lemma FirstReasonIsGiven(c: Config, draining: bool, active: int, handshakes: int, r: Resources)
    ensures
      var reason := RejectionReason(c, draining, active, handshakes, r);
      var sessions := (c.maxSessions > 0 && active >= c.maxSessions)
                   || (c.canary && c.canaryMaxSessions > 0 && active >= c.canaryMaxSessions);
      var shaking := c.maxHandshakes > 0 && handshakes >= c.maxHandshakes;
      var running := c.maxGoroutines > 0 && r.goroutines >= c.maxGoroutines;
      var files := c.minFreeFDs > 0 && r.monitored && 0 <= r.openFDs && 0 < r.maxFDs < r.openFDs + c.minFreeFDs;
      && (reason == Drain <==> draining)
      && (reason == Sessions <==> !draining && sessions)
      && (reason == Handshakes <==> !draining && !sessions && shaking)
      && (reason == Goroutines <==> !draining && !sessions && !shaking && running)
      && (reason == FileDescriptors <==> !draining && !sessions && !shaking && !running && files)
      && (reason == Admissible <==> !draining && !sessions && !shaking && !running && !files)
  {
    EffectiveLimitIsTighter(c, active);
  }

  class Lease {
    ghost const index: nat
    var established: bool
    var finished: bool
    /** What done found. */
    ghost var flag: bool

    constructor (ghost index: nat)
      ensures this.index == index && View() == NEW_LEASE
    {
      this.index := index;
      established, finished, flag := false, false, false;
    }

    ghost function View(): GateSystem.Lease
      reads this
    {
      GateSystem.Lease(if established then Marked else Unmarked, if finished then Finished(flag) else NotStarted)
    }
  }

  class Gate {
    const config: Config
    var draining: bool
    var wait: int
    var active: int
    var established: int
    var handshakes: int
    ghost var leases: seq<Lease>

    constructor (config: Config)
      ensures Valid() && this.config == config && View() == FRESH_GATE && leases == []
    {
      this.config := config;
      draining, wait, active, established, handshakes, leases := false, 0, 0, 0, 0, [];
    }

    ghost function View(): GateSystem.Gate
      reads this, leases
    {
      GateSystem.Gate(draining, Free, wait, active, established, handshakes,
                      seq(|leases|, i requires 0 <= i < |leases| reads this, leases => leases[i].View()), false)
    }

    ghost predicate Valid()
      reads this, leases
    {
      && Inv(config, View())
      && forall i :: 0 <= i < |leases| ==> leases[i].index == i
    }

    ghost predicate Holds(l: Lease)
      reads this
    {
      l.index < |leases| && leases[l.index] == l
    }

    method Admit(r: Resources) returns (lease: Lease?, reason: Reason)
      requires Valid()
      modifies this
      ensures Valid() && Reaches(config, old(View()), View())
      ensures reason == RejectionReason(config, old(draining), old(active), old(handshakes), r)
      ensures lease == null <==> reason != Admissible
      ensures lease == null ==> View() == old(View()) && leases == old(leases)
      ensures lease != null ==> View() == Admitted(old(View())) && leases == old(leases) + [lease] && fresh(lease)
      ensures lease != null ==>
        && active == old(active) + 1 && handshakes == old(handshakes) + 1 && wait == old(wait) + 1
        && established == old(established) && draining == old(draining)
    {
      reason := RejectionReason(config, draining, active, handshakes, r);
      if reason != Admissible {
        ReachesSelf(config, View());
        return null, reason;
      }
      ghost var before := View();
      AdmissionReaches(config, before);
      ReachesKeepsInv(config, before, Admitted(before));
      wait := wait + 1;
      active := active + 1;
      handshakes := handshakes + 1;
      var l := new Lease(|leases|);
      leases := leases + [l];
      lease := l;
      assert View() == Admitted(before);
    }

    /** Counts the session as established, once, and even when its lease was
        given back before. */
    method MarkEstablished(l: Lease)
      requires Valid() && Holds(l)
      modifies this`established, this`handshakes, l`established
      ensures Valid() && Reaches(config, old(View()), View()) && l.established
      ensures View() == if old(l.established) then old(View()) else MarkedEstablished(old(View()), l.index)
      ensures !old(l.established) ==> established == old(established) + 1 && handshakes == old(handshakes) - 1
    {
      ghost var before := View();
      ReachesSelf(config, before);
      if l.established {
        return;
      }
      MarkReaches(config, before, l.index);
      ReachesKeepsInv(config, before, MarkedEstablished(before, l.index));
      l.established := true;
      handshakes := handshakes - 1;
      established := established + 1;
      assert View() == MarkedEstablished(before, l.index);
    }

    /** Gives the lease back, once. */
    method Done(l: Lease)
      requires Valid() && Holds(l)
      modifies this`established, this`handshakes, this`active, this`wait, l`finished, l`flag
      ensures Valid() && Reaches(config, old(View()), View()) && l.finished
      ensures View() == if old(l.finished) then old(View()) else Released(old(View()), l.index)
      ensures !old(l.finished) ==>
        && active == old(active) - 1 && wait == old(wait) - 1
        && established == old(established) - (if l.established then 1 else 0)
        && handshakes == old(handshakes) - (if l.established then 0 else 1)
    {
      ghost var before := View();
      ReachesSelf(config, before);
      if l.finished {
        return;
      }
      DoneReaches(config, before, l.index);
      ReachesKeepsInv(config, before, Released(before, l.index));
      l.finished, l.flag := true, l.established;
      if l.established {
        established := established - 1;
      } else {
        handshakes := handshakes - 1;
      }
      active := active - 1;
      wait := wait - 1;
      assert View() == Released(before, l.index);
    }

    method BeginDrain() returns (sessions: int)
      requires Valid()
      modifies this`draining
      ensures Valid() && Reaches(config, old(View()), View())
      ensures View() == old(View()).(draining := true) && sessions == active
    {
      ghost var before := View();
      ReachesSelf(config, before);
      ReachesStep(config, before, before, GateSystem.BeginDrain, before.(draining := true));
      ReachesKeepsInv(config, before, before.(draining := true));
      draining := true;
      sessions := active;
      assert View() == before.(draining := true);
    }

    /** Ready means that an admission now would go through, and not ready that a
        limit or the drain stands against it. */
    method Readiness(r: Resources) returns (ready: bool, reason: Reason)
      requires Valid()
      ensures ready ==> Reaches(config, View(), Admitted(View()))
      ensures ready <==>
        && !draining && (config.maxSessions <= 0 || active < config.maxSessions)
        && (!config.canary || config.canaryMaxSessions <= 0 || active < config.canaryMaxSessions)
        && (config.maxHandshakes <= 0 || handshakes < config.maxHandshakes)
        && (config.maxGoroutines <= 0 || r.goroutines < config.maxGoroutines)
        && (config.minFreeFDs <= 0 || !r.monitored || r.openFDs < 0 || r.maxFDs <= 0
            || r.maxFDs - r.openFDs >= config.minFreeFDs)
      ensures reason == RejectionReason(config, draining, active, handshakes, r)
    {
      FirstReasonIsGiven(config, draining, active, handshakes, r);
      reason := RejectionReason(config, draining, active, handshakes, r);
      ready := reason == Admissible;
      if ready {
        AdmissionReaches(config, View());
      }
    }
  }
}
