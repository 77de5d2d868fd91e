/** The listener's own methods, each run from beginning to end. Each is a run of
    ListenerSystem steps. */
module UdpListener {
  import opened Options
  import opened ListenerSystem

  class UdpPacketConn {
    const listener: UdpPacketListener
    const rAddr: nat
    ghost const index: nat
    var closed: bool      // its once-only Close has run
    var done: bool        // its done channel is closed; closing it twice would panic
    ghost var stage: Stage

    constructor (listener: UdpPacketListener, rAddr: nat, ghost index: nat)
      ensures this.listener == listener && this.rAddr == rAddr && this.index == index
      ensures !closed && !done && stage == Queued
    {
      this.listener, this.rAddr, this.index := listener, rAddr, index;
      closed, done, stage := false, false, Queued;
    }

    ghost predicate Ok()
      reads this
    {
      && stage != Popped && stage != Closing
      && closed == (stage == Stage.Closed) && done == (stage == Stage.Closed || stage == Dropped)
    }

    /** Closing discounts the connection and deletes its own entry; a second
        close does nothing. Only Accept hands connections out. */
    method Close()
      requires listener.Valid() && listener.Knows(this) && (stage == Accepted || stage == Stage.Closed)
      modifies this`closed, this`done, this`stage, listener`connWG, listener`conns
      ensures listener.Valid() && closed && done && Reaches(old(listener.View()), listener.View())
      ensures stage == Stage.Closed && listener.connWG == old(listener.connWG) - (if old(closed) then 0 else 1)
      ensures listener.conns == if old(closed) then old(listener.conns) else old(listener.conns) - {rAddr}
    {
      ReachesItself(listener.View());
      listener.StageTells(this);
      hide *;
      if closed {
        return;
      }
      Leave();
    }

    method Leave()
      requires listener.Valid() && listener.Knows(this) && stage == Accepted
      modifies this`closed, this`done, this`stage, listener`connWG, listener`conns
      ensures listener.Valid() && closed && done && Reaches(old(listener.View()), listener.View())
      ensures stage == Stage.Closed && listener.connWG == old(listener.connWG) - 1
      ensures listener.conns == old(listener.conns) - {rAddr}
    {
      hide Reaches, Inv, UdpPacketListener.View, UdpPacketListener.Linked, UdpPacketListener.Valid;
      listener.connWG := listener.connWG - 1;
      closed, done, stage := true, true, Stage.Closed;
      listener.conns := listener.conns - {rAddr};
      listener.ConnLeaves(this);
    }
  }

  ghost function ConnsOf(all: seq<UdpPacketConn>): (views: seq<Conn>)
    reads all`stage
    ensures |views| == |all| && forall i :: 0 <= i < |all| ==> views[i] == Conn(all[i].rAddr, all[i].stage)
  {
    if all == [] then []
    else
      var c := all[|all| - 1];
      ConnsOf(all[..|all| - 1]) + [Conn(c.rAddr, c.stage)]
  }

  ghost function IndicesOf(queue: seq<UdpPacketConn>): (indices: seq<nat>)
    ensures |indices| == |queue| && forall i :: 0 <= i < |queue| ==> indices[i] == queue[i].index
  {
    seq(|queue|, i requires 0 <= i < |queue| => queue[i].index)
  }

  datatype AcceptResult = Took(conn: UdpPacketConn) | ReadError | ListenerClosed | Blocks

  class UdpPacketListener {
    var accepting: bool
    var closed: bool
    var conns: map<nat, UdpPacketConn>
    var queue: seq<UdpPacketConn>
    var connWG: int
    var readFailed: bool
    var socketOpen: bool
    /** Every connection ever queued, in order; who holds the lock and how far
        a close has come. */
    ghost var all: seq<UdpPacketConn>
    ghost var lock: Lock
    ghost var shutdown: Shutdown

    constructor ()
      ensures Valid() && View() == FRESH_LISTENER && conns == map[] && !closed && !readFailed
    {
      accepting, closed, readFailed, socketOpen := true, false, false, true;
      conns, queue, connWG := map[], [], 1;
      all, lock, shutdown := [], Lock.Free, Shutdown.Open;
    }

    ghost predicate Knows(c: UdpPacketConn)
      reads this`all
    {
      c.index < |all| && all[c.index] == c
    }

    /** The objects are the connections of the view, and the flags its phases. */
    ghost predicate Linked()
      reads this`all, this`conns, this`queue, this`accepting, this`closed, this`shutdown, all
    {
      && (forall i :: 0 <= i < |all| ==> all[i].index == i && all[i].listener == this && all[i].Ok())
      && (forall a :: a in conns ==> Knows(conns[a]) && conns[a].rAddr == a)
      && (forall i :: 0 <= i < |queue| ==> Knows(queue[i]))
      && accepting == (shutdown == Shutdown.Open) && closed == (shutdown != Shutdown.Open)
    }

    ghost function TableView(): map<nat, nat>
      reads this`conns
    {
      map a | a in conns :: conns[a].index
    }

    ghost function View(): Listener
      reads this`all, this`conns, this`queue, this`connWG, this`lock, this`shutdown, this`socketOpen, all`stage
    {
      Listener(ConnsOf(all), TableView(), IndicesOf(queue), lock, shutdown, connWG, connWG == 0, socketOpen)
    }

    ghost predicate Valid()
      reads this`all, this`conns, this`queue, this`connWG, this`accepting, this`closed
      reads this`lock, this`shutdown, this`socketOpen, all
    {
      Linked() && Inv(View()) && lock == Lock.Free && (shutdown == Shutdown.Open || shutdown == Released)
    }

    // ------------------------------------------------- what a change looks like

    /** One connection changes its stage. */
    twostate lemma StageMoves(c: UdpPacketConn)
      requires old(Linked()) && Knows(c) && all == old(all)
      requires forall d :: d in all && d != c ==> d.stage == old(d.stage)
      ensures ConnsOf(all) == old(ConnsOf(all))[c.index := Conn(c.rAddr, c.stage)]
    {
      hide ConnsOf;
    }

    twostate lemma ConnEnters(new c: UdpPacketConn)
      requires all == old(all) + [c] && forall d :: d in old(all) ==> d.stage == old(d.stage)
      ensures ConnsOf(all) == old(ConnsOf(all)) + [Conn(c.rAddr, c.stage)]
    {
      hide ConnsOf;
      forall i | 0 <= i < |old(all)|
        ensures ConnsOf(all)[i] == old(ConnsOf(all))[i]
      {
        assert all[i] in old(all);
      }
    }

    /** An accepted connection is discounted and its entry deleted. */
    twostate predicate Leaves(c: UdpPacketConn)
      reads this, all
    {
      && Knows(c) && old(c.stage) == Accepted && c.stage == Stage.Closed && c.closed && c.done
      && unchanged(`all, `queue, `accepting, `closed, `lock, `shutdown, `socketOpen)
      && connWG == old(connWG) - 1 && conns == old(conns) - {c.rAddr}
      && forall d :: d in all && d != c ==> unchanged(d)
    }

    twostate lemma LeavesLinked(c: UdpPacketConn)
      requires old(Linked()) && Leaves(c)
      ensures Linked()
    {
      forall i | 0 <= i < |all|
        ensures all[i].index == i && all[i].listener == this && all[i].Ok()
      {
        assert all[i] in all && old(all[i].Ok());
      }
      forall a | a in conns
        ensures Knows(conns[a]) && conns[a].rAddr == a
      {
        assert old(Knows(conns[a]));
      }
    }

    twostate lemma LeavesView(c: UdpPacketConn)
      requires old(Linked()) && old(connWG) > 0 && Leaves(c)
      ensures View() == ListenerSystem.ConnClosed(old(View()), c.index)
    {
      hide Linked, ConnsOf;
      StageMoves(c);
      assert TableView() == old(TableView()) - {c.rAddr};
    }

    twostate lemma ConnLeaves(c: UdpPacketConn)
      requires old(Valid()) && Leaves(c)
      ensures Valid() && Reaches(old(View()), View())
    {
      SomeoneCounted(old(View()), c.index);
      LeavesLinked(c);
      LeavesView(c);
      CloseConnReaches(old(View()), c.index);
      hide Reaches, Inv, View, Linked;
      ReachesKeepsInv(old(View()), View());
    }

    lemma StageTells(c: UdpPacketConn)
      requires Valid() && Knows(c)
      ensures c.closed == (c.stage == Stage.Closed) && (c.closed ==> c.done)
    {
      hide Inv;
      assert all[c.index].Ok();
    }

    /** While a connection that Accept has counted is open, the count is not zero. */
    lemma SomeoneCounted(l: Listener, c: nat)
      requires Inv(l) && At(l, c, Accepted)
      ensures l.count > 0
    {
      NoneAcceptedIff(l.conns);
    }

    /** What the goroutine that closes the socket waits for: the count is zero
        exactly when the listener and every accepted connection are closed. */
    lemma ZeroIffAllClosed()
      requires Valid()
      ensures connWG >= 0
      ensures connWG == 0 <==> closed && forall c :: c in all ==> c.stage != Accepted
    {
      NoneAcceptedIff(View().conns);
      assert forall i :: 0 <= i < |all| ==> all[i] in all && View().conns[i].stage == all[i].stage;
    }

    /** The socket is closed when nobody is left to use it. */
    method CloseSocket()
      requires Valid() && connWG == 0
      modifies this`socketOpen
      ensures Valid() && Reaches(old(View()), View()) && !socketOpen
      ensures closed && forall c :: c in all ==> c.stage != Accepted
    {
      ZeroIffAllClosed();
      ReachesItself(View());
      ghost var was := View();
      SwitchOff();
      hide *;
      ReachesMore(was, was, ListenerSystem.CloseSocket, View());
      ReachesKeepsInv(was, View());
    }

    method SwitchOff()
      requires Linked() && connWG == 0
      modifies this`socketOpen
      ensures Linked() && Step(old(View()), ListenerSystem.CloseSocket, View()) && !socketOpen
    {
      hide ConnsOf, Linked, TableView;
      socketOpen := false;
    }

    /** The read loop ends; whatever is queued or accepted stays. */
    method ReadFails()
      requires Valid()
      modifies this`readFailed
      ensures Valid() && readFailed && View() == old(View())
    {
      hide *;
      readFailed := true;
    }

    /** The connection a datagram belongs to: the one in the table, or a new one
        when the listener accepts, the filter passes and the queue has room. */
    method GetConn(raddr: nat, passes: bool) returns (r: Option<UdpPacketConn>)
      requires Valid()
      modifies this`conns, this`queue, this`all
      ensures Valid() && Reaches(old(View()), View())
      ensures r.Some? <==> raddr in old(conns) || (accepting && passes && |old(queue)| < 128)
      ensures r.None? || raddr in old(conns) ==> View() == old(View()) && conns == old(conns) && queue == old(queue)
      ensures raddr in old(conns) ==> r == Some(old(conns)[raddr])
      ensures r.Some? && raddr !in old(conns) ==>
        && fresh(r.value) && r.value.rAddr == raddr && r.value.stage == Queued && all == old(all) + [r.value]
        && conns == old(conns)[raddr := r.value] && queue == old(queue) + [r.value]
        && View() == ListenerSystem.Enqueued(old(View()), raddr)
    {
      ReachesItself(View());
      hide Reaches, Inv, View, Linked, Valid, ListenerSystem.Enqueued;
      if raddr in conns {
        return Some(conns[raddr]);
      }
      if !accepting {
        return None;
      }
      if !passes {
        return None;
      }
      var conn := new UdpPacketConn(this, raddr, |all|);
      if |queue| >= BACKLOG {
        return None;
      }
      Offer(conn);
      return Some(conn);
    }

    method Offer(conn: UdpPacketConn)
      requires Valid() && accepting && |queue| < BACKLOG && conn.rAddr !in conns
      requires conn.listener == this && conn.Ok() && conn.stage == Queued && conn.index == |all| && conn !in all
      modifies this`conns, this`queue, this`all
      ensures Valid() && Reaches(old(View()), View()) && View() == ListenerSystem.Enqueued(old(View()), conn.rAddr)
      ensures all == old(all) + [conn] && conns == old(conns)[conn.rAddr := conn] && queue == old(queue) + [conn]
    {
      ghost var was := View();
      EnqueueReaches(was, conn.rAddr);
      Insert(conn);
      hide Reaches, Inv, View, Linked, ListenerSystem.Enqueued;
      ReachesKeepsInv(was, View());
    }

    method Insert(conn: UdpPacketConn)
      requires Linked() && conn.listener == this && conn.Ok() && conn.stage == Queued
      requires conn.index == |all| && conn !in all
      modifies this`conns, this`queue, this`all
      ensures Linked() && View() == ListenerSystem.Enqueued(old(View()), conn.rAddr)
      ensures all == old(all) + [conn] && conns == old(conns)[conn.rAddr := conn] && queue == old(queue) + [conn]
    {
      queue := queue + [conn];
      conns := conns[conn.rAddr := conn];
      all := all + [conn];
      EntersLinked(conn);
      EntersView(conn);
    }

    twostate predicate Enters(new c: UdpPacketConn)
      reads this, c
    {
      && all == old(all) + [c] && conns == old(conns)[c.rAddr := c] && queue == old(queue) + [c]
      && c.listener == this && c.Ok() && c.stage == Queued && c.index == |old(all)|
      && unchanged(`connWG, `accepting, `closed, `lock, `shutdown, `socketOpen)
    }

    twostate lemma EntersLinked(new c: UdpPacketConn)
      requires old(Linked()) && Enters(c) && forall d :: d in old(all) ==> unchanged(d)
      ensures Linked()
    {
      forall i | 0 <= i < |old(all)|
        ensures all[i].index == i && all[i].listener == this && all[i].Ok()
      {
        assert all[i] in old(all) && old(all[i].Ok());
      }
    }

    twostate lemma EntersView(new c: UdpPacketConn)
      requires old(Linked()) && Enters(c) && forall d :: d in old(all) ==> unchanged(d)
      ensures View() == ListenerSystem.Enqueued(old(View()), c.rAddr)
    {
      hide Linked;
      ConnEnters(c);
      assert TableView() == old(TableView())[c.rAddr := c.index];
    }

    /** Takes the oldest queued connection and counts it, or reports why there is
        none; when more than one of the channels is ready, any of them may win.
        Accept blocks exactly while none is. */
    method Accept() returns (r: AcceptResult)
      requires Valid()
      modifies this`queue, this`connWG, all`stage
      ensures Valid() && Reaches(old(View()), View()) && conns == old(conns)
      ensures r.Blocks? <==> old(queue) == [] && !readFailed && !closed
      ensures r.ReadError? ==> readFailed
      ensures r.ListenerClosed? ==> closed
      ensures !r.Took? ==> View() == old(View()) && queue == old(queue)
      ensures r.Took? ==>
        && old(queue) != [] && r.conn == old(queue)[0] && queue == old(queue)[1..] && !r.conn.closed
        && r.conn.stage == Accepted && connWG == old(connWG) + 1
        && HasHead(old(View())) && View() == AcceptedHead(old(View()))
    {
      ReachesItself(View());
      if {
        case queue != [] =>
          var c := TakeHead();
          r := Took(c);
        case readFailed =>
          r := ReadError;
        case closed =>
          r := ListenerClosed;
        case queue == [] && !readFailed && !closed =>
          r := Blocks;
      }
    }

    method TakeHead() returns (c: UdpPacketConn)
      requires Valid() && queue != []
      modifies this`queue, this`connWG, all`stage
      ensures Valid() && Reaches(old(View()), View())
      ensures c == old(queue)[0] && queue == old(queue)[1..]
      ensures !c.closed && c.stage == Accepted && connWG == old(connWG) + 1
      ensures HasHead(old(View())) && View() == AcceptedHead(old(View()))
    {
      ghost var was := View();
      HeadQueued();
      AcceptReaches(was);
      c := Dequeue();
      hide Reaches, Inv, View, Linked, AcceptedHead;
      ReachesKeepsInv(was, View());
    }

    method Dequeue() returns (c: UdpPacketConn)
      requires Linked() && queue != [] && queue[0].stage == Queued && connWG > 0
      modifies this`queue, this`connWG, all`stage
      ensures Linked() && lock == old(lock) && shutdown == old(shutdown)
      ensures c == old(queue)[0] && queue == old(queue)[1..]
      ensures !c.closed && c.stage == Accepted && connWG == old(connWG) + 1
      ensures HasHead(old(View())) && View() == AcceptedHead(old(View()))
    {
      c := queue[0];
      queue := queue[1..];
      connWG := connWG + 1;
      c.stage := Accepted;
      MoveLinked(c);
      DequeueView(c);
    }

    /** One connection changes its stage, whatever the counters and the queue do. */
    twostate lemma MoveLinked(c: UdpPacketConn)
      requires old(Linked()) && c in all && c.Ok() && unchanged(`all, `accepting, `closed, `shutdown)
      requires forall d :: d in all && d != c ==> unchanged(d)
      requires forall a :: a in conns ==> a in old(conns) && conns[a] == old(conns)[a]
      requires forall i :: 0 <= i < |queue| ==> queue[i] in old(queue)
      ensures Linked()
    {
      forall i | 0 <= i < |all|
        ensures all[i].index == i && all[i].listener == this && all[i].Ok()
      {
        assert all[i] in all && old(all[i].Ok());
      }
    }

    twostate lemma DequeueView(c: UdpPacketConn)
      requires old(Linked()) && old(queue) != [] && c == old(queue)[0] && old(connWG) > 0
      requires c.stage == Accepted && connWG == old(connWG) + 1 && queue == old(queue)[1..]
      requires unchanged(`all, `conns, `lock, `shutdown, `socketOpen) && forall d :: d in all && d != c ==> unchanged(d)
      ensures HasHead(old(View())) && View() == AcceptedHead(old(View()))
    {
      StageMoves(c);
      hide ConnsOf, TableView;
    }

    /** A queued connection waits for an Accept, and the listener is open or
        still being emptied. */
    lemma HeadQueued()
      requires Linked() && Inv(View()) && queue != []
      ensures HasHead(View()) && queue[0].stage == Queued && Knows(queue[0]) && shutdown != Released && connWG > 0
    {
      QueueHead(View());
      assert View().queue[0] == queue[0].index;
    }

    /** Under the lock, and while it is being emptied. */
    ghost predicate Emptying()
      reads this`all, this`conns, this`queue, this`connWG, this`accepting, this`closed
      reads this`lock, this`shutdown, this`socketOpen, all
    {
      Linked() && Inv(View()) && lock == Draining && shutdown == Shutdown.Emptying
    }

    /** Queued connections are dropped and entries disappear; nothing else. */
    twostate predicate Drops()
      reads this`all, this`conns, all`stage
    {
      && all == old(all)
      && (forall a :: a in conns ==> a in old(conns) && conns[a] == old(conns)[a])
      && (forall c :: c in all ==> c.stage == old(c.stage) || (old(c.stage) == Queued && c.stage == Dropped))
    }

    /** The queued connections are dropped and the accepted ones, and no others,
        keep their entries. */
    twostate predicate KeepsAccepted()
      reads this`all, this`conns, this`queue, all`stage
    {
      && all == old(all) && queue == []
      && (forall c :: c in all ==> c.stage == if old(c.stage) == Queued then Dropped else old(c.stage))
      && (forall a :: a in conns <==> a in old(conns) && old(conns[a].stage) == Accepted)
      && (forall a :: a in conns ==> conns[a] == old(conns)[a])
    }

    /** Closing refuses further connections, and does so once. */
    method Close()
      requires Valid()
      modifies this`accepting, this`closed, this`queue, this`conns, this`connWG, this`lock, this`shutdown
      modifies all`done, all`stage
      ensures Valid() && Reaches(old(View()), View()) && closed && KeepsAccepted()
      ensures connWG == old(connWG) - (if old(closed) then 0 else 1)
    {
      hide Valid, Linked, Reaches, View, Emptying;
      ghost var l0 := View();
      ReachesItself(l0);
      if closed {
        NoneQueued();
        return;
      }
      Refuse(l0);
      DrainAndFinish(l0);
    }

    method DrainAndFinish(ghost l0: Listener)
      requires Emptying() && Reaches(l0, View())
      modifies this`queue, this`conns, this`connWG, this`lock, this`shutdown, all`done, all`stage
      ensures Valid() && closed && connWG == old(connWG) - 1 && Reaches(l0, View()) && KeepsAccepted()
    {
      hide *;
      EmptyingLinked();
      Drain(l0);
      Finish(l0);
      OnlyAccepted();
    }

    method Refuse(ghost l0: Listener)
      requires Valid() && !closed && Reaches(l0, View())
      modifies this`accepting, this`closed, this`lock, this`shutdown
      ensures Emptying() && closed && Reaches(l0, View())
    {
      hide Reaches, Inv, ConnsOf, TableView, Linked;
      FlagsTell();
      RefuseReaches(l0, View());
      accepting := false;
      closed := true;
      lock := Draining;
      shutdown := Shutdown.Emptying;
      FlagsLinked();
      assert View() == Refused(old(View()));
    }

    method Finish(ghost l0: Listener)
      requires Emptying() && queue == [] && Reaches(l0, View())
      modifies this`lock, this`shutdown, this`connWG
      ensures Valid() && connWG == old(connWG) - 1 && Reaches(l0, View())
    {
      hide Reaches, Inv, ConnsOf, TableView, Linked;
      FlagsTell();
      FinishReaches(l0, View());
      lock := Lock.Free;
      shutdown := Released;
      connWG := connWG - 1;
      FlagsLinked();
      assert View() == Finished(old(View()));
    }

    lemma EmptyingLinked()
      requires Emptying()
      ensures Linked() && closed
    {
    }

    lemma FlagsTell()
      requires Linked()
      ensures accepting == (shutdown == Shutdown.Open) && closed == (shutdown != Shutdown.Open)
    {
    }

    /** The objects stay linked when only flags change, and together. */
    twostate lemma FlagsLinked()
      requires old(Linked()) && unchanged(`all, `conns, `queue) && forall c :: c in all ==> unchanged(c)
      requires accepting == (shutdown == Shutdown.Open) && closed == (shutdown != Shutdown.Open)
      ensures Linked()
    {
      forall i | 0 <= i < |all|
        ensures all[i].index == i && all[i].listener == this && all[i].Ok()
      {
        assert all[i] in all && old(all[i].Ok());
      }
    }

    /** A closed listener has nothing queued, and only accepted connections are
        still in its table. */
    twostate lemma OnlyAccepted()
      requires old(Linked()) && Valid() && closed && Drops()
      ensures KeepsAccepted()
    {
      hide Valid, Inv, View;
      NoneQueued();
      forall a | a in old(conns) && old(conns[a].stage) == Accepted
        ensures a in conns
      {
        EntryStands(old(conns)[a]);
      }
    }

    lemma NoneQueued()
      requires Valid() && closed
      ensures queue == [] && forall c :: c in all ==> c.stage != Queued
      ensures forall a :: a in conns ==> conns[a].stage == Accepted
    {
      assert View().queue == [];
      forall c | c in all
        ensures c.stage != Queued
      {
        assert c.index in View().queue <==> At(View(), c.index, Queued);
      }
      forall a | a in conns
        ensures conns[a].stage == Accepted
      {
        assert View().table[a] == conns[a].index && Live(View().conns[conns[a].index].stage);
        assert all[conns[a].index].Ok() && conns[a] in all;
      }
    }

    lemma EntryStands(c: UdpPacketConn)
      requires Valid() && Knows(c) && c.stage == Accepted
      ensures c.rAddr in conns && conns[c.rAddr] == c
    {
      assert View().conns[c.index] == Conn(c.rAddr, Accepted);
      assert View().table[c.rAddr] == c.index;
    }

    /** Takes every queued connection out of the queue and the table. */
    method Drain(ghost l0: Listener)
      requires Emptying() && Reaches(l0, View())
      modifies this`queue, this`conns, all`done, all`stage
      ensures Emptying() && Reaches(l0, View()) && queue == [] && Drops()
    {
      hide Emptying, Reaches, View, Step;
      while queue != []
        invariant Emptying() && Reaches(l0, View()) && Drops()
        decreases |queue|
      {
        ghost var was := View();
        DropHead();
        ReachesMore(l0, was, DrainOne, View());
      }
    }

    method DropHead()
      requires Emptying() && queue != []
      modifies this`queue, this`conns, all`done, all`stage
      ensures Emptying() && Step(old(View()), DrainOne, View()) && queue == old(queue)[1..]
      ensures DropsOnly(old(queue)[0])
    {
      HeadQueued();
      Unqueue();
      hide Inv, Step, View, Linked, DropsOnly;
      StepKeepsInv(old(View()), DrainOne, View());
    }

    /** One queued connection is dropped, its done channel closed for the first time. */
    twostate predicate DropsOnly(c: UdpPacketConn)
      reads this`all, this`conns, all`stage, all`done
    {
      && all == old(all) && old(c.stage) == Queued && !old(c.done) && c in all
      && c.done && conns == old(conns) - {c.rAddr}
      && forall d :: d in all ==> d.stage == if d == c then Dropped else old(d.stage)
    }

    method Unqueue()
      requires Linked() && queue != [] && queue[0].stage == Queued && shutdown == Shutdown.Emptying
      modifies this`queue, this`conns, all`done, all`stage
      ensures Linked() && Step(old(View()), DrainOne, View()) && queue == old(queue)[1..]
      ensures DropsOnly(old(queue)[0])
    {
      hide Step, View;
      var c := queue[0];
      c.done := true;
      c.stage := Dropped;
      queue := queue[1..];
      conns := conns - {c.rAddr};
      MoveLinked(c);
      DropView(c);
    }

    twostate lemma DropView(c: UdpPacketConn)
      requires old(Linked()) && old(queue) != [] && c == old(queue)[0] && old(shutdown) == Shutdown.Emptying
      requires Knows(c) && c.stage == Dropped && queue == old(queue)[1..] && conns == old(conns) - {c.rAddr}
      requires unchanged(`all, `connWG, `lock, `shutdown, `socketOpen)
      requires forall d :: d in all && d != c ==> unchanged(d)
      ensures Step(old(View()), DrainOne, View())
    {
      hide Linked, ConnsOf;
      StageMoves(c);
      assert TableView() == old(TableView()) - {c.rAddr};
    }
  }
}
