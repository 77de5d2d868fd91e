/** The three wrapping counters under concurrent senders: each packet performs
    its three fetch-and-adds in order, but packets interleave freely. */
module WrapNonces {
  import opened Bytes
  import opened Options
  import RoundRobin
  import Runs
  import opened WrapCodec

  /** One call of the encoder: the values its fetches have returned so far. */
  datatype Call = Call(seqNo: Option<uint32>, timestamp: Option<uint32>, counter: Option<uint64>)

  datatype Conn = Conn(state: Counters, calls: seq<Call>)

  datatype Op = Begin | FetchSeq(i: nat) | FetchTimestamp(i: nat) | FetchCounter(i: nat)

  predicate Step(c: Conn, op: Op, c': Conn) {
    match op
    case Begin => c' == c.(calls := c.calls + [Call(None, None, None)])
    case FetchSeq(i) =>
      && i < |c.calls| && c.calls[i].seqNo.None?
      && c' == Conn(c.state.(seqNo := Advance(c.state).seqNo), c.calls[i := c.calls[i].(seqNo := Some(c.state.seqNo))])
    case FetchTimestamp(i) =>
      && i < |c.calls| && c.calls[i].seqNo.Some? && c.calls[i].timestamp.None?
      && c' == Conn(c.state.(timestamp := Advance(c.state).timestamp),
                    c.calls[i := c.calls[i].(timestamp := Some(c.state.timestamp))])
    case FetchCounter(i) =>
      && i < |c.calls| && c.calls[i].timestamp.Some? && c.calls[i].counter.None?
      && c' == Conn(c.state.(counter := Advance(c.state).counter),
                    c.calls[i := c.calls[i].(counter := Some(c.state.counter))])
  }

  ghost predicate Next(c: Conn, c': Conn) {
    exists op :: Step(c, op, c')
  }

  ghost predicate Run(trace: seq<Conn>) {
    Runs.Steps(Next, trace) && trace[0].calls == []
  }

  /** How many calls have fetched their counter. */
  function Fetched(calls: seq<Call>): nat {
    if calls == [] then 0
    else Fetched(calls[..|calls| - 1]) + if calls[|calls| - 1].counter.Some? then 1 else 0
  }

  lemma {:induction false} FetchedBound(calls: seq<Call>)
    ensures Fetched(calls) <= |calls|
  {
    if calls != [] {
      FetchedBound(calls[..|calls| - 1]);
    }
  }

  lemma {:induction false} FetchedUpdate(calls: seq<Call>, i: nat, x: Call)
    requires i < |calls|
    ensures Fetched(calls[i := x]) + (if calls[i].counter.Some? then 1 else 0)
         == Fetched(calls) + (if x.counter.Some? then 1 else 0)
  {
    var n := |calls| - 1;
    if i < n {
      assert calls[i := x][..n] == calls[..n][i := x];
      FetchedUpdate(calls[..n], i, x);
    } else {
      assert calls[i := x][..n] == calls[..n];
    }
  }

  lemma FetchedBegin(calls: seq<Call>, x: Call)
    ensures Fetched(calls + [x]) == Fetched(calls) + if x.counter.Some? then 1 else 0
  {
    assert (calls + [x])[..|calls|] == calls;
  }

  /** A call holds the value that one of the fetches so far returned: the k-th
      returns the cursor after k steps. */
  ghost predicate HasTicket(start: uint64, call: Call, fetched: nat) {
    call.counter.Some? ==> exists k: nat :: k < fetched && call.counter.value == RoundRobin.Cursor(start, k)
  }

  /** The counter has moved on by the number of fetches; the calls hold
      distinct values among those handed out, as long as it did not go round. */
  ghost predicate Inv(start: uint64, c: Conn) {
    var n := Fetched(c.calls);
    && c.state.counter == RoundRobin.Cursor(start, n)
    && (forall i :: 0 <= i < |c.calls| ==> HasTicket(start, c.calls[i], n))
    && (n <= TWO64 ==>
          forall i, j :: 0 <= i < j < |c.calls| && c.calls[i].counter.Some? && c.calls[j].counter.Some? ==>
            c.calls[i].counter != c.calls[j].counter)
  }

  lemma CursorsDistinct(start: uint64, j: nat, k: nat)
    requires j < k < TWO64
    ensures RoundRobin.Cursor(start, j) != RoundRobin.Cursor(start, k)
  {
  }

  lemma FetchKeepsInv(start: uint64, c: Conn, op: Op, c': Conn)
    requires Inv(start, c) && Step(c, op, c') && op.FetchCounter?
    ensures Inv(start, c')
  {
    var n := Fetched(c.calls);
    FetchedUpdate(c.calls, op.i, c'.calls[op.i]);
    RoundRobin.CursorAdvances(start, n);
    assert HasTicket(start, c'.calls[op.i], n + 1);
    forall i | 0 <= i < |c.calls| && i != op.i
      ensures HasTicket(start, c'.calls[i], n + 1)
      ensures n + 1 <= TWO64 ==> c'.calls[i].counter != c'.calls[op.i].counter
    {
      assert HasTicket(start, c.calls[i], n);
      if c.calls[i].counter.Some? && n + 1 <= TWO64 {
        var k: nat :| k < n && c.calls[i].counter.value == RoundRobin.Cursor(start, k);
        CursorsDistinct(start, k, n);
      }
    }
  }

  lemma OtherKeepsInv(start: uint64, c: Conn, op: Op, c': Conn)
    requires Inv(start, c) && Step(c, op, c') && !op.FetchCounter?
    ensures Inv(start, c')
  {
    hide Fetched, RoundRobin.Cursor;
    if op.Begin? {
      FetchedBegin(c.calls, c'.calls[|c.calls|]);
    } else {
      FetchedUpdate(c.calls, op.i, c'.calls[op.i]);
    }
    forall i | 0 <= i < |c'.calls|
      ensures HasTicket(start, c'.calls[i], Fetched(c.calls))
    {
      if i < |c.calls| {
        assert HasTicket(start, c.calls[i], Fetched(c.calls));
      }
    }
  }

  lemma {:induction false} RunKeepsInv(trace: seq<Conn>, i: nat)
    requires Run(trace) && i < |trace|
    ensures Inv(trace[0].state.counter, trace[i])
  {
    var start := trace[0].state.counter;
    if i > 0 {
      RunKeepsInv(trace, i - 1);
      assert Runs.StepAt(Next, trace, i - 1);
      var op :| Step(trace[i - 1], op, trace[i]);
      if op.FetchCounter? {
        FetchKeepsInv(start, trace[i - 1], op, trace[i]);
      } else {
        OtherKeepsInv(start, trace[i - 1], op, trace[i]);
      }
    }
  }

  /** A nonce determines its counter. */
  lemma NonceInjective(id: seq<byte>, m: uint64, n: uint64)
    requires IsId(id) && Nonce(id, m) == Nonce(id, n)
    ensures m == n
  {
    Widths();
    FromToBE(m, 8);
    FromToBE(n, 8);
    assert ToBE(m, 8) == Nonce(id, m)[4..] == Nonce(id, n)[4..] == ToBE(n, 8);
  }

  /** Under any interleaving of the fetches, no two packets of one connection
      carry the same nonce, for up to 2^64 packets. */
  lemma NoncesDistinct(trace: seq<Conn>, t: nat, id: seq<byte>, i: nat, j: nat)
    requires Run(trace) && t < |trace| && IsId(id)
    requires Fetched(trace[t].calls) <= TWO64
    requires i < j < |trace[t].calls| && trace[t].calls[i].counter.Some? && trace[t].calls[j].counter.Some?
    ensures Nonce(id, trace[t].calls[i].counter.value) != Nonce(id, trace[t].calls[j].counter.value)
  {
    RunKeepsInv(trace, t);
    var m, n := trace[t].calls[i].counter.value, trace[t].calls[j].counter.value;
    if Nonce(id, m) == Nonce(id, n) {
      NonceInjective(id, m, n);
    }
  }

  /** Client and server never use the same nonce, whatever their counters. */
  lemma DirectionsDisjoint(client: seq<byte>, server: seq<byte>, m: uint64, n: uint64)
    requires IsId(client) && IsId(server)
    ensures Nonce(Directed(client, false), m) != Nonce(Directed(server, true), n)
  {
    assert Nonce(Directed(client, false), m)[0] < 0x80 <= Nonce(Directed(server, true), n)[0];
  }

  // ------------------------------------------------------ one sender at a time

  function After(c: Counters, n: nat): Counters {
    if n == 0 then c else Advance(After(c, n - 1))
  }

  /** Reducing before or after adding makes no difference. */
  lemma AddAfterReducing(a: nat, d: nat, n: nat)
    requires n > 0
    ensures (a % n + d) % n == (a + d) % n
  {
    var k := a / n;
    assert a + d == (a % n + d) + k * n;
    RoundRobin.ModShift(a % n + d, k, n);
  }

  lemma {:induction false} AfterClosedForm(c: Counters, n: nat)
    ensures After(c, n).timestamp == (c.timestamp + TS_STEP * n) % TWO32
    ensures After(c, n).seqNo == (c.seqNo + n) % TWO32
    ensures After(c, n).counter == (c.counter + n) % TWO64
  {
    if n > 0 {
      AfterClosedForm(c, n - 1);
      AddAfterReducing(c.timestamp + TS_STEP * (n - 1), TS_STEP, TWO32);
      AddAfterReducing(c.seqNo + (n - 1), 1, TWO32);
      AddAfterReducing(c.counter + (n - 1), 1, TWO64);
    }
  }

  const PERIOD := 0x400_0000  // 2^26

  /** Congruence from an explicit multiple. */
  lemma SameRemainder(a: nat, b: nat, k: int, n: nat)
    requires n > 0 && a == b + k * n
    ensures a % n == b % n
  {
    RoundRobin.ModShift(b, k, n);
  }

  /** 15 has an inverse modulo 2^26: 15 * 49213167 == 1 + 11 * 2^26. */
  lemma FifteenInvertible(d: int, m: int)
    requires 15 * d == PERIOD * m
    ensures d == PERIOD * (49213167 * m - 11 * d)
  {
    assert 15 * 49213167 == 1 + 11 * PERIOD;
    assert d + 11 * PERIOD * d == 15 * 49213167 * d == 49213167 * PERIOD * m;
  }

  /** From one packet to the next the timestamp grows by 960 and the two counters
      by one, each with its own wrap-around. */
  lemma PacketsStep(c: Counters, i: nat)
    ensures After(c, i + 1).timestamp == (After(c, i).timestamp + 960) % 0x1_0000_0000
    ensures After(c, i + 1).seqNo == (After(c, i).seqNo + 1) % 0x1_0000_0000
    ensures After(c, i + 1).counter == (After(c, i).counter + 1) % 0x1_0000_0000_0000_0000
  {
  }

  /** For one sequential sender, two packets share a timestamp exactly when
      2^26 divides their distance: 960 * 2^26 is a multiple of 2^32. */
  lemma TimestampsRepeatEvery2To26(c: Counters, i: nat, j: nat)
    requires i <= j
    ensures After(c, i).timestamp == After(c, j).timestamp <==> (j - i) % PERIOD == 0
  {
    AfterClosedForm(c, i);
    AfterClosedForm(c, j);
    var a, b := c.timestamp + TS_STEP * i, c.timestamp + TS_STEP * j;
    if (j - i) % PERIOD == 0 {
      var k := (j - i) / PERIOD;
      assert j - i == PERIOD * k;
      assert b == a + (15 * k) * TWO32;
      SameRemainder(b, a, 15 * k, TWO32);
    }
    if a % TWO32 == b % TWO32 {
      var m := b / TWO32 - a / TWO32;
      assert b - a == TWO32 * m;
      assert TS_STEP * (j - i) == TWO32 * m;
      FifteenInvertible(j - i, m);
      MultipleHasNoRemainder(49213167 * m - 11 * (j - i), PERIOD, j - i);
    }
  }

  lemma MultipleHasNoRemainder(k: int, n: nat, x: int)
    requires n > 0 && x == n * k
    ensures x % n == 0
  {
    RoundRobin.ModShift(0, k, n);
  }

  /** Reducing modulo a multiple of n first does not change the remainder. */
  lemma ReduceThrough(a: nat, n: nat, m: nat)
    requires n > 0 && m > 0
    ensures a % (n * m) % n == a % n
  {
    var k := a / (n * m);
    assert a == a % (n * m) + k * m * n;
    RoundRobin.ModShift(a % (n * m), k * m, n);
  }

  /** The 16-bit sequence number on the wire repeats every 2^16 packets. */
  lemma SequenceNumbersRepeatEvery2To16(c: Counters, i: nat, j: nat)
    requires i <= j
    ensures After(c, i).seqNo % 0x1_0000 == After(c, j).seqNo % 0x1_0000 <==> (j - i) % 0x1_0000 == 0
  {
    AfterClosedForm(c, i);
    AfterClosedForm(c, j);
    ReduceThrough(c.seqNo + i, 0x1_0000, 0x1_0000);
    ReduceThrough(c.seqNo + j, 0x1_0000, 0x1_0000);
    SameRemainderIffDivides(c.seqNo + i, c.seqNo + j, 0x1_0000);
  }

  lemma SameRemainderIffDivides(a: nat, b: nat, n: nat)
    requires a <= b && n > 0
    ensures a % n == b % n <==> (b - a) % n == 0
  {
    if (b - a) % n == 0 {
      SameRemainder(b, a, (b - a) / n, n);
    }
    if a % n == b % n {
      MultipleHasNoRemainder(b / n - a / n, n, b - a);
    }
  }
}
