/** The lane cursor: a 64-bit counter reduced modulo the number of lanes. */
module RoundRobin {
  import opened Bytes

  function Advance(cursor: uint64): uint64 {
    (cursor + 1) % TWO64
  }

  /** The cursor before the i-th attempt of a call that starts at `start`. */
  function Cursor(start: uint64, i: nat): uint64 {
    (start + i) % TWO64
  }

  lemma CursorAdvances(start: uint64, i: nat)
    ensures Cursor(start, 0) == start
    ensures Advance(Cursor(start, i)) == Cursor(start, i + 1)
  {
  }

  /** Cursors add up; one that has not passed the wrap point is a plain sum. */
  lemma CursorSum(start: uint64, i: nat, k: nat)
    ensures Cursor(Cursor(start, i), k) == Cursor(start, i + k)
    ensures start + (i + k) <= TWO64 ==> Cursor(start, i) + k <= TWO64
  {
  }

  lemma CursorAtMost(start: uint64, i: nat)
    ensures Cursor(start, i) <= start + i
  {
  }

  function LaneAt(cursor: uint64, n: nat): (lane: nat)
    requires n > 0
    ensures lane < n
  {
    cursor % n
  }

  /** The lane tried at the i-th attempt of one call. */
  function Visit(start: uint64, i: nat, n: nat): (lane: nat)
    requires n > 0
    ensures lane < n
  {
    LaneAt(Cursor(start, i), n)
  }

  lemma VisitIs(start: uint64, i: nat, n: nat)
    requires n > 0
    ensures Visit(start, i, n) == LaneAt(Cursor(start, i), n)
  {
  }

  ghost predicate IsVisited(start: uint64, n: nat, lane: nat)
    requires n > 0
  {
    exists i: nat :: i < n && Visit(start, i, n) == lane
  }

  /** `n` attempts reach every lane, hence each exactly once. */
  ghost predicate VisitsAll(start: uint64, n: nat)
    requires n > 0
  {
    forall lane: nat :: lane < n ==> IsVisited(start, n, lane)
  }

  /** The counter does not wrap during the first `m` attempts, or wraps without
      a jump. */
  predicate Clean(start: uint64, m: nat, n: nat)
    requires n > 0
  {
    start + m <= TWO64 || TWO64 % n == 0
  }

  lemma CleanBeforeWrap(start: uint64, m: nat, n: nat)
    requires n > 0
    ensures start + m <= TWO64 ==> Clean(start, m, n)
  {
  }

  predicate Seamless(start: uint64, n: nat)
    requires n > 0
  {
    Clean(start, n, n)
  }

  ghost predicate RepeatsNone(start: uint64, n: nat)
    requires n > 0
  {
    forall i: nat, j: nat :: i < j < n ==> Visit(start, i, n) != Visit(start, j, n)
  }

  lemma MultipleGap(d: int, n: nat)
    ensures d >= 1 ==> d * n >= n
    ensures d <= -1 ==> d * n <= -(n as int)
    ensures d == 0 ==> d * n == 0
  {
    if d >= 1 {
      assert d * n == n + (d - 1) * n;
    } else if d <= -1 {
      assert d * n == (d + 1) * n - n;
    }
  }

  /** Numbers less than `n` apart with the same remainder are equal. */
  lemma CongruentClose(a: int, b: int, n: nat)
    requires n > 0 && a % n == b % n && a - b < n && b - a < n
    ensures a == b
  {
    var d := a / n - b / n;
    assert a == (a / n) * n + a % n;
    assert b == (b / n) * n + b % n;
    assert d * n == a - b;
    MultipleGap(d, n);
  }

  lemma ModUnique(a: int, q: int, r: nat, n: nat)
    requires n > 0 && r < n && a == q * n + r
    ensures a % n == r
  {
    assert a == (a / n) * n + a % n;
    var d := a / n - q;
    assert d * n == r - a % n;
    MultipleGap(d, n);
  }

  lemma ModShift(a: int, k: int, n: nat)
    requires n > 0
    ensures (a + k * n) % n == a % n
  {
    var q := a / n;
    assert a == q * n + a % n;
    assert a + k * n == (q + k) * n + a % n;
    ModUnique(a + k * n, q + k, a % n, n);
  }

  lemma CursorValue(start: uint64, i: nat)
    requires i < TWO64
    ensures Cursor(start, i) == if start + i < TWO64 then start + i else start + i - TWO64
  {
  }

  lemma CleanVisit(start: uint64, i: nat, n: nat)
    requires 0 < n <= TWO64 && i < n && Clean(start, i + 1, n)
    ensures Visit(start, i, n) == (start + i) % n
  {
    CursorValue(start, i);
    hide Cursor;
    if start + i >= TWO64 {
      var k := TWO64 / n;
      assert TWO64 == k * n;
      ModShift(start + i - TWO64, k, n);
    }
  }

  lemma SeamlessVisitsAll(start: uint64, n: nat)
    requires 0 < n <= TWO64 && Seamless(start, n)
    ensures VisitsAll(start, n)
  {
    hide Cursor, Visit;
    forall lane: nat | lane < n
      ensures IsVisited(start, n, lane)
    {
      var r := start % n;
      var q := start / n;
      var i := if lane >= r then lane - r else lane + n - r;
      CleanVisit(start, i, n);
      ModUnique(start + i, if lane >= r then q else q + 1, lane, n);
      assert Visit(start, i, n) == lane;
    }
  }

  function SkippedLane(start: uint64, n: nat): nat
    requires n > 0 && start + n > TWO64
  {
    var j := TWO64 - start;
    if TWO64 % n >= n - j then TWO64 % n else n - j
  }

  /** A number strictly between two neighbouring multiples is no multiple. */
  lemma NoMultipleBetween(d: int, n: nat, x: int)
    requires 0 < x < n
    ensures d * n != x
  {
    MultipleGap(d, n);
  }

  /** For a = q*n + v with lane - n < v < lane, the remainder of a is not lane. */
  lemma RemainderDiffers(a: nat, q: int, v: int, lane: nat, n: nat)
    requires n > 0 && a == q * n + v && lane - v < n && v < lane
    ensures a % n != lane
  {
    var m := a / n;
    assert a == m * n + a % n;
    assert (q - m) * n == a % n - v;
    NoMultipleBetween(q - m, n, lane - v);
  }

  lemma NotVisitedBeforeWrap(start: uint64, n: nat, i: nat)
    requires 0 < n <= TWO64 && !Seamless(start, n) && start + i < TWO64
    ensures Visit(start, i, n) != SkippedLane(start, n)
  {
    var q, r := TWO64 / n, TWO64 % n;
    assert TWO64 == q * n + r;
    RemainderDiffers(start + i, q, r - (TWO64 - start) + i, SkippedLane(start, n), n);
  }

  lemma NotVisitedAfterWrap(start: uint64, n: nat, i: nat)
    requires 0 < n <= TWO64 && !Seamless(start, n) && start + i >= TWO64 && i < n
    ensures Visit(start, i, n) != SkippedLane(start, n)
  {
    var k := start + i - TWO64;
    ModUnique(k, 0, k, n);
  }

  /** When the counter wraps in mid-call and the lane count does not divide
      2^64, one lane is never tried. */
  lemma WrapSkipsLane(start: uint64, n: nat)
    requires 0 < n <= TWO64 && !Seamless(start, n)
    ensures SkippedLane(start, n) < n && !IsVisited(start, n, SkippedLane(start, n))
  {
    forall i: nat | i < n
      ensures Visit(start, i, n) != SkippedLane(start, n)
    {
      if start + i < TWO64 {
        NotVisitedBeforeWrap(start, n, i);
      } else {
        NotVisitedAfterWrap(start, n, i);
      }
    }
  }

  /** A call tries every lane, hence each exactly once, if and only if its
      64-bit cursor passes the wrap point without a jump. */
  lemma VisitsAllIffSeamless(start: uint64, n: nat)
    requires 0 < n <= TWO64
    ensures VisitsAll(start, n) <==> Seamless(start, n)
  {
    if Seamless(start, n) {
      SeamlessVisitsAll(start, n);
    } else {
      WrapSkipsLane(start, n);
    }
  }

  /** Distinct attempts try distinct lanes, as long as the later one is made
      without a jump. */
  lemma CleanVisitsDistinct(start: uint64, i: nat, j: nat, n: nat)
    requires 0 < n <= TWO64 && i < j < n && Clean(start, j + 1, n)
    ensures Visit(start, i, n) != Visit(start, j, n)
  {
    CleanVisit(start, i, n);
    CleanVisit(start, j, n);
    if (start + i) % n == (start + j) % n {
      CongruentClose(start + i, start + j, n);
    }
  }

  /** A jump makes two attempts of a pass try the same lane. */
  lemma WrapRepeatsLane(start: uint64, n: nat) returns (i: nat, j: nat)
    requires 0 < n <= TWO64 && !Seamless(start, n)
    ensures i < j < n && Visit(start, i, n) == Visit(start, j, n)
  {
    hide Visit, Cursor;
    var q, r, before := TWO64 / n, TWO64 % n, TWO64 - start;
    assert TWO64 == q * n + r;
    i, j := if r <= n - before then before - 1 else n - 1 - r, if r <= n - before then before + r - 1 else n - 1;
    VisitBeforeWrap(start, i, n, q, r - before + i);
    VisitAfterWrap(start, j, n);
  }

  lemma VisitBeforeWrap(start: uint64, i: nat, n: nat, q: int, lane: nat)
    requires lane < n && start + i < TWO64 && start + i == q * n + lane
    ensures Visit(start, i, n) == lane
  {
    CursorValue(start, i);
    hide Cursor;
    ModUnique(start + i, q, lane, n);
  }

  lemma VisitAfterWrap(start: uint64, i: nat, n: nat)
    requires i < TWO64 && TWO64 <= start + i < TWO64 + n
    ensures Visit(start, i, n) == start + i - TWO64
  {
    CursorValue(start, i);
    hide Cursor;
    ModUnique(start + i - TWO64, 0, start + i - TWO64, n);
  }

  /** A pass repeats no lane if and only if its cursor passes the wrap point
      without a jump. */
  lemma RepeatsNoneIffSeamless(start: uint64, n: nat)
    requires 0 < n <= TWO64
    ensures RepeatsNone(start, n) <==> Seamless(start, n)
  {
    if Seamless(start, n) {
      forall i: nat, j: nat | i < j < n
        ensures Visit(start, i, n) != Visit(start, j, n)
      {
        CleanVisitsDistinct(start, i, j, n);
      }
    } else {
      var i, j := WrapRepeatsLane(start, n);
    }
  }

  /** Three lanes and the last value of the cursor: the second attempt of the
      pass tries the lane of the first again. */
  lemma RepeatedLaneExample()
    ensures Visit(TWO64 - 1, 0, 3) == 0 && Visit(TWO64 - 1, 1, 3) == 0
    ensures !RepeatsNone(TWO64 - 1, 3)
  {
    assert Cursor(TWO64 - 1, 0) == TWO64 - 1 && Cursor(TWO64 - 1, 1) == 0;
  }
}
