/** Finite sums, and how they may be rearranged. */
module Sums {
  function Sum(n: nat, f: nat -> int): int {
    if n == 0 then 0 else Sum(n - 1, f) + f(n - 1)
  }

  lemma SumNone(f: nat -> int)
    ensures Sum(0, f) == 0
  {
  }

  lemma SumMore(n: nat, f: nat -> int)
    ensures Sum(n + 1, f) == Sum(n, f) + f(n)
  {
  }

  lemma {:induction false} SumSame(n: nat, f: nat -> int, g: nat -> int)
    requires forall i: nat :: i < n ==> f(i) == g(i)
    ensures Sum(n, f) == Sum(n, g)
  {
    if n > 0 {
      SumSame(n - 1, f, g);
    }
  }

  lemma {:induction false} SumAdd(n: nat, f: nat -> int, g: nat -> int, h: nat -> int)
    requires forall i: nat :: i < n ==> h(i) == f(i) + g(i)
    ensures Sum(n, h) == Sum(n, f) + Sum(n, g)
  {
    if n > 0 {
      SumAdd(n - 1, f, g, h);
    }
  }

  lemma {:induction false} SumZero(n: nat, f: nat -> int)
    requires forall i: nat :: i < n ==> f(i) == 0
    ensures Sum(n, f) == 0
  {
    if n > 0 {
      SumZero(n - 1, f);
    }
  }

  lemma {:induction false} SumConst(n: nat, f: nat -> int, c: int)
    requires forall i: nat :: i < n ==> f(i) == c
    ensures Sum(n, f) == n * c
  {
    if n > 0 {
      SumConst(n - 1, f, c);
    }
  }

  /** A sum with one term that may differ from zero. */
  lemma {:induction false} SumSingle(n: nat, f: nat -> int, k: nat)
    requires k < n && forall i: nat :: i < n && i != k ==> f(i) == 0
    ensures Sum(n, f) == f(k)
  {
    if k == n - 1 {
      SumZero(n - 1, f);
    } else {
      SumSingle(n - 1, f, k);
    }
  }

  lemma {:induction false} SumZeroIff(n: nat, f: nat -> int)
    requires forall i: nat :: i < n ==> f(i) >= 0
    ensures Sum(n, f) >= 0
    ensures Sum(n, f) == 0 <==> forall i: nat :: i < n ==> f(i) == 0
  {
    if n > 0 {
      SumZeroIff(n - 1, f);
    }
  }

  /** Row i and column j of a table, and the sums of the rows and columns. */
  function Row(f: (nat, nat) -> int, i: nat): nat -> int {
    (j: nat) => f(i, j)
  }

  function Column(f: (nat, nat) -> int, j: nat): nat -> int {
    (i: nat) => f(i, j)
  }

  function RowSums(m: nat, f: (nat, nat) -> int): nat -> int {
    (i: nat) => Sum(m, Row(f, i))
  }

  function ColumnSums(n: nat, f: (nat, nat) -> int): nat -> int {
    (j: nat) => Sum(n, Column(f, j))
  }

  lemma TableSame(n: nat, m: nat, f: (nat, nat) -> int, h: (nat, nat) -> int)
    requires forall i: nat, j: nat :: i < n && j < m ==> f(i, j) == h(i, j)
    ensures Sum(n, RowSums(m, f)) == Sum(n, RowSums(m, h))
  {
    forall i: nat | i < n
      ensures RowSums(m, f)(i) == RowSums(m, h)(i)
    {
      SumSame(m, Row(f, i), Row(h, i));
    }
    SumSame(n, RowSums(m, f), RowSums(m, h));
  }

  /** Rows first or columns first. */
  lemma {:induction false} SumSwap(n: nat, m: nat, f: (nat, nat) -> int)
    ensures Sum(n, RowSums(m, f)) == Sum(m, ColumnSums(n, f))
  {
    if n == 0 {
      SumZero(m, ColumnSums(0, f));
    } else {
      SumSwap(n - 1, m, f);
      forall j: nat | j < m
        ensures ColumnSums(n, f)(j) == ColumnSums(n - 1, f)(j) + Row(f, n - 1)(j)
      {
        SumMore(n - 1, Column(f, j));
      }
      SumAdd(m, ColumnSums(n - 1, f), Row(f, n - 1), ColumnSums(n, f));
    }
  }

  function Shift(h: int -> int, base: int): nat -> int {
    (i: nat) => h(base + i)
  }

  lemma {:induction false} SumSplit(a: nat, b: nat, h: int -> int, base: int)
    ensures Sum(a + b, Shift(h, base)) == Sum(a, Shift(h, base)) + Sum(b, Shift(h, base + a))
  {
    if b > 0 {
      SumSplit(a, b - 1, h, base);
    }
  }
}
