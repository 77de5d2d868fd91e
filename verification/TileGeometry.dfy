/** The grid of tiles over an image: rectangles cut by integer division. */
module TileGeometry {

  datatype Rect = Rect(minX: int, minY: int, maxX: int, maxY: int) {
    function Dx(): int { maxX - minX }
    function Dy(): int { maxY - minY }
    predicate WellFormed() { minX <= maxX && minY <= maxY }
    predicate Empty() { minX >= maxX || minY >= maxY }
    predicate Contains(x: int, y: int) { minX <= x < maxX && minY <= y < maxY }
  }

  /** Where the k-th of g slots begins on an axis that starts at lo. */
  function Edge(lo: int, size: nat, g: nat, k: nat): int
    requires g > 0
  {
    lo + k * size / g
  }

  function CellRect(bounds: Rect, g: nat, row: nat, col: nat): Rect
    requires bounds.WellFormed() && g > 0
  {
    Rect(Edge(bounds.minX, bounds.Dx(), g, col), Edge(bounds.minY, bounds.Dy(), g, row),
         Edge(bounds.minX, bounds.Dx(), g, col + 1), Edge(bounds.minY, bounds.Dy(), g, row + 1))
  }

  function TileRect(bounds: Rect, g: nat, index: nat): Rect
    requires bounds.WellFormed() && g > 0
  {
    CellRect(bounds, g, index / g, index % g)
  }

  // ------------------------------------------- indices that need not be tiles

  /** Division that rounds toward zero, and its remainder. */
  function Quo(a: int, n: nat): int
    requires n > 0
  {
    if a >= 0 then a / n else -(-a / n)
  }

  function Rem(a: int, n: nat): int
    requires n > 0
  {
    a - n * Quo(a, n)
  }

  function AnyEdge(lo: int, size: nat, g: nat, k: int): int
    requires g > 0
  {
    lo + Quo(k * size, g)
  }

  /** The rectangle for any index, before its corners are put in order. */
  function SliderTileCorners(bounds: Rect, g: nat, index: int): Rect
    requires bounds.WellFormed() && g > 0
  {
    var row, col := Quo(index, g), Rem(index, g);
    Rect(AnyEdge(bounds.minX, bounds.Dx(), g, col), AnyEdge(bounds.minY, bounds.Dy(), g, row),
         AnyEdge(bounds.minX, bounds.Dx(), g, col + 1), AnyEdge(bounds.minY, bounds.Dy(), g, row + 1))
  }

  function Ordered(r: Rect): Rect {
    Rect(if r.minX <= r.maxX then r.minX else r.maxX, if r.minY <= r.maxY then r.minY else r.maxY,
         if r.minX <= r.maxX then r.maxX else r.minX, if r.minY <= r.maxY then r.maxY else r.minY)
  }

  function SliderTileRect(bounds: Rect, g: nat, index: int): (r: Rect)
    requires bounds.WellFormed() && g > 0
    ensures r.WellFormed()
  {
    Ordered(SliderTileCorners(bounds, g, index))
  }

  /** The slot in which an offset along an axis lies, in closed form. */
  function Slot(offset: nat, size: nat, g: nat): (k: nat)
    requires offset < size && g > 0
    ensures k < g
  {
    SlotBelow(offset, size, g);
    ((offset + 1) * g - 1) / size
  }

  function TileIndex(bounds: Rect, g: nat, x: int, y: int): (i: nat)
    requires bounds.Contains(x, y) && g > 0
    ensures i < g * g
    ensures i / g == Slot(y - bounds.minY, bounds.Dy(), g) && i % g == Slot(x - bounds.minX, bounds.Dx(), g)
  {
    var row, col := Slot(y - bounds.minY, bounds.Dy(), g), Slot(x - bounds.minX, bounds.Dx(), g);
    CellIndex(g, row, col);
    row * g + col
  }

  // ------------------------------------------------------------ small arithmetic

  lemma MulMono(a: int, b: int, n: nat)
    requires a <= b
    ensures a * n <= b * n
  {
  }

  lemma CellIndex(g: nat, row: nat, col: nat)
    requires row < g && col < g
    ensures (row * g + col) / g == row && (row * g + col) % g == col
    ensures row * g + col < g * g
  {
    var i := row * g + col;
    DivisionUnique(i, row, col, g);
    MulMono(row + 1, g, g);
  }

  lemma DivisionUnique(a: int, q: int, r: nat, n: nat)
    requires r < n && a == q * n + r
    ensures a / n == q && a % n == r
  {
    var q', r' := a / n, a % n;
    assert a == q' * n + r';
    if q' < q {
      MulMono(q' + 1, q, n);
    } else if q < q' {
      MulMono(q + 1, q', n);
    }
  }

  /** A quotient is at most d exactly when the dividend is below (d + 1) n. */
  lemma QuotientAtMost(a: int, n: nat, d: int)
    requires n > 0
    ensures a / n <= d <==> a < (d + 1) * n
  {
    var q := a / n;
    assert q * n <= a < (q + 1) * n;
    if q <= d {
      MulMono(q + 1, d + 1, n);
    } else {
      MulMono(d + 1, q, n);
    }
  }

  lemma SlotBelow(offset: nat, size: nat, g: nat)
    requires offset < size && g > 0
    ensures 0 <= ((offset + 1) * g - 1) / size < g
  {
    MulMono(1, offset + 1, g);
    MulMono(offset + 1, size, g);
    QuotientAtMost((offset + 1) * g - 1, size, g - 1);
    QuotientAtMost((offset + 1) * g - 1, size, -1);
  }

  // ---------------------------------------------------------------- partition

  /** Slot k begins at or before a point exactly when k is at most its slot. */
  lemma EdgeAtMost(lo: int, size: nat, g: nat, k: nat, x: int)
    requires g > 0 && lo <= x < lo + size
    ensures Edge(lo, size, g, k) <= x <==> k <= Slot(x - lo, size, g)
  {
    var d := x - lo;
    var m := (d + 1) * g - 1;
    QuotientAtMost(k * size, g, d);
    QuotientAtMost(m, size, k - 1);
  }

  /** Every point of the axis lies in one slot only, and it is Slot. */
  lemma SlotIsTheOne(lo: int, size: nat, g: nat, k: nat, x: int)
    requires g > 0 && lo <= x < lo + size
    ensures Edge(lo, size, g, k) <= x < Edge(lo, size, g, k + 1) <==> k == Slot(x - lo, size, g)
  {
    EdgeAtMost(lo, size, g, k, x);
    EdgeAtMost(lo, size, g, k + 1, x);
  }

  lemma EdgesMonotone(lo: int, size: nat, g: nat, j: nat, k: nat)
    requires g > 0 && j <= k
    ensures Edge(lo, size, g, j) <= Edge(lo, size, g, k)
  {
    MulMono(j, k, size);
    var d := k * size / g;
    QuotientAtMost(k * size, g, d);
    QuotientAtMost(j * size, g, d);
  }

  /** Slot k begins k g-ths along the axis, rounded down to a point. */
  lemma EdgeRoundsDown(lo: int, size: nat, g: nat, k: nat)
    requires g > 0
    ensures 0 <= k * size - (Edge(lo, size, g, k) - lo) * g < g
  {
    assert k * size == g * (k * size / g) + k * size % g;
  }

  /** Row and column of an index that need not be a tile: the quotient rounds
      toward zero and the remainder has the sign of the index. */
  lemma QuoTowardZero(a: int, n: nat)
    requires n > 0
    ensures a == Quo(a, n) * n + Rem(a, n)
    ensures if a >= 0 then 0 <= Rem(a, n) < n else -(n as int) < Rem(a, n) <= 0
  {
    if a >= 0 {
      assert a == n * (a / n) + a % n;
    } else {
      assert -a == n * (-a / n) + -a % n;
    }
  }

  /** The first slot begins where the axis begins, the last ends where it ends. */
  lemma EdgesSpan(lo: int, size: nat, g: nat)
    requires g > 0
    ensures Edge(lo, size, g, 0) == lo && Edge(lo, size, g, g) == lo + size
  {
    DivisionUnique(g * size, size, 0, g);
    DivisionUnique(0 * size, 0, 0, g);
  }

  lemma EdgesInside(lo: int, size: nat, g: nat, k: nat)
    requires g > 0 && k <= g
    ensures lo <= Edge(lo, size, g, k) <= lo + size
  {
    EdgesSpan(lo, size, g);
    EdgesMonotone(lo, size, g, 0, k);
    EdgesMonotone(lo, size, g, k, g);
  }

  lemma TileInside(bounds: Rect, g: nat, i: nat, x: int, y: int)
    requires bounds.WellFormed() && g > 0 && i < g * g && TileRect(bounds, g, i).Contains(x, y)
    ensures bounds.Contains(x, y)
  {
    hide Edge;
    QuotientAtMost(i, g, g - 1);
    EdgesInside(bounds.minX, bounds.Dx(), g, i % g);
    EdgesInside(bounds.minX, bounds.Dx(), g, i % g + 1);
    EdgesInside(bounds.minY, bounds.Dy(), g, i / g);
    EdgesInside(bounds.minY, bounds.Dy(), g, i / g + 1);
  }

  lemma SameQuotientAndRemainder(a: nat, b: nat, n: nat)
    requires n > 0
    ensures a == b <==> a / n == b / n && a % n == b % n
  {
    assert a == a / n * n + a % n && b == b / n * n + b % n;
  }

  /** The tiles partition the rectangle: a pixel lies in tile i exactly when it
      lies in the rectangle and i is the index computed for it. */
  lemma TilesPartition(bounds: Rect, g: nat, i: nat, x: int, y: int)
    requires bounds.WellFormed() && g > 0 && i < g * g
    ensures TileRect(bounds, g, i).Contains(x, y) <==> bounds.Contains(x, y) && i == TileIndex(bounds, g, x, y)
  {
    hide Edge, Slot, TileIndex;
    if TileRect(bounds, g, i).Contains(x, y) {
      TileInside(bounds, g, i, x, y);
    }
    if bounds.Contains(x, y) {
      SlotIsTheOne(bounds.minX, bounds.Dx(), g, i % g, x);
      SlotIsTheOne(bounds.minY, bounds.Dy(), g, i / g, y);
      SameQuotientAndRemainder(i, TileIndex(bounds, g, x, y), g);
    }
  }

  lemma AnyEdgeMirrors(lo: int, size: nat, g: nat, k: nat)
    requires g > 0
    ensures AnyEdge(lo, size, g, k) == Edge(lo, size, g, k)
    ensures AnyEdge(lo, size, g, 0 - k) == lo - (Edge(lo, size, g, k) - lo)
  {
    assert (0 - k) * size == 0 - k * size;
  }

  lemma AnyEdgesMonotone(lo: int, size: nat, g: nat, k: int)
    requires g > 0
    ensures AnyEdge(lo, size, g, k) <= AnyEdge(lo, size, g, k + 1)
    ensures size >= g ==> AnyEdge(lo, size, g, k) < AnyEdge(lo, size, g, k + 1)
  {
    hide AnyEdge, Edge;
    SlotsNonemptyIff(lo, size, g);
    if k >= 0 {
      AnyEdgeMirrors(lo, size, g, k);
      AnyEdgeMirrors(lo, size, g, k + 1);
      EdgesMonotone(lo, size, g, k, k + 1);
    } else {
      AnyEdgeMirrors(lo, size, g, -k);
      AnyEdgeMirrors(lo, size, g, -k - 1);
      EdgesMonotone(lo, size, g, -k - 1, -k);
      assert size >= g ==> Edge(lo, size, g, -k - 1) < Edge(lo, size, g, -k - 1 + 1);
    }
  }

  /** Swapping the corners of a tile into order changes nothing, whatever the
      index; and no tile is empty when there are at least as many points as
      slots on both sides. */
  lemma TilesAreCanonical(bounds: Rect, g: nat, index: int)
    requires bounds.WellFormed() && g > 0
    ensures SliderTileRect(bounds, g, index) == SliderTileCorners(bounds, g, index)
    ensures bounds.Dx() >= g && bounds.Dy() >= g ==> !SliderTileRect(bounds, g, index).Empty()
  {
    hide AnyEdge, Quo, Rem;
    AnyEdgesMonotone(bounds.minX, bounds.Dx(), g, Rem(index, g));
    AnyEdgesMonotone(bounds.minY, bounds.Dy(), g, Quo(index, g));
  }

  /** For an index that is a tile, the rectangle is that tile. */
  lemma SliderTileIsTile(bounds: Rect, g: nat, i: nat)
    requires bounds.WellFormed() && g > 0
    ensures SliderTileRect(bounds, g, i) == TileRect(bounds, g, i)
  {
    hide Edge, AnyEdge;
    TilesAreCanonical(bounds, g, i);
    assert i == g * (i / g) + i % g;
    AnyEdgeMirrors(bounds.minX, bounds.Dx(), g, i % g);
    AnyEdgeMirrors(bounds.minX, bounds.Dx(), g, i % g + 1);
    AnyEdgeMirrors(bounds.minY, bounds.Dy(), g, i / g);
    AnyEdgeMirrors(bounds.minY, bounds.Dy(), g, i / g + 1);
  }

  /** Every slot holds at least one point exactly when there are no more slots
      than points. */
  lemma SlotsNonemptyIff(lo: int, size: nat, g: nat)
    requires g > 0
    ensures size >= g ==> forall k: nat :: Edge(lo, size, g, k) < Edge(lo, size, g, k + 1)
    ensures size < g ==> Edge(lo, size, g, 0) == Edge(lo, size, g, 1)
  {
    if size >= g {
      forall k: nat
        ensures Edge(lo, size, g, k) < Edge(lo, size, g, k + 1)
      {
        var q := k * size / g;
        QuotientAtMost(k * size, g, q);
        QuotientAtMost(k * size, g, q - 1);
        QuotientAtMost((k + 1) * size, g, q);
        assert (k + 1) * size == k * size + size;
      }
    } else {
      DivisionUnique(0 * size, 0, 0, g);
      DivisionUnique(1 * size, 0, size, g);
    }
  }
}
