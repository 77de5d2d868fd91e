/** Scoring a slider candidate without rendering it. */
module TileScore {
  import opened Options
  import opened TileGeometry
  import opened TileMapping
  import opened TileRendering
  import opened Sums

  function MinInt(left: int, right: int): int {
    if left < right then left else right
  }

  function AbsDiff(left: nat, right: nat): nat {
    if left > right then left - right else right - left
  }

  function PixelDiff(left: Color, right: Color): (d: nat)
    ensures d == 0 <==> left.r == right.r && left.g == right.g && left.b == right.b
  {
    AbsDiff(left.r, right.r) + AbsDiff(left.g, right.g) + AbsDiff(left.b, right.b)
  }

  /** The difference is symmetric, grows by as much as a channel moves away, and
      ignores the fourth channel. With the zero case this leaves the sum of the
      distances of red, green and blue. */
  lemma PixelDiffIsDistance(left: Color, right: Color, k: nat)
    ensures PixelDiff(left, right) == PixelDiff(right, left)
    ensures left.r <= right.r ==> PixelDiff(left, right.(r := right.r + k)) == PixelDiff(left, right) + k
    ensures left.g <= right.g ==> PixelDiff(left, right.(g := right.g + k)) == PixelDiff(left, right) + k
    ensures left.b <= right.b ==> PixelDiff(left, right.(b := right.b + k)) == PixelDiff(left, right) + k
    ensures PixelDiff(left, right.(a := k)) == PixelDiff(left, right)
  {
  }

  // ----------------------------------------------- jumps in a picture's colours

  /** The colour jump across the vertical border after grid column k, by row. */
  function JumpX(pic: Image, g: nat, k: nat): int -> int
    requires pic.bounds.WellFormed() && g > 0
  {
    var x := Edge(pic.bounds.minX, pic.bounds.Dx(), g, k + 1);
    y => PixelDiff(pic.at(x - 1, y), pic.at(x, y))
  }

  /** The colour jump across the horizontal border after grid row k, by column. */
  function JumpY(pic: Image, g: nat, k: nat): int -> int
    requires pic.bounds.WellFormed() && g > 0
  {
    var y := Edge(pic.bounds.minY, pic.bounds.Dy(), g, k + 1);
    x => PixelDiff(pic.at(x, y - 1), pic.at(x, y))
  }

  function SlotLength(lo: int, size: nat, g: nat, k: nat): nat
    requires g > 0
  {
    EdgesMonotone(lo, size, g, k, k + 1);
    Edge(lo, size, g, k + 1) - Edge(lo, size, g, k)
  }

  /** The sum of h over each slot of an axis. */
  function Along(lo: int, size: nat, g: nat, h: int -> int): nat -> int
    requires g > 0
  {
    (k: nat) => Sum(SlotLength(lo, size, g, k), Shift(h, Edge(lo, size, g, k)))
  }

  /** The jumps along the seam right of each tile, and below each tile. */
  function SeamsX(pic: Image, g: nat): (nat, nat) -> int
    requires pic.bounds.WellFormed() && g > 0
  {
    (row: nat, col: nat) => Along(pic.bounds.minY, pic.bounds.Dy(), g, JumpX(pic, g, col))(row)
  }

  function SeamsY(pic: Image, g: nat): (nat, nat) -> int
    requires pic.bounds.WellFormed() && g > 0
  {
    (row: nat, col: nat) => Along(pic.bounds.minX, pic.bounds.Dx(), g, JumpY(pic, g, row))(col)
  }

  /** The jumps across all seams of the grid, tile by tile. */
  function SeamTotal(pic: Image, g: nat): int
    requires pic.bounds.WellFormed() && g > 0
  {
    Sum(g, RowSums(g - 1, SeamsX(pic, g))) + Sum(g - 1, RowSums(g, SeamsY(pic, g)))
  }

  // -------------------------------------------- whole borders instead of seams

  /** The sum up to b is the sum up to a and the stretch between. */
  lemma SumUpTo(lo: int, a: int, b: int, h: int -> int)
    requires lo <= a <= b
    ensures Sum(b - lo, Shift(h, lo)) == Sum(a - lo, Shift(h, lo)) + Sum(b - a, Shift(h, a))
  {
    hide Sum, Shift;
    SumSplit(a - lo, b - a, h, lo);
  }

  /** One slot's sum is what it adds to the sum up to its beginning. */
  lemma AlongSlot(lo: int, size: nat, g: nat, h: int -> int, k: nat)
    requires g > 0
    ensures lo <= Edge(lo, size, g, k) <= Edge(lo, size, g, k + 1)
    ensures Sum(Edge(lo, size, g, k + 1) - lo, Shift(h, lo))
         == Sum(Edge(lo, size, g, k) - lo, Shift(h, lo)) + Along(lo, size, g, h)(k)
  {
    hide Edge, Sum, Shift;
    EdgesSpan(lo, size, g);
    EdgesMonotone(lo, size, g, 0, k);
    EdgesMonotone(lo, size, g, k, k + 1);
    SumUpTo(lo, Edge(lo, size, g, k), Edge(lo, size, g, k + 1), h);
  }

  /** The sum over all slots is the sum over the axis. */
  lemma {:induction false} AlongTotal(lo: int, size: nat, g: nat, h: int -> int, n: nat)
    requires g > 0
    ensures Edge(lo, size, g, n) >= lo
    ensures Sum(n, Along(lo, size, g, h)) == Sum(Edge(lo, size, g, n) - lo, Shift(h, lo))
  {
    hide Edge, Along, Shift;
    if n == 0 {
      EdgesSpan(lo, size, g);
    } else {
      AlongTotal(lo, size, g, h, n - 1);
      AlongSlot(lo, size, g, h, n - 1);
    }
  }

  function BordersX(pic: Image, g: nat): nat -> int
    requires pic.bounds.WellFormed() && g > 0
  {
    (k: nat) => Sum(pic.bounds.Dy(), Shift(JumpX(pic, g, k), pic.bounds.minY))
  }

  function BordersY(pic: Image, g: nat): nat -> int
    requires pic.bounds.WellFormed() && g > 0
  {
    (k: nat) => Sum(pic.bounds.Dx(), Shift(JumpY(pic, g, k), pic.bounds.minX))
  }

  lemma JumpsNonnegative(pic: Image, g: nat, k: nat)
    requires pic.bounds.WellFormed() && g > 0
    ensures forall y :: JumpX(pic, g, k)(y) >= 0
    ensures forall x :: JumpY(pic, g, k)(x) >= 0
  {
  }

  /** Tile by tile or border by border: the total is the sum, over the inner
      grid lines, of the colour jumps along the whole line. */
  lemma SeamTotalIsBorderTotal(pic: Image, g: nat)
    requires pic.bounds.WellFormed() && g > 0
    ensures SeamTotal(pic, g) == Sum(g - 1, BordersX(pic, g)) + Sum(g - 1, BordersY(pic, g))
  {
    hide Edge, Sum, JumpX, JumpY;
    var b := pic.bounds;
    EdgesSpan(b.minX, b.Dx(), g);
    EdgesSpan(b.minY, b.Dy(), g);
    SumSwap(g, g - 1, SeamsX(pic, g));
    forall k: nat | k < g - 1
      ensures ColumnSums(g, SeamsX(pic, g))(k) == BordersX(pic, g)(k)
      ensures RowSums(g, SeamsY(pic, g))(k) == BordersY(pic, g)(k)
    {
      SumSame(g, Column(SeamsX(pic, g), k), Along(b.minY, b.Dy(), g, JumpX(pic, g, k)));
      SumSame(g, Row(SeamsY(pic, g), k), Along(b.minX, b.Dx(), g, JumpY(pic, g, k)));
      AlongTotal(b.minY, b.Dy(), g, JumpX(pic, g, k), g);
      AlongTotal(b.minX, b.Dx(), g, JumpY(pic, g, k), g);
    }
    SumSame(g - 1, ColumnSums(g, SeamsX(pic, g)), BordersX(pic, g));
    SumSame(g - 1, RowSums(g, SeamsY(pic, g)), BordersY(pic, g));
  }

  ghost predicate SmoothX(pic: Image, g: nat, k: nat)
    requires pic.bounds.WellFormed() && g > 0
  {
    forall y :: pic.bounds.minY <= y < pic.bounds.maxY ==> JumpX(pic, g, k)(y) == 0
  }

  ghost predicate SmoothY(pic: Image, g: nat, k: nat)
    requires pic.bounds.WellFormed() && g > 0
  {
    forall x :: pic.bounds.minX <= x < pic.bounds.maxX ==> JumpY(pic, g, k)(x) == 0
  }

  lemma BorderZeroIff(h: int -> int, lo: int, n: nat)
    requires forall x :: h(x) >= 0
    ensures Sum(n, Shift(h, lo)) >= 0
    ensures Sum(n, Shift(h, lo)) == 0 <==> forall x :: lo <= x < lo + n ==> h(x) == 0
  {
    SumZeroIff(n, Shift(h, lo));
    if Sum(n, Shift(h, lo)) == 0 {
      forall x | lo <= x < lo + n
        ensures h(x) == 0
      {
        assert Shift(h, lo)(x - lo) == 0;
      }
    }
  }

  /** The total is never negative, and it is zero exactly when the colours go
      on unchanged across every inner grid line. */
  lemma ZeroIffSmooth(pic: Image, g: nat)
    requires pic.bounds.WellFormed() && g > 0
    ensures SeamTotal(pic, g) >= 0
    ensures SeamTotal(pic, g) == 0 <==> forall k: nat :: k < g - 1 ==> SmoothX(pic, g, k) && SmoothY(pic, g, k)
  {
    hide Edge, Sum, JumpX, JumpY, SeamTotal;
    SeamTotalIsBorderTotal(pic, g);
    forall k: nat | k < g - 1
      ensures BordersX(pic, g)(k) >= 0 && (BordersX(pic, g)(k) == 0 <==> SmoothX(pic, g, k))
      ensures BordersY(pic, g)(k) >= 0 && (BordersY(pic, g)(k) == 0 <==> SmoothY(pic, g, k))
    {
      JumpsNonnegative(pic, g, k);
      BorderZeroIff(JumpX(pic, g, k), pic.bounds.minY, pic.bounds.Dy());
      BorderZeroIff(JumpY(pic, g, k), pic.bounds.minX, pic.bounds.Dx());
    }
    SumZeroIff(g - 1, BordersX(pic, g));
    SumZeroIff(g - 1, BordersY(pic, g));
  }

  /** The picture has one colour left of the line after grid column k and, on
      the line and beyond, another that is larger by d in each channel. */
  ghost predicate StepsAtColumn(pic: Image, g: nat, k: nat, c: Color, d: nat)
    requires pic.bounds.WellFormed() && g > 0
  {
    forall x, y :: pic.bounds.Contains(x, y) ==>
      pic.at(x, y) == if x < Edge(pic.bounds.minX, pic.bounds.Dx(), g, k + 1) then c
                      else Color(c.r + d, c.g + d, c.b + d, c.a)
  }

  ghost predicate StepsAtRow(pic: Image, g: nat, k: nat, c: Color, d: nat)
    requires pic.bounds.WellFormed() && g > 0
  {
    forall x, y :: pic.bounds.Contains(x, y) ==>
      pic.at(x, y) == if y < Edge(pic.bounds.minY, pic.bounds.Dy(), g, k + 1) then c
                      else Color(c.r + d, c.g + d, c.b + d, c.a)
  }

  /** Two inner edges of an axis with a point in every slot lie apart. */
  lemma InnerEdgesApart(lo: int, size: nat, g: nat, j: nat, k: nat)
    requires g > 1 && j < g - 1 && k < g - 1 && size >= g
    ensures lo < Edge(lo, size, g, j + 1) < lo + size
    ensures j < k ==> Edge(lo, size, g, j + 1) < Edge(lo, size, g, k + 1)
  {
    hide Edge;
    InnerEdge(lo, size, g, j);
    if j < k {
      SlotsNonemptyIff(lo, size, g);
      EdgesMonotone(lo, size, g, j + 2, k + 1);
    }
  }

  lemma StepJumpsX(pic: Image, g: nat, k: nat, c: Color, d: nat, j: nat, y: int)
    requires pic.bounds.WellFormed() && g > 1 && k < g - 1 && j < g - 1 && Large(pic.bounds, g)
    requires StepsAtColumn(pic, g, k, c, d) && pic.bounds.minY <= y < pic.bounds.maxY
    ensures JumpX(pic, g, j)(y) == if j == k then 3 * d else 0
  {
    hide Edge;
    var lo, size := pic.bounds.minX, pic.bounds.Dx();
    InnerEdgesApart(lo, size, g, j, k);
    InnerEdgesApart(lo, size, g, k, j);
    var x := Edge(lo, size, g, j + 1);
    assert pic.bounds.Contains(x - 1, y) && pic.bounds.Contains(x, y);
  }

  lemma StepJumpsY(pic: Image, g: nat, k: nat, c: Color, d: nat, j: nat, x: int)
    requires pic.bounds.WellFormed() && g > 1 && k < g - 1 && j < g - 1 && Large(pic.bounds, g)
    requires StepsAtRow(pic, g, k, c, d) && pic.bounds.minX <= x < pic.bounds.maxX
    ensures JumpY(pic, g, j)(x) == if j == k then 3 * d else 0
  {
    hide Edge;
    var lo, size := pic.bounds.minY, pic.bounds.Dy();
    InnerEdgesApart(lo, size, g, j, k);
    InnerEdgesApart(lo, size, g, k, j);
    var y := Edge(lo, size, g, j + 1);
    assert pic.bounds.Contains(x, y - 1) && pic.bounds.Contains(x, y);
  }

  /** A colour that steps along columns only has no jump across rows. */
  lemma StepKeepsRows(pic: Image, g: nat, k: nat, c: Color, d: nat, j: nat, x: int)
    requires pic.bounds.WellFormed() && g > 1 && j < g - 1 && Large(pic.bounds, g)
    requires StepsAtColumn(pic, g, k, c, d) && pic.bounds.minX <= x < pic.bounds.maxX
    ensures JumpY(pic, g, j)(x) == 0
  {
    hide Edge;
    InnerEdge(pic.bounds.minY, pic.bounds.Dy(), g, j);
    var y := Edge(pic.bounds.minY, pic.bounds.Dy(), g, j + 1);
    assert pic.bounds.Contains(x, y - 1) && pic.bounds.Contains(x, y);
  }

  lemma StepKeepsColumns(pic: Image, g: nat, k: nat, c: Color, d: nat, j: nat, y: int)
    requires pic.bounds.WellFormed() && g > 1 && j < g - 1 && Large(pic.bounds, g)
    requires StepsAtRow(pic, g, k, c, d) && pic.bounds.minY <= y < pic.bounds.maxY
    ensures JumpX(pic, g, j)(y) == 0
  {
    hide Edge;
    InnerEdge(pic.bounds.minX, pic.bounds.Dx(), g, j);
    var x := Edge(pic.bounds.minX, pic.bounds.Dx(), g, j + 1);
    assert pic.bounds.Contains(x - 1, y) && pic.bounds.Contains(x, y);
  }

  lemma BorderConst(h: int -> int, lo: int, n: nat, c: int)
    requires forall x :: lo <= x < lo + n ==> h(x) == c
    ensures Sum(n, Shift(h, lo)) == n * c
  {
    SumConst(n, Shift(h, lo), c);
  }

  /** One jump of d in each channel, along one inner grid line: the total is
      three times d for every pixel of the line. */
  lemma StepTotalX(pic: Image, g: nat, k: nat, c: Color, d: nat)
    requires pic.bounds.WellFormed() && g > 1 && k < g - 1 && Large(pic.bounds, g) && StepsAtColumn(pic, g, k, c, d)
    ensures SeamTotal(pic, g) == pic.bounds.Dy() * (3 * d)
  {
    hide Edge, Sum, JumpX, JumpY, SeamTotal, StepsAtColumn, Large;
    SeamTotalIsBorderTotal(pic, g);
    forall j: nat | j < g - 1
      ensures BordersX(pic, g)(j) == if j == k then pic.bounds.Dy() * (3 * d) else 0
      ensures BordersY(pic, g)(j) == 0
    {
      forall y | pic.bounds.minY <= y < pic.bounds.maxY
        ensures JumpX(pic, g, j)(y) == if j == k then 3 * d else 0
      {
        StepJumpsX(pic, g, k, c, d, j, y);
      }
      forall x | pic.bounds.minX <= x < pic.bounds.maxX
        ensures JumpY(pic, g, j)(x) == 0
      {
        StepKeepsRows(pic, g, k, c, d, j, x);
      }
      BorderConst(JumpX(pic, g, j), pic.bounds.minY, pic.bounds.Dy(), if j == k then 3 * d else 0);
      BorderConst(JumpY(pic, g, j), pic.bounds.minX, pic.bounds.Dx(), 0);
    }
    SumSingle(g - 1, BordersX(pic, g), k);
    SumZero(g - 1, BordersY(pic, g));
  }

  lemma StepTotalY(pic: Image, g: nat, k: nat, c: Color, d: nat)
    requires pic.bounds.WellFormed() && g > 1 && k < g - 1 && Large(pic.bounds, g) && StepsAtRow(pic, g, k, c, d)
    ensures SeamTotal(pic, g) == pic.bounds.Dx() * (3 * d)
  {
    hide Edge, Sum, JumpX, JumpY, SeamTotal, StepsAtRow, Large;
    SeamTotalIsBorderTotal(pic, g);
    forall j: nat | j < g - 1
      ensures BordersY(pic, g)(j) == if j == k then pic.bounds.Dx() * (3 * d) else 0
      ensures BordersX(pic, g)(j) == 0
    {
      forall x | pic.bounds.minX <= x < pic.bounds.maxX
        ensures JumpY(pic, g, j)(x) == if j == k then 3 * d else 0
      {
        StepJumpsY(pic, g, k, c, d, j, x);
      }
      forall y | pic.bounds.minY <= y < pic.bounds.maxY
        ensures JumpX(pic, g, j)(y) == 0
      {
        StepKeepsColumns(pic, g, k, c, d, j, y);
      }
      BorderConst(JumpY(pic, g, j), pic.bounds.minX, pic.bounds.Dx(), if j == k then 3 * d else 0);
      BorderConst(JumpX(pic, g, j), pic.bounds.minY, pic.bounds.Dy(), 0);
    }
    SumSingle(g - 1, BordersY(pic, g), k);
    SumZero(g - 1, BordersX(pic, g));
  }

  // ----------------------------------------------------- scoring, not rendering

  /** No tile is empty, or there is no seam. */
  predicate Large(bounds: Rect, g: int) {
    g <= 1 || (bounds.Dx() >= g && bounds.Dy() >= g)
  }

  /** Scoring divides by the sizes of all tiles but those of the last column and
      row; none is zero exactly when the image is at least as large as the grid. */
  lemma DivisorsNonzeroIff(bounds: Rect, g: nat)
    requires bounds.WellFormed() && g > 1
    ensures
      (forall row: nat, col: nat :: row < g - 1 && col < g - 1 ==> !CellRect(bounds, g, row, col).Empty())
      <==> Large(bounds, g)
  {
    SlotsNonemptyIff(bounds.minX, bounds.Dx(), g);
    SlotsNonemptyIff(bounds.minY, bounds.Dy(), g);
    if !Large(bounds, g) {
      assert CellRect(bounds, g, 0, 0).Empty();
    }
  }

  lemma TileNonempty(bounds: Rect, g: nat, i: nat)
    requires bounds.WellFormed() && g > 1 && Large(bounds, g)
    ensures !TileRect(bounds, g, i).Empty()
  {
    TilesAreCanonical(bounds, g, i);
    SliderTileIsTile(bounds, g, i);
  }

  /** A pixel of the rendered candidate, by tile and place in the tile. */
  lemma RenderedPixel(img: Image, g: nat, m: seq<int>, i: nat, dx: nat, dy: nat)
    requires img.bounds.WellFormed() && g > 1 && IsMapping(m, g) && Large(img.bounds, g) && i < g * g
    requires dx < TileRect(img.bounds, g, i).Dx() && dy < TileRect(img.bounds, g, i).Dy()
    ensures
      var dst := TileRect(img.bounds, g, i);
      Rendered(img, g, m).at(dst.minX + dx, dst.minY + dy)
        == Sample(img, SliderTileRect(img.bounds, g, m[i]), dst, dx, dy)
  {
    hide TileRect, TileIndex, SliderTileRect;
    var dst := TileRect(img.bounds, g, i);
    TilesPartition(img.bounds, g, i, dst.minX + dx, dst.minY + dy);
    TilesAreCanonical(img.bounds, g, m[i]);
  }

  /** Tile i is the cell in that row and column. */
  predicate IsCell(bounds: Rect, g: nat, i: nat, row: nat, col: nat)
    requires bounds.WellFormed() && g > 0
  {
    i < g * g && TileRect(bounds, g, i) == CellRect(bounds, g, row, col)
  }

  function Index(g: nat, row: nat, col: nat): nat {
    row * g + col
  }

  lemma CellsByIndex(bounds: Rect, g: nat, row: nat, col: nat)
    requires bounds.WellFormed() && row < g && col < g
    ensures IsCell(bounds, g, Index(g, row, col), row, col)
  {
    CellIndex(g, row, col);
  }

  /** What the scorer reads on either side of a seam between columns is what the
      rendered candidate shows on either side of the border. */
  lemma AcrossIsJump(img: Image, g: nat, m: seq<int>, row: nat, col: nat, i: nat, j: nat, offset: nat)
    requires img.bounds.WellFormed() && g > 1 && IsMapping(m, g) && Large(img.bounds, g)
    requires IsCell(img.bounds, g, i, row, col) && IsCell(img.bounds, g, j, row, col + 1)
    requires offset < SlotLength(img.bounds.minY, img.bounds.Dy(), g, row)
    ensures !TileRect(img.bounds, g, i).Empty() && !TileRect(img.bounds, g, j).Empty()
    ensures
      var left, right := TileRect(img.bounds, g, i), TileRect(img.bounds, g, j);
      var srcLeft, srcRight := SliderTileRect(img.bounds, g, m[i]), SliderTileRect(img.bounds, g, m[j]);
      JumpX(Rendered(img, g, m), g, col)(Edge(img.bounds.minY, img.bounds.Dy(), g, row) + offset)
      == PixelDiff(Sample(img, srcLeft, left, left.Dx() - 1, offset), Sample(img, srcRight, right, 0, offset))
  {
    hide Edge, TileRect, SliderTileRect, RenderedAt, PixelDiff, Sample, Large;
    TileNonempty(img.bounds, g, i);
    TileNonempty(img.bounds, g, j);
    RenderedPixel(img, g, m, i, TileRect(img.bounds, g, i).Dx() - 1, offset);
    RenderedPixel(img, g, m, j, 0, offset);
  }

  /** Likewise for a seam between rows. */
  lemma DownIsJump(img: Image, g: nat, m: seq<int>, row: nat, col: nat, i: nat, j: nat, offset: nat)
    requires img.bounds.WellFormed() && g > 1 && IsMapping(m, g) && Large(img.bounds, g)
    requires IsCell(img.bounds, g, i, row, col) && IsCell(img.bounds, g, j, row + 1, col)
    requires offset < SlotLength(img.bounds.minX, img.bounds.Dx(), g, col)
    ensures !TileRect(img.bounds, g, i).Empty() && !TileRect(img.bounds, g, j).Empty()
    ensures
      var top, bottom := TileRect(img.bounds, g, i), TileRect(img.bounds, g, j);
      var srcTop, srcBottom := SliderTileRect(img.bounds, g, m[i]), SliderTileRect(img.bounds, g, m[j]);
      JumpY(Rendered(img, g, m), g, row)(Edge(img.bounds.minX, img.bounds.Dx(), g, col) + offset)
      == PixelDiff(Sample(img, srcTop, top, offset, top.Dy() - 1), Sample(img, srcBottom, bottom, offset, 0))
  {
    hide Edge, TileRect, SliderTileRect, RenderedAt, PixelDiff, Sample, Large;
    TileNonempty(img.bounds, g, i);
    TileNonempty(img.bounds, g, j);
    RenderedPixel(img, g, m, i, offset, TileRect(img.bounds, g, i).Dy() - 1);
    RenderedPixel(img, g, m, j, offset, 0);
  }

  lemma ZeroSteps(from: int, to: int)
    requires to > 0
    ensures Scale(0, from, to) == 0
  {
  }

  /** The scorer runs to its end: it reads every entry of the mapping and
      divides by tile sizes, unless there is no seam. */
  predicate Scorable(bounds: Rect, g: int, entries: nat) {
    g <= 1 || (entries >= g * g && Large(bounds, g))
  }

  lemma NotScorable(bounds: Rect, g: nat, entries: nat, i: nat)
    requires bounds.WellFormed() && g > 1 && (TileRect(bounds, g, i).Dx() == 0 || TileRect(bounds, g, i).Dy() == 0)
    ensures !Scorable(bounds, g, entries)
  {
    if Large(bounds, g) {
      TileNonempty(bounds, g, i);
    }
  }

  /** The jumps that the rendered candidate shows, when there is an entry for
      every tile. */
  ghost function ShownX(img: Image, g: nat, mapping: seq<int>, col: nat): int -> int
    requires img.bounds.WellFormed() && g > 0
  {
    if |mapping| >= g * g then JumpX(Rendered(img, g, mapping[..g * g]), g, col) else y => 0
  }

  ghost function ShownY(img: Image, g: nat, mapping: seq<int>, row: nat): int -> int
    requires img.bounds.WellFormed() && g > 0
  {
    if |mapping| >= g * g then JumpY(Rendered(img, g, mapping[..g * g]), g, row) else x => 0
  }

  lemma ReadAcross(img: Image, g: nat, mapping: seq<int>, row: nat, col: nat, i: nat, j: nat, offset: nat)
    requires img.bounds.WellFormed() && g > 1 && Scorable(img.bounds, g, |mapping|)
    requires IsCell(img.bounds, g, i, row, col) && IsCell(img.bounds, g, j, row, col + 1)
    requires offset < SlotLength(img.bounds.minY, img.bounds.Dy(), g, row)
    ensures
      var left, right := SliderTileRect(img.bounds, g, i), SliderTileRect(img.bounds, g, j);
      var srcLeft, srcRight := SliderTileRect(img.bounds, g, mapping[i]), SliderTileRect(img.bounds, g, mapping[j]);
      && left.Dx() > 0 && left.Dy() > 0 && right.Dy() > 0
      && ShownX(img, g, mapping, col)(Edge(img.bounds.minY, img.bounds.Dy(), g, row) + offset)
         == PixelDiff(img.at(srcLeft.minX + Scale(left.Dx() - 1, srcLeft.Dx(), left.Dx()),
                             srcLeft.minY + Scale(offset, srcLeft.Dy(), left.Dy())),
                      img.at(srcRight.minX, srcRight.minY + Scale(offset, srcRight.Dy(), right.Dy())))
  {
    hide Edge, TileRect, SliderTileRect, Large, PixelDiff, Scale, JumpX, Rendered, SlotLength;
    SliderTileIsTile(img.bounds, g, i);
    SliderTileIsTile(img.bounds, g, j);
    AcrossIsJump(img, g, mapping[..g * g], row, col, i, j, offset);
    ZeroSteps(SliderTileRect(img.bounds, g, mapping[j]).Dx(), TileRect(img.bounds, g, j).Dx());
  }

  lemma ReadDown(img: Image, g: nat, mapping: seq<int>, row: nat, col: nat, i: nat, j: nat, offset: nat)
    requires img.bounds.WellFormed() && g > 1 && Scorable(img.bounds, g, |mapping|)
    requires IsCell(img.bounds, g, i, row, col) && IsCell(img.bounds, g, j, row + 1, col)
    requires offset < SlotLength(img.bounds.minX, img.bounds.Dx(), g, col)
    ensures
      var top, bottom := SliderTileRect(img.bounds, g, i), SliderTileRect(img.bounds, g, j);
      var srcTop, srcBottom := SliderTileRect(img.bounds, g, mapping[i]), SliderTileRect(img.bounds, g, mapping[j]);
      && top.Dx() > 0 && top.Dy() > 0 && bottom.Dx() > 0
      && ShownY(img, g, mapping, row)(Edge(img.bounds.minX, img.bounds.Dx(), g, col) + offset)
         == PixelDiff(img.at(srcTop.minX + Scale(offset, srcTop.Dx(), top.Dx()),
                             srcTop.minY + Scale(top.Dy() - 1, srcTop.Dy(), top.Dy())),
                      img.at(srcBottom.minX + Scale(offset, srcBottom.Dx(), bottom.Dx()), srcBottom.minY))
  {
    hide Edge, TileRect, SliderTileRect, Large, PixelDiff, Scale, JumpY, Rendered, SlotLength;
    SliderTileIsTile(img.bounds, g, i);
    SliderTileIsTile(img.bounds, g, j);
    DownIsJump(img, g, mapping[..g * g], row, col, i, j, offset);
    ZeroSteps(SliderTileRect(img.bounds, g, mapping[j]).Dy(), TileRect(img.bounds, g, j).Dy());
  }

  /** The colour differences along one seam between columns. The width of the
      left tile is divided by: without any there is no result. */
  method ScoreAcross(img: Image, g: nat, mapping: seq<int>, dstLeftIndex: nat, dstRightIndex: nat,
                     ghost row: nat, ghost col: nat)
    returns (r: Option<int>)
    requires img.bounds.WellFormed() && g > 1 && dstLeftIndex < |mapping| && dstRightIndex < |mapping|
    requires IsCell(img.bounds, g, dstLeftIndex, row, col) && IsCell(img.bounds, g, dstRightIndex, row, col + 1)
    ensures r.Some? <==> SlotLength(img.bounds.minX, img.bounds.Dx(), g, col) > 0
    ensures Scorable(img.bounds, g, |mapping|) ==>
      r == Some(Along(img.bounds.minY, img.bounds.Dy(), g, ShownX(img, g, mapping, col))(row))
  {
    hide Edge, TileRect, SliderTileRect, Scorable, Large, PixelDiff, ShownX, Scale, Sum;
    SliderTileIsTile(img.bounds, g, dstLeftIndex);
    SliderTileIsTile(img.bounds, g, dstRightIndex);
    var dstLeftRect := SliderTileRect(img.bounds, g, dstLeftIndex);
    var dstRightRect := SliderTileRect(img.bounds, g, dstRightIndex);
    var srcLeftRect := SliderTileRect(img.bounds, g, mapping[dstLeftIndex]);
    var srcRightRect := SliderTileRect(img.bounds, g, mapping[dstRightIndex]);
    var height := MinInt(dstLeftRect.Dy(), dstRightRect.Dy());
    if dstLeftRect.Dx() == 0 {
      NotScorable(img.bounds, g, |mapping|, dstLeftIndex);
      return None;
    }
    var leftSrcXRel := Scale(dstLeftRect.Dx() - 1, srcLeftRect.Dx(), dstLeftRect.Dx());
    var sxLeft := srcLeftRect.minX + leftSrcXRel;
    var sxRight := srcRightRect.minX;
    ghost var top := Edge(img.bounds.minY, img.bounds.Dy(), g, row);
    ghost var jump := ShownX(img, g, mapping, col);
    var score := 0;
    SumNone(Shift(jump, top));
    for offset := 0 to height
      invariant Scorable(img.bounds, g, |mapping|) ==> score == Sum(offset, Shift(jump, top))
    {
      var syLeft := srcLeftRect.minY + Scale(offset, srcLeftRect.Dy(), dstLeftRect.Dy());
      var syRight := srcRightRect.minY + Scale(offset, srcRightRect.Dy(), dstRightRect.Dy());
      if Scorable(img.bounds, g, |mapping|) {
        ReadAcross(img, g, mapping, row, col, dstLeftIndex, dstRightIndex, offset);
        SumMore(offset, Shift(jump, top));
      }
      score := score + PixelDiff(img.at(sxLeft, syLeft), img.at(sxRight, syRight));
    }
    r := Some(score);
  }

  /** The colour differences along one seam between rows. */
  method ScoreDown(img: Image, g: nat, mapping: seq<int>, dstTopIndex: nat, dstBottomIndex: nat,
                   ghost row: nat, ghost col: nat)
    returns (r: Option<int>)
    requires img.bounds.WellFormed() && g > 1 && dstTopIndex < |mapping| && dstBottomIndex < |mapping|
    requires IsCell(img.bounds, g, dstTopIndex, row, col) && IsCell(img.bounds, g, dstBottomIndex, row + 1, col)
    ensures r.Some? <==> SlotLength(img.bounds.minY, img.bounds.Dy(), g, row) > 0
    ensures Scorable(img.bounds, g, |mapping|) ==>
      r == Some(Along(img.bounds.minX, img.bounds.Dx(), g, ShownY(img, g, mapping, row))(col))
  {
    hide Edge, TileRect, SliderTileRect, Scorable, Large, PixelDiff, ShownY, Scale, Sum;
    SliderTileIsTile(img.bounds, g, dstTopIndex);
    SliderTileIsTile(img.bounds, g, dstBottomIndex);
    var dstTopRect := SliderTileRect(img.bounds, g, dstTopIndex);
    var dstBottomRect := SliderTileRect(img.bounds, g, dstBottomIndex);
    var srcTopRect := SliderTileRect(img.bounds, g, mapping[dstTopIndex]);
    var srcBottomRect := SliderTileRect(img.bounds, g, mapping[dstBottomIndex]);
    var width := MinInt(dstTopRect.Dx(), dstBottomRect.Dx());
    if dstTopRect.Dy() == 0 {
      NotScorable(img.bounds, g, |mapping|, dstTopIndex);
      return None;
    }
    var topSrcYRel := Scale(dstTopRect.Dy() - 1, srcTopRect.Dy(), dstTopRect.Dy());
    var syTop := srcTopRect.minY + topSrcYRel;
    var syBottom := srcBottomRect.minY;
    ghost var left := Edge(img.bounds.minX, img.bounds.Dx(), g, col);
    ghost var jump := ShownY(img, g, mapping, row);
    var score := 0;
    SumNone(Shift(jump, left));
    for offset := 0 to width
      invariant Scorable(img.bounds, g, |mapping|) ==> score == Sum(offset, Shift(jump, left))
    {
      var sxTop := srcTopRect.minX + Scale(offset, srcTopRect.Dx(), dstTopRect.Dx());
      var sxBottom := srcBottomRect.minX + Scale(offset, srcBottomRect.Dx(), dstBottomRect.Dx());
      if Scorable(img.bounds, g, |mapping|) {
        ReadDown(img, g, mapping, row, col, dstTopIndex, dstBottomIndex, offset);
        SumMore(offset, Shift(jump, left));
      }
      score := score + PixelDiff(img.at(sxTop, syTop), img.at(sxBottom, syBottom));
    }
    r := Some(score);
  }

  /** The seams of the rendered candidate, tile by tile. */
  ghost function Across(img: Image, g: nat, mapping: seq<int>): (nat, nat) -> int
    requires img.bounds.WellFormed() && g > 0
  {
    (row: nat, col: nat) => Along(img.bounds.minY, img.bounds.Dy(), g, ShownX(img, g, mapping, col))(row)
  }

  ghost function Down(img: Image, g: nat, mapping: seq<int>): (nat, nat) -> int
    requires img.bounds.WellFormed() && g > 0
  {
    (row: nat, col: nat) => Along(img.bounds.minX, img.bounds.Dx(), g, ShownY(img, g, mapping, row))(col)
  }

  lemma IndexBounds(g: nat, row: nat, col: nat)
    requires row < g && col < g
    ensures Index(g, row, col) < g * g && Index(g, g - 1, g - 1) == g * g - 1
  {
    CellIndex(g, row, col);
    assert (g - 1) * g + (g - 1) == g * g - 1;
  }

  /** A slot has length exactly when there are at least as many points as slots,
      if it is the first one, and otherwise in that case. */
  lemma SlotLengths(lo: int, size: nat, g: nat, k: nat)
    requires g > 0
    ensures size >= g ==> SlotLength(lo, size, g, k) > 0
    ensures k == 0 && SlotLength(lo, size, g, k) > 0 ==> size >= g
  {
    SlotsNonemptyIff(lo, size, g);
  }

  /** One more seam of a row, and one more row. */
  lemma SeamMore(f: (nat, nat) -> int, row: nat, col: nat)
    ensures Sum(0, Row(f, row)) == 0 && Sum(col + 1, Row(f, row)) == Sum(col, Row(f, row)) + f(row, col)
  {
    SumNone(Row(f, row));
    SumMore(col, Row(f, row));
  }

  lemma RowMore(f: (nat, nat) -> int, row: nat, m: nat)
    ensures Sum(0, RowSums(m, f)) == 0 && Sum(row + 1, RowSums(m, f)) == Sum(row, RowSums(m, f)) + Sum(m, Row(f, row))
  {
    SumNone(RowSums(m, f));
    SumMore(row, RowSums(m, f));
  }

  /** The seams between columns, row by row. Reading a missing entry or dividing
      by nothing ends the scoring. */
  method ScoreColumns(img: Image, g: nat, mapping: seq<int>) returns (r: Option<int>)
    requires img.bounds.WellFormed() && g > 0
    ensures r.Some? <==> g == 1 || (|mapping| >= g * g && img.bounds.Dx() >= g)
    ensures Scorable(img.bounds, g, |mapping|) ==> r == Some(Sum(g, RowSums(g - 1, Across(img, g, mapping))))
  {
    hide Scorable, Index, Along, IsCell, ShownX, SlotLength, Sum, Row, RowSums, Edge;
    ghost var across := Across(img, g, mapping);
    ghost var scorable := Scorable(img.bounds, g, |mapping|);
    IndexBounds(g, 0, 0);
    RowMore(across, 0, g - 1);
    var score := 0;
    for row := 0 to g
      invariant scorable ==> score == Sum(row, RowSums(g - 1, across))
      invariant row > 0 && g > 1 ==> img.bounds.Dx() >= g && Index(g, row - 1, g - 1) < |mapping|
    {
      RowMore(across, row, g - 1);
      SeamMore(across, row, 0);
      for col := 0 to g - 1
        invariant scorable ==> score == Sum(row, RowSums(g - 1, across)) + Sum(col, Row(across, row))
        invariant col > 0 ==> img.bounds.Dx() >= g && Index(g, row, col) < |mapping|
      {
        IndexBounds(g, row, col + 1);
        var seam := ScoreSeamX(img, g, mapping, row, col);
        if seam.None? {
          return None;
        }
        SeamMore(across, row, col);
        score := score + seam.value;
      }
    }
    r := Some(score);
  }

  method ScoreSeamX(img: Image, g: nat, mapping: seq<int>, row: nat, col: nat) returns (r: Option<int>)
    requires img.bounds.WellFormed() && row < g && col < g - 1
    ensures r.Some? ==> Index(g, row, col + 1) < |mapping| && (col == 0 ==> img.bounds.Dx() >= g)
    ensures r.None? ==> Index(g, row, col + 1) >= |mapping| || img.bounds.Dx() < g
    ensures Scorable(img.bounds, g, |mapping|) ==> r == Some(Across(img, g, mapping)(row, col))
  {
    var dstLeftIndex, dstRightIndex := Index(g, row, col), Index(g, row, col + 1);
    CellsByIndex(img.bounds, g, row, col);
    CellsByIndex(img.bounds, g, row, col + 1);
    if dstRightIndex >= |mapping| {
      return None;
    }
    hide *;
    SlotLengths(img.bounds.minX, img.bounds.Dx(), g, col);
    r := ScoreAcross(img, g, mapping, dstLeftIndex, dstRightIndex, row, col);
  }

  /** The seams between rows, row by row. */
  method ScoreRows(img: Image, g: nat, mapping: seq<int>) returns (r: Option<int>)
    requires img.bounds.WellFormed() && g > 0
    ensures r.Some? <==> g == 1 || (|mapping| >= g * g && img.bounds.Dy() >= g)
    ensures Scorable(img.bounds, g, |mapping|) ==> r == Some(Sum(g - 1, RowSums(g, Down(img, g, mapping))))
  {
    hide Scorable, Index, Along, IsCell, ShownY, SlotLength, Sum, Row, RowSums, Edge;
    ghost var down := Down(img, g, mapping);
    ghost var scorable := Scorable(img.bounds, g, |mapping|);
    IndexBounds(g, 0, 0);
    RowMore(down, 0, g);
    var score := 0;
    for row := 0 to g - 1
      invariant scorable ==> score == Sum(row, RowSums(g, down))
      invariant row > 0 ==> img.bounds.Dy() >= g && Index(g, row, g - 1) < |mapping|
    {
      RowMore(down, row, g);
      SeamMore(down, row, 0);
      for col := 0 to g
        invariant scorable ==> score == Sum(row, RowSums(g, down)) + Sum(col, Row(down, row))
        invariant col > 0 ==> img.bounds.Dy() >= g && Index(g, row + 1, col - 1) < |mapping|
      {
        IndexBounds(g, row + 1, col);
        var seam := ScoreSeamY(img, g, mapping, row, col);
        if seam.None? {
          return None;
        }
        SeamMore(down, row, col);
        score := score + seam.value;
      }
    }
    r := Some(score);
  }

  method ScoreSeamY(img: Image, g: nat, mapping: seq<int>, row: nat, col: nat) returns (r: Option<int>)
    requires img.bounds.WellFormed() && row < g - 1 && col < g
    ensures r.Some? ==> Index(g, row + 1, col) < |mapping| && (row == 0 ==> img.bounds.Dy() >= g)
    ensures r.None? ==> Index(g, row + 1, col) >= |mapping| || img.bounds.Dy() < g
    ensures Scorable(img.bounds, g, |mapping|) ==> r == Some(Down(img, g, mapping)(row, col))
  {
    var dstTopIndex, dstBottomIndex := Index(g, row, col), Index(g, row + 1, col);
    CellsByIndex(img.bounds, g, row, col);
    CellsByIndex(img.bounds, g, row + 1, col);
    if dstBottomIndex >= |mapping| {
      return None;
    }
    hide *;
    SlotLengths(img.bounds.minY, img.bounds.Dy(), g, row);
    r := ScoreDown(img, g, mapping, dstTopIndex, dstBottomIndex, row, col);
  }

  lemma SeamTotalIsShown(img: Image, g: nat, mapping: seq<int>)
    requires img.bounds.WellFormed() && g > 0 && |mapping| >= g * g
    ensures SeamTotal(Rendered(img, g, mapping[..g * g]), g)
         == Sum(g, RowSums(g - 1, Across(img, g, mapping))) + Sum(g - 1, RowSums(g, Down(img, g, mapping)))
  {
    hide Along, Sum, RowSums, RenderedAt, JumpX, JumpY;
    var pic := Rendered(img, g, mapping[..g * g]);
    forall row: nat, col: nat
      ensures SeamsX(pic, g)(row, col) == Across(img, g, mapping)(row, col)
      ensures SeamsY(pic, g)(row, col) == Down(img, g, mapping)(row, col)
    {
      assert ShownX(img, g, mapping, col) == JumpX(pic, g, col) && ShownY(img, g, mapping, row) == JumpY(pic, g, row);
    }
    TableSame(g, g - 1, SeamsX(pic, g), Across(img, g, mapping));
    TableSame(g - 1, g, SeamsY(pic, g), Down(img, g, mapping));
  }

  /** The score read off the image through the mapping is the seam total of the
      picture that rendering would paint; there is none exactly when a seam asks
      for a missing entry or divides by the size of an empty tile. */
  method ScoreSliderCandidate(img: Image, gridSize: int, mapping: seq<int>) returns (r: Option<int>)
    requires img.bounds.WellFormed()
    ensures r.Some? <==> Scorable(img.bounds, gridSize, |mapping|)
    ensures r.Some? ==>
      r.value == if gridSize <= 1 then 0
                 else SeamTotal(Rendered(img, gridSize, mapping[..gridSize * gridSize]), gridSize)
  {
    if gridSize <= 0 {
      return Some(0);
    }
    var columns := ScoreColumns(img, gridSize, mapping);
    hide Across, Down, RowSums, SeamTotal, RenderedAt;
    if columns.None? {
      return None;
    }
    var rows := ScoreRows(img, gridSize, mapping);
    if rows.None? {
      return None;
    }
    if gridSize == 1 {
      OneTile(Across(img, 1, mapping), Down(img, 1, mapping));
    } else {
      SeamTotalIsShown(img, gridSize, mapping);
    }
    r := Some(columns.value + rows.value);
  }

  lemma OneTile(across: (nat, nat) -> int, down: (nat, nat) -> int)
    ensures Sum(1, RowSums(0, across)) == 0 && Sum(0, RowSums(1, down)) == 0
  {
    RowMore(across, 0, 0);
    SumNone(Row(across, 0));
    RowMore(down, 0, 1);
  }

  lemma {:induction false} SumMatches(n: nat, f: int -> int, h: int -> int, lo: int)
    requires forall x :: lo <= x < lo + n ==> f(x) == h(x)
    ensures Sum(n, Shift(f, lo)) == Sum(n, Shift(h, lo))
  {
    SumSame(n, Shift(f, lo), Shift(h, lo));
  }

  ghost predicate SamePixels(a: Image, b: Image) {
    && a.bounds == b.bounds
    && forall x, y :: a.bounds.Contains(x, y) ==> a.at(x, y) == b.at(x, y)
  }

  /** The colours beside an inner grid line lie inside the bounds. */
  lemma JumpXAgrees(a: Image, b: Image, g: nat, k: nat, y: int)
    requires a.bounds.WellFormed() && SamePixels(a, b) && Large(a.bounds, g) && k + 1 < g
    requires a.bounds.minY <= y < a.bounds.maxY
    ensures JumpX(a, g, k)(y) == JumpX(b, g, k)(y)
  {
    hide Edge, PixelDiff;
    InnerEdge(a.bounds.minX, a.bounds.Dx(), g, k);
    var x := Edge(a.bounds.minX, a.bounds.Dx(), g, k + 1);
    assert a.bounds.Contains(x - 1, y) && a.bounds.Contains(x, y);
  }

  lemma JumpYAgrees(a: Image, b: Image, g: nat, k: nat, x: int)
    requires a.bounds.WellFormed() && SamePixels(a, b) && Large(a.bounds, g) && k + 1 < g
    requires a.bounds.minX <= x < a.bounds.maxX
    ensures JumpY(a, g, k)(x) == JumpY(b, g, k)(x)
  {
    hide Edge, PixelDiff;
    InnerEdge(a.bounds.minY, a.bounds.Dy(), g, k);
    var y := Edge(a.bounds.minY, a.bounds.Dy(), g, k + 1);
    assert a.bounds.Contains(x, y - 1) && a.bounds.Contains(x, y);
  }

  lemma BordersXAgree(a: Image, b: Image, g: nat, k: nat)
    requires a.bounds.WellFormed() && SamePixels(a, b) && Large(a.bounds, g) && k + 1 < g
    ensures BordersX(a, g)(k) == BordersX(b, g)(k)
  {
    hide Edge, Sum, Shift, JumpX, Large;
    forall y | a.bounds.minY <= y < a.bounds.maxY
      ensures JumpX(a, g, k)(y) == JumpX(b, g, k)(y)
    {
      JumpXAgrees(a, b, g, k, y);
    }
    hide SamePixels;
    SumMatches(a.bounds.Dy(), JumpX(a, g, k), JumpX(b, g, k), a.bounds.minY);
  }

  lemma BordersYAgree(a: Image, b: Image, g: nat, k: nat)
    requires a.bounds.WellFormed() && SamePixels(a, b) && Large(a.bounds, g) && k + 1 < g
    ensures BordersY(a, g)(k) == BordersY(b, g)(k)
  {
    hide Edge, Sum, Shift, JumpY, Large;
    forall x | a.bounds.minX <= x < a.bounds.maxX
      ensures JumpY(a, g, k)(x) == JumpY(b, g, k)(x)
    {
      JumpYAgrees(a, b, g, k, x);
    }
    hide SamePixels;
    SumMatches(a.bounds.Dx(), JumpY(a, g, k), JumpY(b, g, k), a.bounds.minX);
  }

  lemma {:induction false} BorderSumsAgree(a: Image, b: Image, g: nat, n: nat)
    requires a.bounds.WellFormed() && SamePixels(a, b) && Large(a.bounds, g) && n < g
    ensures Sum(n, BordersX(a, g)) == Sum(n, BordersX(b, g))
    ensures Sum(n, BordersY(a, g)) == Sum(n, BordersY(b, g))
  {
    hide BordersX, BordersY, Large;
    if n > 0 {
      BorderSumsAgree(a, b, g, n - 1);
      BordersXAgree(a, b, g, n - 1);
      BordersYAgree(a, b, g, n - 1);
    }
  }

  /** The total looks at nothing but the colours inside the bounds. */
  lemma TotalDependsOnPixels(a: Image, b: Image, g: nat)
    requires a.bounds.WellFormed() && g > 0 && SamePixels(a, b) && Large(a.bounds, g)
    ensures SeamTotal(a, g) == SeamTotal(b, g)
  {
    hide SeamTotal, Sum, BordersX, BordersY, Large, RowSums;
    SeamTotalIsBorderTotal(a, g);
    SeamTotalIsBorderTotal(b, g);
    BorderSumsAgree(a, b, g, g - 1);
  }

  lemma InnerEdge(lo: int, size: nat, g: nat, k: nat)
    requires g > 1 && k < g - 1 && size >= g
    ensures lo < Edge(lo, size, g, k + 1) < lo + size
  {
    hide Edge;
    SlotsNonemptyIff(lo, size, g);
    EdgesInside(lo, size, g, k);
    EdgesInside(lo, size, g, k + 2);
  }

  /** Scoring a mapping on the image and scoring the identity on the rendered
      image give the same: both methods return this total. */
  lemma ScoreEqualsScoreOfRendering(img: Image, g: nat, m: seq<int>)
    requires img.bounds.WellFormed() && g > 0 && IsMapping(m, g) && Large(img.bounds, g)
    ensures IsMapping(Identity(g * g), g)
    ensures SeamTotal(Rendered(img, g, m), g) == SeamTotal(Rendered(Rendered(img, g, m), g, Identity(g * g)), g)
  {
    hide RenderedAt, SeamTotal, Large, Edge;
    var pic := Rendered(img, g, m);
    IdentityIsMapping(g);
    var again := Rendered(pic, g, Identity(g * g));
    forall x, y | pic.bounds.Contains(x, y)
      ensures pic.at(x, y) == again.at(x, y)
    {
      IdentityReproduces(pic, g, x, y);
    }
    TotalDependsOnPixels(pic, again, g);
  }
}
