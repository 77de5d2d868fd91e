/** Rendering a slider candidate: every tile is copied, scaled, from the tile
    the mapping names. Colours are copied as they are. */
module TileRendering {
  import opened Options
  import opened TileGeometry
  import opened TileMapping

  datatype Color = Color(r: nat, g: nat, b: nat, a: nat)

  const BLANK := Color(0, 0, 0, 0)

  /** A readable image: a colour for every point, also outside its bounds. */
  datatype Image = Image(bounds: Rect, at: (int, int) -> Color)

  /** The image being painted. */
  class Canvas {
    const bounds: Rect
    const pix: array2<Color>

    ghost predicate Valid() {
      bounds.WellFormed() && pix.Length0 == bounds.Dy() && pix.Length1 == bounds.Dx()
    }

    function At(x: int, y: int): Color
      requires Valid()
      reads pix
    {
      if bounds.Contains(x, y) then pix[y - bounds.minY, x - bounds.minX] else BLANK
    }

    constructor (bounds: Rect)
      requires bounds.WellFormed()
      ensures Valid() && fresh(pix) && this.bounds == bounds
      ensures forall x, y :: At(x, y) == BLANK
    {
      this.bounds := bounds;
      pix := new Color[bounds.Dy(), bounds.Dx()]((i, j) => BLANK);
    }

    /** Points outside the bounds are ignored. */
    method Set(x: int, y: int, c: Color)
      requires Valid()
      modifies pix
      ensures forall u, v :: At(u, v) == if (u, v) == (x, y) && bounds.Contains(x, y) then c else old(At(u, v))
    {
      if bounds.Contains(x, y) {
        pix[y - bounds.minY, x - bounds.minX] := c;
      }
    }
  }

  /** d steps along an axis of length to, taken along an axis of length from. */
  function Scale(d: int, from: int, to: int): int
    requires to != 0
  {
    d * from / to
  }

  /** Scaling keeps the proportion, rounded down. */
  lemma ScaleIsProportional(d: int, from: int, to: int)
    requires to > 0
    ensures Scale(d, from, to) * to <= d * from < (Scale(d, from, to) + 1) * to
  {
    var q := d * from / to;
    assert d * from == to * q + d * from % to;
    assert (q + 1) * to == q * to + to;
  }

  /** The colour that scaling src onto dst puts dx, dy into dst. */
  function Sample(img: Image, src: Rect, dst: Rect, dx: int, dy: int): Color
    requires !dst.Empty()
  {
    img.at(src.minX + Scale(dx, src.Dx(), dst.Dx()), src.minY + Scale(dy, src.Dy(), dst.Dy()))
  }

  /** What copying src onto dst leaves at a point that held c. */
  function Copied(img: Image, src: Rect, dst: Rect, x: int, y: int, c: Color): Color {
    if dst.Contains(x, y) && !src.Empty() then Sample(img, src, dst, x - dst.minX, y - dst.minY) else c
  }

  method CopyScaledTile(dst: Canvas, dstRect: Rect, src: Image, srcRect: Rect)
    requires dst.Valid()
    modifies dst.pix
    ensures forall u, v ::
      dst.At(u, v) == (
        if dst.bounds.Contains(u, v) then Copied(src, srcRect, dstRect, u, v, old(dst.At(u, v))) else BLANK)
  {
    if dstRect.Empty() || srcRect.Empty() {
      return;
    }
    var dstWidth, dstHeight := dstRect.Dx(), dstRect.Dy();
    var srcWidth, srcHeight := srcRect.Dx(), srcRect.Dy();
    for y := 0 to dstHeight
      invariant forall u, v ::
        dst.At(u, v) == (
          if dst.bounds.Contains(u, v) && v < dstRect.minY + y
          then Copied(src, srcRect, dstRect, u, v, old(dst.At(u, v)))
          else old(dst.At(u, v)))
    {
      var sy := srcRect.minY + Scale(y, srcHeight, dstHeight);
      for x := 0 to dstWidth
        invariant forall u, v ::
          dst.At(u, v) == (
            if dst.bounds.Contains(u, v) && (v < dstRect.minY + y || (v == dstRect.minY + y && u < dstRect.minX + x))
            then Copied(src, srcRect, dstRect, u, v, old(dst.At(u, v)))
            else old(dst.At(u, v)))
      {
        var sx := srcRect.minX + Scale(x, srcWidth, dstWidth);
        dst.Set(dstRect.minX + x, dstRect.minY + y, src.at(sx, sy));
      }
    }
  }

  /** One entry for every tile; an entry need not be a tile itself. */
  predicate IsMapping(m: seq<int>, g: nat) {
    |m| == g * g
  }

  /** The colour the rendered candidate shows at a point. */
  function RenderedAt(img: Image, g: nat, m: seq<int>, x: int, y: int): Color
    requires img.bounds.WellFormed() && g > 0 && IsMapping(m, g)
  {
    if !img.bounds.Contains(x, y) then BLANK
    else
      var i := TileIndex(img.bounds, g, x, y);
      Copied(img, SliderTileRect(img.bounds, g, m[i]), TileRect(img.bounds, g, i), x, y, BLANK)
  }

  function Rendered(img: Image, g: nat, m: seq<int>): (pic: Image)
    requires img.bounds.WellFormed() && g > 0 && IsMapping(m, g)
    ensures pic.bounds == img.bounds
  {
    Image(img.bounds, (x, y) => RenderedAt(img, g, m, x, y))
  }

  method RenderSliderCandidate(img: Image, gridSize: int, mapping: seq<int>) returns (r: Option<Canvas>)
    requires img.bounds.WellFormed()
    ensures r.Some? <==> gridSize > 0 && |mapping| == gridSize * gridSize
    ensures r.Some? ==>
      && fresh(r.value) && r.value.Valid() && r.value.bounds == img.bounds
      && forall x, y :: r.value.At(x, y) == Rendered(img, gridSize, mapping).at(x, y)
  {
    if gridSize <= 0 {
      return None;
    }
    if |mapping| != gridSize * gridSize {
      return None;
    }
    var canvas := new Canvas(img.bounds);
    for i := 0 to |mapping|
      invariant forall x, y ::
        canvas.At(x, y) == (
          if img.bounds.Contains(x, y) && TileIndex(img.bounds, gridSize, x, y) < i
          then RenderedAt(img, gridSize, mapping, x, y) else BLANK)
    {
      var srcRect := SliderTileRect(img.bounds, gridSize, mapping[i]);
      var dstRect := SliderTileRect(img.bounds, gridSize, i);
      SliderTileIsTile(img.bounds, gridSize, i);
      CopyScaledTile(canvas, dstRect, img, srcRect);
      forall x, y
        ensures dstRect.Contains(x, y) <==> img.bounds.Contains(x, y) && i == TileIndex(img.bounds, gridSize, x, y)
      {
        TilesPartition(img.bounds, gridSize, i, x, y);
      }
    }
    return Some(canvas);
  }

  lemma ScaleToItself(d: int, n: nat)
    requires n > 0
    ensures Scale(d, n, n) == d
  {
    QuotientAtMost(d * n, n, d);
    QuotientAtMost(d * n, n, d - 1);
  }

  lemma IdentityIsMapping(g: nat)
    ensures IsMapping(Identity(g * g), g)
  {
  }

  /** Copying a tile onto itself changes nothing. */
  lemma CopyOntoItself(img: Image, tile: Rect, x: int, y: int)
    requires tile.Contains(x, y)
    ensures Copied(img, tile, tile, x, y, BLANK) == img.at(x, y)
  {
    ScaleToItself(x - tile.minX, tile.Dx());
    ScaleToItself(y - tile.minY, tile.Dy());
  }

  /** Rendering with every tile in its place reproduces the image, for every
      size and every grid. */
  lemma IdentityReproduces(img: Image, g: nat, x: int, y: int)
    requires img.bounds.WellFormed() && g > 0 && img.bounds.Contains(x, y)
    ensures IsMapping(Identity(g * g), g)
    ensures Rendered(img, g, Identity(g * g)).at(x, y) == img.at(x, y)
  {
    hide TileRect, TileIndex, Copied, SliderTileRect;
    var i := TileIndex(img.bounds, g, x, y);
    IdentityIsMapping(g);
    TilesPartition(img.bounds, g, i, x, y);
    SliderTileIsTile(img.bounds, g, i);
    CopyOntoItself(img, TileRect(img.bounds, g, i), x, y);
  }

  lemma ScaleStaysInside(d: int, from: int, to: int)
    requires 0 <= d < to && 0 < from
    ensures 0 <= Scale(d, from, to) < from
  {
    MulMono(0, d, from);
    MulMono(d + 1, to, from);
    QuotientAtMost(d * from, to, from - 1);
    QuotientAtMost(d * from, to, -1);
  }

  // ------------------------------------------------- unscrambling a picture

  /** The cells of a grid that divides both sides all have the same size. */
  lemma EvenCells(bounds: Rect, g: nat, i: nat)
    requires bounds.WellFormed() && g > 0 && bounds.Dx() % g == 0 && bounds.Dy() % g == 0
    ensures TileRect(bounds, g, i).Dx() == bounds.Dx() / g && TileRect(bounds, g, i).Dy() == bounds.Dy() / g
  {
    hide Edge;
    EvenEdges(bounds.minX, bounds.Dx(), g, i % g);
    EvenEdges(bounds.minY, bounds.Dy(), g, i / g);
  }

  lemma EvenEdges(lo: int, size: nat, g: nat, k: nat)
    requires g > 0 && size % g == 0
    ensures Edge(lo, size, g, k + 1) - Edge(lo, size, g, k) == size / g
  {
    var w := size / g;
    assert k * size == k * w * g && (k + 1) * size == (k * w + w) * g;
    DivisionUnique(k * size, k * w, 0, g);
    DivisionUnique((k + 1) * size, k * w + w, 0, g);
  }

  /** Rendering one mapping and then another renders their composition. */
  lemma RenderingComposes(img: Image, g: nat, m: seq<int>, w: seq<int>, x: int, y: int)
    requires img.bounds.Contains(x, y) && g > 0 && IsMapping(m, g) && IsMapping(w, g)
    requires InRange(m, g * g) && InRange(w, g * g)
    requires img.bounds.Dx() % g == 0 && img.bounds.Dy() % g == 0
    ensures
      var i := TileIndex(img.bounds, g, x, y);
      var dst, src := TileRect(img.bounds, g, i), TileRect(img.bounds, g, m[w[i]]);
      Rendered(Rendered(img, g, m), g, w).at(x, y) == img.at(src.minX + (x - dst.minX), src.minY + (y - dst.minY))
  {
    hide TileRect, TileIndex, SliderTileRect;
    var i := TileIndex(img.bounds, g, x, y);
    SliderTileIsTile(img.bounds, g, w[i]);
    SliderTileIsTile(img.bounds, g, m[w[i]]);
    var dst := TileRect(img.bounds, g, i);
    var mid := TileRect(img.bounds, g, w[i]);
    TilesPartition(img.bounds, g, i, x, y);
    var dx, dy := x - dst.minX, y - dst.minY;
    EvenCells(img.bounds, g, i);
    EvenCells(img.bounds, g, w[i]);
    ScaleToItself(dx, dst.Dx());
    ScaleToItself(dy, dst.Dy());
    var u, v := mid.minX + dx, mid.minY + dy;
    TilesPartition(img.bounds, g, w[i], u, v);
    assert Rendered(Rendered(img, g, m), g, w).at(x, y) == Rendered(img, g, m).at(u, v);
    EvenCells(img.bounds, g, m[w[i]]);
  }

  /** When the grid divides the picture, rendering a list of swaps and then the
      reversed list gives the picture back: the swaps unscramble what their
      reverse scrambled. */
  lemma ReversedSwapsUnscramble(img: Image, g: nat, steps: seq<int>, x: int, y: int)
    requires img.bounds.Contains(x, y) && g > 0 && IsStepList(steps, g * g)
    requires img.bounds.Dx() % g == 0 && img.bounds.Dy() % g == 0
    ensures
      var there, back := Apply(Identity(g * g), steps), Apply(Identity(g * g), Reverse(steps));
      && IsMapping(there, g) && IsMapping(back, g)
      && Rendered(Rendered(img, g, there), g, back).at(x, y) == img.at(x, y)
  {
    hide Apply, TileIndex, TileRect, RenderedAt, Rendered;
    var there, back := Apply(Identity(g * g), steps), Apply(Identity(g * g), Reverse(steps));
    MappingIsPermutation(g * g, steps);
    RenderingComposes(img, g, there, back, x, y);
  }
}
