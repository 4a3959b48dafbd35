/**
 * TileImageFilter: the tile grid it derives from the image size, the
 * delivery hints it passes on, and flipPixels, which mirrors or transposes
 * one rectangle of pixels into a fresh row-major array.
 */
module TileFilter {
  import opened JavaInt
  import opened Wrappers
  import opened Bits

  // The symmetry operations.
  const FlipNone: int := 0
  const FlipH: int := 1
  const FlipV: int := 2
  const FlipHV: int := 3
  const Flip180: int := 4

  /** The filter never changes its blending edge from zero. */
  const Edge: int := 0

  // ----- setDimensions -----

  /** The tile size and the number of tiles across and down the target. */
  datatype Tiling = Tiling(tileWidth: int, tileHeight: int, cols: int, rows: int)

  datatype Error = DivideByZero

  /**
   * setDimensions: each tile is the incoming image less the edge, and the
   * target (`targetWidth` by `targetHeight`) needs the tile count rounded up.
   * An empty image makes the division fail.
   */
  function Dimensions(targetWidth: int, targetHeight: int, width: int, height: int): (r: Result<Tiling, Error>)
    ensures r.Failure? <==> width == Edge || height == Edge
    ensures r.Success? ==> r.value.tileWidth == width && r.value.tileHeight == height
  {
    var tw, th := width - Edge, height - Edge;
    if tw == 0 || th == 0 then Failure(DivideByZero)
    else Success(Tiling(tw, th, JavaDiv(targetWidth + tw - 1, tw), JavaDiv(targetHeight + th - 1, th)))
  }

  /** For a non-empty image and a target of any size, the tiles just cover the target: one tile fewer would not. */
  lemma {:induction false} TilesCover(targetWidth: int, targetHeight: int, width: int, height: int)
    requires width > 0 && height > 0 && targetWidth >= 0 && targetHeight >= 0
    ensures Dimensions(targetWidth, targetHeight, width, height).Success?
    ensures var t := Dimensions(targetWidth, targetHeight, width, height).value;
      t.cols >= 0 && (t.cols - 1) * width < targetWidth <= t.cols * width
      && t.rows >= 0 && (t.rows - 1) * height < targetHeight <= t.rows * height
  {
    CeilingCount(targetWidth, width);
    CeilingCount(targetHeight, height);
  }

  /** `(n + d - 1) / d` is the number of d-sized pieces that cover n. */
  lemma CeilingCount(n: int, d: int)
    requires n >= 0 && d > 0
    ensures var k := JavaDiv(n + d - 1, d);
      k >= 0 && (k - 1) * d < n <= k * d
  {
    var k := JavaDiv(n + d - 1, d);
    var rest := n + d - 1 - k * d;
    assert 0 <= rest < d;
    assert k * d == n + d - 1 - rest;
    assert (k - 1) * d == k * d - d;
    if k < 0 {
      MulLe(k, -1, d);
    }
  }

  // ----- setHints -----

  const RandomPixelOrder: bv32 := 1
  const TopDownLeftRight: bv32 := 2
  const CompleteScanLines: bv32 := 4

  /** setHints: the tiles arrive in no particular order, so the in-order hints are withdrawn. */
  function Hints(hints: bv32): (r: bv32)
    ensures r & RandomPixelOrder == RandomPixelOrder
    ensures r & (TopDownLeftRight | CompleteScanLines) == 0
    ensures r & !7 == hints & !7
  {
    ((hints & !TopDownLeftRight) & !CompleteScanLines) | RandomPixelOrder
  }

  /** Passing hints through the filter a second time changes nothing. */
  lemma HintsIdempotent(hints: bv32)
    ensures Hints(Hints(hints)) == Hints(hints)
  {
  }

  // ----- flipPixels -----

  /** The width of the flipped rectangle: the diagonal flip swaps the sides. */
  function NewWidth(op: int, w: int, h: int): int
  {
    if op == FlipHV then h else w
  }

  function NewHeight(op: int, w: int, h: int): int
  {
    if op == FlipHV then w else h
  }

  /** Where the pixel at (row, col) of a w-by-h rectangle lands, as (row, col) of the flipped one. */
  function Target(op: int, w: int, h: int, row: int, col: int): (int, int)
  {
    if op == FlipH then (row, w - col - 1)
    else if op == FlipV then (h - row - 1, col)
    else if op == FlipHV then (col, row)
    else if op == Flip180 then (h - row - 1, w - col - 1)
    else (row, col)
  }

  /** The index in the new array the pixel at (row, col) is stored at. */
  function Dest(op: int, w: int, h: int, row: int, col: int): int
  {
    var t := Target(op, w, h, row, col);
    t.0 * NewWidth(op, w, h) + t.1
  }

  /** Every operation undoes itself, once the sides are swapped back for the diagonal flip. */
  lemma TargetTwice(op: int, w: int, h: int, row: int, col: int)
    ensures var t := Target(op, w, h, row, col);
      Target(op, NewWidth(op, w, h), NewHeight(op, w, h), t.0, t.1) == (row, col)
  {
  }

  /** The pixel that ends up at index i of the flipped array, as (row, col) of the original rectangle. */
  function Source(op: int, w: int, h: int, i: int): (int, int)
    requires 0 <= w && 0 <= h && 0 <= i < w * h
  {
    var nw := NewWidth(op, w, h);
    assert nw > 0;
    Target(op, nw, NewHeight(op, w, h), i / nw, i % nw)
  }

  ghost predicate Inside(w: int, h: int, p: (int, int))
  {
    0 <= p.0 < h && 0 <= p.1 < w
  }

  /** A position of the flipped rectangle, as an index of the new array. */
  lemma FlatIndex(nw: int, nh: int, r: int, c: int)
    requires 0 <= r < nh && 0 <= c < nw
    ensures 0 <= r * nw + c < nw * nh
    ensures (r * nw + c) / nw == r && (r * nw + c) % nw == c
  {
    DivUnique(r * nw + c, nw, r, c);
    MulLe(r + 1, nh, nw);
  }

  /** Every pixel of the rectangle lands inside the new array, and is the one that index takes back. */
  lemma SourceDest(op: int, w: int, h: int, row: int, col: int)
    requires 0 <= row < h && 0 <= col < w
    ensures 0 <= Dest(op, w, h, row, col) < w * h
    ensures Source(op, w, h, Dest(op, w, h, row, col)) == (row, col)
  {
    var nw, nh := NewWidth(op, w, h), NewHeight(op, w, h);
    var t := Target(op, w, h, row, col);
    FlatIndex(nw, nh, t.0, t.1);
    assert nw * nh == w * h;
    TargetTwice(op, w, h, row, col);
  }

  /** Every index of the new array takes its pixel from inside the rectangle, and that pixel lands on it. */
  lemma DestSource(op: int, w: int, h: int, i: int)
    requires 0 <= w && 0 <= h && 0 <= i < w * h
    ensures Inside(w, h, Source(op, w, h, i))
    ensures Dest(op, w, h, Source(op, w, h, i).0, Source(op, w, h, i).1) == i
  {
    var nw, nh := NewWidth(op, w, h), NewHeight(op, w, h);
    assert nw * nh == w * h;
    var r, c := i / nw, i % nw;
    assert 0 <= r < nh by {
      if r >= nh {
        MulLe(nh, r, nw);
      }
    }
    TargetTwice(op, nw, nh, r, c);
  }

  /** The Dest map is one-to-one: no two pixels of the rectangle overwrite each other. */
  lemma DestInjective(op: int, w: int, h: int, r1: int, c1: int, r2: int, c2: int)
    requires Inside(w, h, (r1, c1)) && Inside(w, h, (r2, c2))
    requires Dest(op, w, h, r1, c1) == Dest(op, w, h, r2, c2)
    ensures r1 == r2 && c1 == c2
  {
    SourceDest(op, w, h, r1, c1);
    SourceDest(op, w, h, r2, c2);
  }

  /** The array index flipPixels reads the pixel at (row, col) of the rectangle from. */
  function At(row: int, col: int, off: int, scansize: int): int
  {
    row * scansize + off + col
  }

  /** Every array index a caller's rectangle reads lies in `pixels`. */
  ghost predicate InBounds(w: int, h: int, size: int, off: int, scansize: int)
  {
    forall row, col :: 0 <= row < h && 0 <= col < w ==> 0 <= At(row, col, off, scansize) < size
  }

  /** The pixel index i of the flipped array takes, read from the caller's array. */
  function SourcePixel(op: int, w: int, h: int, pixels: seq<int>, off: int, scansize: int, i: int): int
    requires 0 <= w && 0 <= h && 0 <= i < w * h
    requires InBounds(w, h, |pixels|, off, scansize)
  {
    var s := Source(op, w, h, i);
    DestSource(op, w, h, i);
    pixels[At(s.0, s.1, off, scansize)]
  }

  /** The flipped rectangle, index by index: each takes the pixel that the operation moves there. */
  function Flipped(op: int, w: int, h: int, pixels: seq<int>, off: int, scansize: int): (r: seq<int>)
    requires 0 <= w && 0 <= h
    requires InBounds(w, h, |pixels|, off, scansize)
    ensures |r| == w * h
  {
    seq(w * h, i requires 0 <= i < w * h => SourcePixel(op, w, h, pixels, off, scansize, i))
  }

  ghost predicate Before(p: (int, int), row: int, col: int)
  {
    p.0 < row || (p.0 == row && p.1 < col)
  }

  /**
   * flipPixels: walks the rectangle row by row and stores each pixel at its
   * Dest. The result is the flipped rectangle: every index is written, by
   * the one pixel the operation moves there.
   */
  method FlipPixels(w: int, h: int, pixels: seq<int>, off: int, scansize: int, op: int) returns (out: seq<int>)
    requires 0 <= w && 0 <= h
    requires InBounds(w, h, |pixels|, off, scansize)
    ensures out == Flipped(op, w, h, pixels, off, scansize)
  {
    out := seq(NewWidth(op, w, h) * NewHeight(op, w, h), _ => 0);
    forall i | 0 <= i < w * h
      ensures Source(op, w, h, i).0 >= 0
    {
      DestSource(op, w, h, i);
    }
    var row := 0;
    while row < h
      invariant 0 <= row <= h && |out| == w * h
      invariant forall i :: 0 <= i < w * h && Source(op, w, h, i).0 < row ==>
        out[i] == SourcePixel(op, w, h, pixels, off, scansize, i)
    {
      var col := 0;
      while col < w
        invariant 0 <= col <= w && |out| == w * h
        invariant forall i :: 0 <= i < w * h && Before(Source(op, w, h, i), row, col) ==>
          out[i] == SourcePixel(op, w, h, pixels, off, scansize, i)
      {
        var index := At(row, col, off, scansize);
        var d := Dest(op, w, h, row, col);
        SourceDest(op, w, h, row, col);
        out := out[d := pixels[index]];
        forall i | 0 <= i < w * h && Before(Source(op, w, h, i), row, col + 1)
          ensures out[i] == SourcePixel(op, w, h, pixels, off, scansize, i)
        {
          if i != d {
            DestSource(op, w, h, i);
          }
        }
        col := col + 1;
      }
      forall i | 0 <= i < w * h && Source(op, w, h, i).0 < row + 1
        ensures Before(Source(op, w, h, i), row, w)
      {
        DestSource(op, w, h, i);
      }
      row := row + 1;
    }
    forall i | 0 <= i < w * h
      ensures out[i] == Flipped(op, w, h, pixels, off, scansize)[i]
    {
      DestSource(op, w, h, i);
    }
  }

  /**
   * Flipping the result again, with the sides swapped back for the diagonal
   * flip, restores the original rectangle: every operation is an involution.
   */
  lemma FlipTwice(op: int, w: int, h: int, pixels: seq<int>)
    requires 0 <= w && 0 <= h && |pixels| == w * h
    ensures InBounds(w, h, |pixels|, 0, w)
    ensures var nw, nh := NewWidth(op, w, h), NewHeight(op, w, h);
      InBounds(nw, nh, w * h, 0, nw)
      && Flipped(op, nw, nh, Flipped(op, w, h, pixels, 0, w), 0, nw) == pixels
  {
    var nw, nh := NewWidth(op, w, h), NewHeight(op, w, h);
    forall row, col | 0 <= row < h && 0 <= col < w
      ensures 0 <= At(row, col, 0, w) < |pixels|
    {
      FlatIndex(w, h, row, col);
    }
    forall row, col | 0 <= row < nh && 0 <= col < nw
      ensures 0 <= At(row, col, 0, nw) < w * h
    {
      FlatIndex(nw, nh, row, col);
    }
    var once := Flipped(op, w, h, pixels, 0, w);
    var twice := Flipped(op, nw, nh, once, 0, nw);
    forall i | 0 <= i < w * h
      ensures twice[i] == pixels[i]
    {
      assert nw * nh == w * h;
      var r, c := i / w, i % w;
      assert 0 <= r < h by {
        if r >= h {
          MulLe(h, r, w);
        }
      }
      assert i == r * w + c;
      SourceDest(op, w, h, r, c);
      var d := Dest(op, w, h, r, c);
      var t := Target(op, w, h, r, c);
      assert Source(op, nw, nh, i) == t by {
        TargetTwice(op, w, h, r, c);
      }
      assert d == t.0 * nw + t.1;
    }
  }
}
