/**
 * The dump GifEncoder around its compressor: bitsNeeded, the exact colour
 * indexing of toIndexColor, and write's GIF87a layout with a colour table
 * of a power-of-two size and the trailer written by writeImageDescriptor.
 */
module GifDump {
  import opened JavaInt
  import opened Wrappers
  import opened Bits
  import opened GifFormat
  import L = DumpLzw
  import O = DumpOutput
  import D = LzwDecode

  // ----- bitsNeeded -----

  /** The loop of bitsNeeded: one bit, and one more for every halving that leaves something. */
  function BitLength(m: nat): (r: nat)
    ensures r >= 1 && m < Pow2(r) && (r == 1 || Pow2(r - 1) <= m)
    decreases m
  {
    if m / 2 == 0 then 1 else 1 + BitLength(m / 2)
  }

  /**
   * bitsNeeded: none for no colours; otherwise the fewest bits, at least
   * one, whose 2^bits entries hold `n` colours.
   */
  function BitsNeeded(n: nat): (b: nat)
    ensures n == 0 ==> b == 0
    ensures n >= 1 ==> b >= 1 && n <= Pow2(b) && (b == 1 || Pow2(b - 1) < n)
  {
    if n == 0 then 0 else BitLength(n - 1)
  }

  /** No smaller width, at least one bit, holds `n` colours. */
  lemma BitsNeededLeast(n: nat, b: nat)
    requires n >= 1 && b >= 1 && n <= Pow2(b)
    ensures BitsNeeded(n) <= b
  {
    var k := BitsNeeded(n);
    if k > b {
      Pow2Monotone(b, k - 1);
    }
  }

  /** A table of 2^k entries needs k bits, but one bit at least. */
  lemma BitsNeededPow2(k: nat)
    ensures BitsNeeded(Pow2(k)) == if k == 0 then 1 else k
  {
    if k == 0 {
      BitsNeededOne();
    } else {
      BitsNeededLeast(Pow2(k), k);
      BitsNeededAbove(k);
    }
  }

  lemma Pow2Step(k: nat)
    requires k >= 1
    ensures Pow2(k) == 2 * Pow2(k - 1)
  {
  }

  lemma BitsNeededOne()
    ensures BitsNeeded(Pow2(0)) == 1
  {
    assert BitLength(0) == 1;
  }

  /** 2^k colours, k at least one, do not fit in fewer than k bits. */
  lemma BitsNeededAbove(k: nat)
    requires k >= 1
    ensures BitsNeeded(Pow2(k)) >= k
  {
    WidthAbove(BitsNeeded(Pow2(k)), k);
  }

  lemma WidthAbove(b: nat, k: nat)
    requires k >= 1 && Pow2(k) <= Pow2(b)
    ensures b >= k
  {
    if b < k {
      Pow2Monotone(b, k - 1);
      Pow2Step(k);
    }
  }

  // ----- toIndexColor -----

  /** The byte[][] constructor's image: grid[x][y] is the colour at column x, row y. */
  type Grid = seq<seq<Rgb>>

  /** Every column as long as the first, and both sizes within a Java short. */
  ghost predicate Rectangular(grid: Grid)
  {
    1 <= |grid| < 32768 && |grid[0]| < 32768
    && forall x :: 0 <= x < |grid| ==> |grid[x]| == |grid[0]|
  }

  datatype Error = TooManyColors   // IOException "Too many colors."

  /** The encoder's fields after toIndexColor: size, colors_ as entries, and pixels_. */
  datatype Indexed = Indexed(width: nat, height: nat, colors: seq<Rgb>, pixels: seq<Byte>)

  ghost predicate Distinct(s: seq<Rgb>)
  {
    forall i, j :: 0 <= i < j < |s| ==> s[i] != s[j]
  }

  /** The search loop: the first entry holding `c`, or the number of entries. */
  function Search(colors: seq<Rgb>, c: Rgb): (i: nat)
    ensures i <= |colors|
    ensures i < |colors| ==> colors[i] == c
    ensures forall j :: 0 <= j < i ==> colors[j] != c
  {
    if |colors| == 0 then 0 else if colors[0] == c then 0 else 1 + Search(colors[1..], c)
  }

  /** The colours in the order toIndexColor visits them: column by column, top to bottom. */
  function Columns(grid: Grid): (s: seq<Rgb>)
    decreases |grid|
  {
    if |grid| == 0 then [] else grid[0] + Columns(grid[1..])
  }

  /**
   * The scan: each colour's index is where the search stops; a colour not
   * found is appended, and a 257th one fails.
   */
  function Collect(colors: seq<Rgb>, scan: seq<Rgb>): (r: Result<(seq<Rgb>, seq<Byte>), Error>)
    requires |colors| <= 256
    ensures r.Success? ==> colors <= r.value.0 && |r.value.0| <= 256 && |r.value.1| == |scan|
    decreases |scan|
  {
    if |scan| == 0 then Success((colors, []))
    else
      var search := Search(colors, scan[0]);
      if search > 255 then Failure(TooManyColors)
      else
        var colors' := if search == |colors| then colors + [scan[0]] else colors;
        match Collect(colors', scan[1..])
        case Failure(e) => Failure(e)
        case Success((found, idx)) => Success((found, [search as Byte] + idx))
  }

  /** One step of the scan, unfolded. */
  lemma CollectStep(colors: seq<Rgb>, scan: seq<Rgb>)
    requires |colors| <= 256 && |scan| > 0 && Collect(colors, scan).Success?
    ensures var search := Search(colors, scan[0]);
      var colors' := if search == |colors| then colors + [scan[0]] else colors;
      search <= 255 && |colors'| <= 256 && Collect(colors', scan[1..]).Success?
      && Collect(colors, scan).value == (Collect(colors', scan[1..]).value.0, [search as Byte] + Collect(colors', scan[1..]).value.1)
  {
  }

  /** Each index names the entry holding the pixel's colour. */
  lemma {:induction false} CollectIndexes(colors: seq<Rgb>, scan: seq<Rgb>)
    requires |colors| <= 256 && Collect(colors, scan).Success?
    ensures var (found, idx) := Collect(colors, scan).value;
      forall k :: 0 <= k < |scan| ==> idx[k] < |found| && found[idx[k]] == scan[k]
    decreases |scan|
  {
    if |scan| > 0 {
      CollectStep(colors, scan);
      var search := Search(colors, scan[0]);
      var colors' := if search == |colors| then colors + [scan[0]] else colors;
      CollectIndexes(colors', scan[1..]);
      var (found, idx) := Collect(colors, scan).value;
      forall k | 0 <= k < |scan| ensures idx[k] < |found| && found[idx[k]] == scan[k] {
        if k == 0 {
          assert found[search] == colors'[search];
        } else {
          assert idx[k] == Collect(colors', scan[1..]).value.1[k - 1];
        }
      }
    }
  }

  /** The entries stay distinct: a colour is appended only when the search did not find it. */
  lemma {:induction false} CollectDistinct(colors: seq<Rgb>, scan: seq<Rgb>)
    requires |colors| <= 256 && Distinct(colors) && Collect(colors, scan).Success?
    ensures Distinct(Collect(colors, scan).value.0)
    decreases |scan|
  {
    if |scan| > 0 {
      CollectStep(colors, scan);
      var search := Search(colors, scan[0]);
      var colors' := if search == |colors| then colors + [scan[0]] else colors;
      CollectDistinct(colors', scan[1..]);
    }
  }

  /** Every entry appended is a colour of the scan. */
  lemma {:induction false} CollectFromScan(colors: seq<Rgb>, scan: seq<Rgb>)
    requires |colors| <= 256 && Collect(colors, scan).Success?
    ensures var found := Collect(colors, scan).value.0;
      forall i :: |colors| <= i < |found| ==> found[i] in scan
    decreases |scan|
  {
    if |scan| > 0 {
      CollectStep(colors, scan);
      var search := Search(colors, scan[0]);
      var colors' := if search == |colors| then colors + [scan[0]] else colors;
      CollectFromScan(colors', scan[1..]);
      var found := Collect(colors, scan).value.0;
      forall i | |colors| <= i < |found| ensures found[i] in scan {
        if i >= |colors'| {
          assert found[i] in scan[1..];
        } else {
          assert found[i] == scan[0];
        }
      }
    }
  }

  /** A new index is one past an index used before it, the first new one being `n`. */
  ghost predicate InOrder(idx: seq<Byte>, n: int)
  {
    forall k {:trigger Earlier(idx, k)} :: 0 <= k < |idx| && idx[k] as int > n ==> Earlier(idx, k)
  }

  /** The index one below `idx[k]` appears before position k. */
  ghost predicate Earlier(idx: seq<Byte>, k: int)
    requires 0 <= k < |idx|
  {
    exists j :: 0 <= j < k && idx[j] as int == idx[k] as int - 1
  }

  /** Indices are handed out in order of first appearance. */
  lemma {:induction false} CollectOrder(colors: seq<Rgb>, scan: seq<Rgb>)
    requires |colors| <= 256 && Collect(colors, scan).Success?
    ensures InOrder(Collect(colors, scan).value.1, |colors|)
    decreases |scan|
  {
    if |scan| > 0 {
      CollectStep(colors, scan);
      var search := Search(colors, scan[0]);
      var colors' := if search == |colors| then colors + [scan[0]] else colors;
      CollectOrder(colors', scan[1..]);
      InOrderCons(search as Byte, Collect(colors', scan[1..]).value.1, |colors|, |colors'|);
    }
  }

  lemma InOrderCons(search: Byte, rest: seq<Byte>, n: int, n': int)
    requires search <= n && (n' == n || (n' == n + 1 && search == n)) && InOrder(rest, n')
    ensures InOrder([search] + rest, n)
  {
    var idx := [search] + rest;
    forall k | 0 <= k < |idx| && idx[k] as int > n ensures Earlier(idx, k) {
      assert k > 0 && idx[k] == rest[k - 1];
      var v := rest[k - 1] as int;
      if v > n' {
        assert Earlier(rest, k - 1);
        var j :| 0 <= j < k - 1 && rest[j] as int == v - 1;
        assert idx[j + 1] == rest[j];
      } else {
        assert idx[0] as int == v - 1;
      }
    }
  }

  /** A scan that fails holds 257 different colours. */
  lemma {:induction false} CollectFails(colors: seq<Rgb>, scan: seq<Rgb>) returns (many: seq<Rgb>)
    requires |colors| <= 256 && Distinct(colors) && Collect(colors, scan).Failure?
    ensures |many| == 257 && Distinct(many)
    ensures forall i :: 0 <= i < |many| ==> many[i] in colors || many[i] in scan
    decreases |scan|
  {
    var search := Search(colors, scan[0]);
    if search > 255 {
      many := colors + [scan[0]];
    } else {
      var colors' := if search == |colors| then colors + [scan[0]] else colors;
      many := CollectFails(colors', scan[1..]);
      forall i | 0 <= i < |many| ensures many[i] in colors || many[i] in scan {
        if many[i] !in colors && many[i] !in scan[1..] {
          assert many[i] == scan[0];
        } else if many[i] in scan[1..] {
          var k :| 0 <= k < |scan[1..]| && scan[1..][k] == many[i];
          assert scan[k + 1] == many[i];
        }
      }
    }
  }

  /** Where a pixel's colour sits in the column-major scan. */
  lemma {:induction false} ColumnsAt(grid: Grid, h: nat, x: nat, y: nat)
    requires forall i :: 0 <= i < |grid| ==> |grid[i]| == h
    requires x < |grid| && y < h
    ensures |Columns(grid)| == |grid| * h
    ensures x * h + y < |Columns(grid)| && Columns(grid)[x * h + y] == grid[x][y]
    decreases |grid|
  {
    ColumnsLength(grid, h);
    if x > 0 {
      ColumnsAt(grid[1..], h, x - 1, y);
      assert (x - 1) * h + y + h == x * h + y;
    }
  }

  lemma {:induction false} ColumnsLength(grid: Grid, h: nat)
    requires forall i :: 0 <= i < |grid| ==> |grid[i]| == h
    ensures |Columns(grid)| == |grid| * h
    decreases |grid|
  {
    if |grid| > 0 {
      ColumnsLength(grid[1..], h);
    }
  }

  /** Cell (x, y) of a w-by-h raster stored row by row lies inside it. */
  lemma CellInside(w: nat, h: nat, x: nat, y: nat)
    requires x < w && y < h
    ensures y * w + x < w * h && x * h + y < w * h
  {
    assert (y + 1) * w <= h * w by {
      MulLe(y + 1, h, w);
    }
    assert (x + 1) * h <= w * h by {
      MulLe(x + 1, w, h);
    }
  }

  /** pixels_[y * width + x] takes the index the scan gave column x, row y. */
  function RowMajor(idx: seq<Byte>, w: nat, h: nat): (pixels: seq<Byte>)
    requires w >= 1 && |idx| == w * h
    ensures |pixels| == w * h
  {
    seq(w * h, k requires 0 <= k < w * h => RowMajorCell(idx, w, h, k))
  }

  function RowMajorCell(idx: seq<Byte>, w: nat, h: nat, k: nat): Byte
    requires w >= 1 && |idx| == w * h && k < w * h
  {
    var x, y := k % w, k / w;
    assert y < h by {
      if y >= h {
        MulLe(h, y, w);
      }
    }
    CellInside(w, h, x, y);
    idx[x * h + y]
  }

  /** The cell RowMajor reads for (x, y) is the scan's. */
  lemma RowMajorAt(idx: seq<Byte>, w: nat, h: nat, x: nat, y: nat)
    requires w >= 1 && |idx| == w * h && x < w && y < h
    ensures y * w + x < w * h && x * h + y < w * h
    ensures RowMajor(idx, w, h)[y * w + x] == idx[x * h + y]
  {
    CellInside(w, h, x, y);
    var k := y * w + x;
    DivUnique(k, w, y, x);
  }

  /**
   * toIndexColor: the distinct colours in order of first appearance in a
   * column-major scan, padded with black to 2^bitsNeeded of their number,
   * and every pixel's index stored row by row.
   */
  function ToIndexColor(grid: Grid): (r: Result<Indexed, Error>)
    requires Rectangular(grid)
    ensures r.Success? ==> (r.value.width == |grid| && r.value.height == |grid[0]|
      && |r.value.pixels| == |grid| * |grid[0]| && 1 <= |r.value.colors| <= 256)
  {
    var w, h := |grid|, |grid[0]|;
    ColumnsLength(grid, h);
    match Collect([], Columns(grid))
    case Failure(e) => Failure(e)
    case Success((found, idx)) =>
      var n := Pow2(BitsNeeded(|found|));
      assert n <= 256 by {
        Pow2Byte();
        if |found| >= 1 {
          BitsNeededLeast(|found|, 8);
          Pow2Monotone(BitsNeeded(|found|), 8);
        }
      }
      Success(Indexed(w, h, Padded(found, n), RowMajor(idx, w, h)))
  }

  /** The image has more than 256 colours exactly when toIndexColor fails. */
  lemma ToIndexColorFails(grid: Grid) returns (many: seq<Rgb>)
    requires Rectangular(grid) && ToIndexColor(grid).Failure?
    ensures |many| == 257 && Distinct(many)
    ensures forall i :: 0 <= i < |many| ==> exists x, y :: 0 <= x < |grid| && 0 <= y < |grid[0]| && grid[x][y] == many[i]
  {
    ColumnsLength(grid, |grid[0]|);
    assert Collect([], Columns(grid)).Failure?;
    many := CollectFails([], Columns(grid));
    forall i | 0 <= i < |many|
      ensures exists x, y :: 0 <= x < |grid| && 0 <= y < |grid[0]| && grid[x][y] == many[i]
    {
      InColumns(grid, many[i]);
    }
  }

  /** A colour of the scan is the colour of some pixel. */
  lemma InColumns(grid: Grid, c: Rgb)
    requires Rectangular(grid) && c in Columns(grid)
    ensures exists x, y :: 0 <= x < |grid| && 0 <= y < |grid[0]| && grid[x][y] == c
  {
    var h := |grid[0]|;
    ColumnsLength(grid, h);
    var k :| 0 <= k < |Columns(grid)| && Columns(grid)[k] == c;
    var y, x := Split(k, h, |grid|);
    ColumnsAt(grid, h, x, y);
  }

  /** A position in a w-by-h raster stored row by row, as column and row. */
  lemma Split(i: nat, w: nat, h: nat) returns (x: nat, y: nat)
    requires i < w * h
    ensures x < w && y < h && i == y * w + x
  {
    x, y := i % w, i / w;
    DivUnique(i, w, y, x);
    if y >= h {
      MulLe(h, y, w);
    }
  }

  /** What toIndexColor builds its result from: the scan's entries, a prefix of the table, and its indices. */
  lemma ToIndexColorParts(grid: Grid) returns (found: seq<Rgb>, idx: seq<Byte>)
    requires Rectangular(grid) && ToIndexColor(grid).Success?
    ensures |Columns(grid)| == |grid| * |grid[0]|
    ensures Collect([], Columns(grid)) == Success((found, idx))
    ensures found <= ToIndexColor(grid).value.colors
    ensures ToIndexColor(grid).value.pixels == RowMajor(idx, |grid|, |grid[0]|)
  {
    ColumnsLength(grid, |grid[0]|);
    found, idx := Collect([], Columns(grid)).value.0, Collect([], Columns(grid)).value.1;
  }

  /**
   * Row-major placement of a scan's indices: the index stored for (x, y)
   * names, in any table that extends the found entries, the colour the scan
   * met at column x, row y.
   */
  lemma PlacedAt(found: seq<Rgb>, idx: seq<Byte>, scan: seq<Rgb>, colors: seq<Rgb>, w: nat, h: nat, x: nat, y: nat)
    requires w >= 1 && |idx| == w * h && |scan| == w * h && x < w && y < h && found <= colors
    requires forall k :: 0 <= k < |scan| ==> idx[k] < |found| && found[idx[k]] == scan[k]
    ensures y * w + x < w * h && x * h + y < w * h
    ensures RowMajor(idx, w, h)[y * w + x] < |colors| && colors[RowMajor(idx, w, h)[y * w + x]] == scan[x * h + y]
  {
    RowMajorAt(idx, w, h, x, y);
  }

  /** Pixel (x, y) of the image keeps its colour through its index in `ix`. */
  ghost predicate Kept(grid: Grid, ix: Indexed, x: nat, y: nat)
    requires x < |grid| && y < |grid[x]|
  {
    y * |grid| + x < |ix.pixels| && ix.pixels[y * |grid| + x] < |ix.colors|
    && ix.colors[ix.pixels[y * |grid| + x]] == grid[x][y]
  }

  /** One pixel of a successful toIndexColor: its index names a table entry holding its colour. */
  lemma IndexedAt(grid: Grid, x: nat, y: nat)
    requires Rectangular(grid) && ToIndexColor(grid).Success? && x < |grid| && y < |grid[0]|
    ensures Kept(grid, ToIndexColor(grid).value, x, y)
  {
    var w, h := |grid|, |grid[0]|;
    var found, idx := ToIndexColorParts(grid);
    CollectIndexes([], Columns(grid));
    ColumnsAt(grid, h, x, y);
    PlacedAt(found, idx, Columns(grid), ToIndexColor(grid).value.colors, w, h, x, y);
  }

  /** What a successful toIndexColor keeps: each pixel's colour, through its index, and pixel (0,0) at index 0. */
  lemma IndexedColors(grid: Grid)
    requires Rectangular(grid) && ToIndexColor(grid).Success?
    ensures forall x: nat, y: nat :: x < |grid| && y < |grid[0]| ==> Kept(grid, ToIndexColor(grid).value, x, y)
    ensures |ToIndexColor(grid).value.pixels| > 0 ==> ToIndexColor(grid).value.pixels[0] == 0
  {
    forall x: nat, y: nat | x < |grid| && y < |grid[0]|
      ensures Kept(grid, ToIndexColor(grid).value, x, y)
    {
      IndexedAt(grid, x, y);
    }
    FirstIndexZero(grid);
  }

  /** Pixel (0,0) is the first colour scanned and gets index 0. */
  lemma FirstIndexZero(grid: Grid)
    requires Rectangular(grid) && ToIndexColor(grid).Success?
    ensures |ToIndexColor(grid).value.pixels| > 0 ==> ToIndexColor(grid).value.pixels[0] == 0
  {
    var w, h := |grid|, |grid[0]|;
    var found, idx := ToIndexColorParts(grid);
    if h > 0 {
      CollectOrder([], Columns(grid));
      FirstOfOrder(idx);
      RowMajorAt(idx, w, h, 0, 0);
    }
  }

  /** The first index of an order starting at zero is zero. */
  lemma FirstOfOrder(idx: seq<Byte>)
    requires |idx| > 0 && InOrder(idx, 0)
    ensures idx[0] == 0
  {
    assert !Earlier(idx, 0);
  }

  /** Row-major placement moves indices around and so keeps any bound they share. */
  lemma RowMajorBelow(idx: seq<Byte>, w: nat, h: nat, bound: nat)
    requires w >= 1 && |idx| == w * h
    requires forall k :: 0 <= k < |idx| ==> idx[k] < bound
    ensures forall i :: 0 <= i < w * h ==> RowMajor(idx, w, h)[i] < bound
  {
    forall i | 0 <= i < w * h ensures RowMajor(idx, w, h)[i] < bound {
      var x, y := Split(i, w, h);
      RowMajorAt(idx, w, h, x, y);
    }
  }

  /** Every index lies below the table size. */
  lemma IndexedPixels(grid: Grid)
    requires Rectangular(grid) && ToIndexColor(grid).Success?
    ensures forall i :: 0 <= i < |ToIndexColor(grid).value.pixels| ==> ToIndexColor(grid).value.pixels[i] < |ToIndexColor(grid).value.colors|
  {
    var found, idx := ToIndexColorParts(grid);
    CollectIndexes([], Columns(grid));
    RowMajorBelow(idx, |grid|, |grid[0]|, |ToIndexColor(grid).value.colors|);
  }

  // ----- write -----

  /** writeImageDescriptor: a separator, two zero offsets, a size and zero flags. */
  function ImageDescriptor(separator: Byte, width: int, height: int): (r: seq<Byte>)
    ensures |r| == 10 && r[0] == separator && r[9] == 0
  {
    [separator] + Word(0) + Word(0) + Word(width) + Word(height) + [0]
  }

  /** write ends with the trailer written as a descriptor: ';' and nine zero bytes. */
  function TrailerBlock(): (r: seq<Byte>)
    ensures |r| == 10 && r[0] == Trailer && forall i :: 1 <= i < 10 ==> r[i] == 0
  {
    ImageDescriptor(Trailer, 0, 0)
  }

  /** writeScreenDescriptor's flags: a global table, colour resolution 7, size bitsNeeded(nColors_) - 1. */
  function ScreenFlags(nColors: nat): Byte
    requires nColors >= 1
  {
    0xF0 + (BitsNeeded(nColors) - 1) % 8
  }

  /** write: the initial code size is bitsNeeded(nColors_), raised to two from one. */
  function CodeSize(nColors: nat): (cs: nat)
    requires 1 <= nColors <= 256
    ensures 2 <= cs <= 8 && (nColors > 2 ==> cs == BitsNeeded(nColors))
  {
    var b := BitsNeeded(nColors);
    BitsNeededLeast(nColors, 8);
    if b == 1 then 2 else b
  }

  /** The file write produces around the image data `data`. */
  function ImageFile(ix: Indexed, data: seq<Byte>): (r: seq<Byte>)
    requires 1 <= |ix.colors| <= 256
    ensures |r| == 13 + 3 * |ix.colors| + 10 + 1 + |data| + 1 + 10 && r[..6] == Gif87a
  {
    Screen(Gif87a, ix.width, ix.height, ScreenFlags(|ix.colors|)) + TableBytes(ix.colors)
      + (ImageDescriptor(ImageSeparator, ix.width, ix.height) + [CodeSize(|ix.colors|)] + data + [0] + TrailerBlock())
  }

  /** write as written: the image data of writeLzwCompressed through a BitFile. */
  function Write(ix: Indexed): seq<Byte>
    requires 1 <= |ix.colors| <= 256
  {
    ImageFile(ix, O.Written(L.Compress(ix.pixels, CodeSize(|ix.colors|))))
  }

  /** write with the end code at the width the decoder reads it with. */
  function WriteFixed(ix: Indexed): seq<Byte>
    requires 1 <= |ix.colors| <= 256
  {
    ImageFile(ix, O.Written(L.CompressFixed(ix.pixels, CodeSize(|ix.colors|))))
  }

  // ----- the file reads back -----

  /** A colour table of 2^k entries, k at least one, is announced by the screen flags as such. */
  lemma FlagsOfTable(found: nat)
    requires 1 <= found <= 256
    ensures var k := BitsNeeded(found);
      1 <= k <= 8 && ScreenFlags(Pow2(k)) == 0xF0 + k - 1
  {
    var k := BitsNeeded(found);
    BitsNeededLeast(found, 8);
    BitsNeededPow2(k);
    FlagsOf(Pow2(k), k);
  }

  lemma FlagsOf(n: nat, b: nat)
    requires n >= 1 && 1 <= b <= 8 && BitsNeeded(n) == b
    ensures ScreenFlags(n) == 0xF0 + b - 1
  {
  }

  /** Reading a file write produced around image data that are whole sub-blocks. */
  lemma ReadImageFile(ix: Indexed, bytes: seq<Byte>, k: nat)
    requires 1 <= k <= 8 && |ix.colors| == Pow2(k) && |ix.colors| <= 256 && ScreenFlags(|ix.colors|) == 0xF0 + k - 1
    ensures Read(ImageFile(ix, Frame(bytes, O.BlockSize)))
      == match D.DecodeBits(D.Start(CodeSize(|ix.colors|)), CodeSize(|ix.colors|), BytesBits(bytes))
         case None => None
         case Some(pixels) => Some(Picture(ix.width % 65536, ix.height % 65536, ix.colors, None, pixels))
  {
    var cs: Byte := CodeSize(|ix.colors|);
    var data := Frame(bytes, O.BlockSize);
    var tail: seq<Byte> := TrailerBlock()[1..];
    var body: seq<Byte> := ImageDescriptor(ImageSeparator, ix.width, ix.height) + [cs] + data + [0] + TrailerBlock();
    assert body == Descriptor(ix.width, ix.height) + [cs] + data + [0] + [Trailer] + tail by {
      assert ImageDescriptor(ImageSeparator, ix.width, ix.height) == Descriptor(ix.width, ix.height);
      assert TrailerBlock() == [Trailer] + tail;
    }
    ReadWrittenImage(ix.width, ix.height, cs, bytes, O.BlockSize, tail);
    assert ImageFile(ix, data) == Screen(Gif87a, ix.width, ix.height, 0xF0 + k - 1) + TableBytes(ix.colors) + body;
    ReadWrittenSingle(Gif87a, ix.width, ix.height, k, ix.colors, body);
  }

  /**
   * A GIF reader gets back from the corrected file the size, the padded
   * colour table and the indices, and through the table every pixel's
   * colour, of any image of 256 colours or fewer.
   */
  lemma WriteFixedReads(grid: Grid)
    requires Rectangular(grid) && |grid[0]| >= 1 && ToIndexColor(grid).Success?
    ensures var ix := ToIndexColor(grid).value;
      Read(WriteFixed(ix)) == Some(Picture(|grid| % 65536, |grid[0]| % 65536, ix.colors, None, ix.pixels))
  {
    var ix := ToIndexColor(grid).value;
    var h := |grid[0]|;
    ColumnsLength(grid, h);
    var found := Collect([], Columns(grid)).value.0;
    var k := BitsNeeded(|found|);
    assert |found| >= 1 by {
      ColumnsAt(grid, h, 0, 0);
    }
    FlagsOfTable(|found|);
    var cs := CodeSize(|ix.colors|);
    assert forall i :: 0 <= i < |ix.pixels| ==> ix.pixels[i] < Pow2(cs) by {
      IndexedPixels(grid);
      BitsNeededPow2(k);
    }
    IndexedColors(grid);
    var codes := L.CompressFixed(ix.pixels, cs);
    L.CompressFixedDecodes(ix.pixels, cs);
    PackedDecodes(codes, cs, ix.pixels);
    O.WrittenFrames(codes);
    ReadImageFile(ix, PackBytes(codes), k);
  }

  // ----- the file as written does not read back -----

  /** Four colours, black first. */
  const Quad: seq<Rgb> := [Black, Rgb(255, 0, 0), Rgb(0, 255, 0), Rgb(0, 0, 255)]

  /** The row of colours whose indices are DumpLzw.Aligned. */
  const AlignedRow: seq<Rgb> := [Quad[0], Quad[1], Quad[2], Quad[3], Quad[0], Quad[2], Quad[1], Quad[3], Quad[1], Quad[0], Quad[3]]

  /** Eleven columns of one pixel each, coloured AlignedRow. */
  function AlignedGrid(): (grid: Grid)
    ensures |grid| == 11 && forall x :: 0 <= x < 11 ==> grid[x] == [AlignedRow[x]]
  {
    seq(11, x requires 0 <= x < 11 => [AlignedRow[x]])
  }

  /** A scan of colours already entered appends nothing, and each index is where the search stops. */
  lemma {:induction false} CollectKnown(colors: seq<Rgb>, scan: seq<Rgb>)
    requires |colors| <= 256 && forall k :: 0 <= k < |scan| ==> scan[k] in colors
    ensures Collect(colors, scan).Success? && Collect(colors, scan).value.0 == colors
    ensures forall k :: 0 <= k < |scan| ==> Collect(colors, scan).value.1[k] as int == Search(colors, scan[k])
    decreases |scan|
  {
    if |scan| > 0 {
      CollectKnown(colors, scan[1..]);
      assert forall k :: 1 <= k < |scan| ==> scan[k] == scan[1..][k - 1];
    }
  }

  /** A colour not yet entered is appended and gets the next index. */
  lemma CollectFresh(colors: seq<Rgb>, c: Rgb, rest: seq<Rgb>)
    requires |colors| < 256 && c !in colors && Collect(colors + [c], rest).Success?
    ensures Collect(colors, [c] + rest)
      == Success((Collect(colors + [c], rest).value.0, [|colors| as Byte] + Collect(colors + [c], rest).value.1))
  {
    assert ([c] + rest)[1..] == rest;
  }

  /** Four different colours first met in order get the indices 0 to 3. */
  lemma FirstFour(q0: Rgb, q1: Rgb, q2: Rgb, q3: Rgb, rest: seq<Rgb>, found: seq<Rgb>, idx: seq<Byte>)
    requires q0 != q1 && q0 != q2 && q0 != q3 && q1 != q2 && q1 != q3 && q2 != q3
    requires Collect([q0, q1, q2, q3], rest) == Success((found, idx))
    ensures Collect([], [q0, q1, q2, q3] + rest) == Success((found, [0, 1, 2, 3] + idx))
  {
    assert [q0, q1, q2] + [q3] == [q0, q1, q2, q3];
    CollectFresh([q0, q1, q2], q3, rest);
    assert [q0, q1] + [q2] == [q0, q1, q2];
    CollectFresh([q0, q1], q2, [q3] + rest);
    assert [q0] + [q1] == [q0, q1];
    CollectFresh([q0], q1, [q2] + ([q3] + rest));
    assert [] + [q0] == [q0];
    CollectFresh([], q0, [q1] + ([q2] + ([q3] + rest)));
    Cons4(q0, q1, q2, q3, rest);
    Cons4(0 as Byte, 1, 2, 3, idx);
  }

  lemma Cons4<T>(a: T, b: T, c: T, d: T, rest: seq<T>)
    ensures [a] + ([b] + ([c] + ([d] + rest))) == [a, b, c, d] + rest
  {
  }

  /** The scan of a grid whose columns hold one pixel each is the row. */
  lemma {:induction false} ColumnsOfSingles(grid: Grid)
    requires forall x :: 0 <= x < |grid| ==> |grid[x]| == 1
    ensures Columns(grid) == seq(|grid|, x requires 0 <= x < |grid| => grid[x][0])
    decreases |grid|
  {
    if |grid| > 0 {
      ColumnsOfSingles(grid[1..]);
    }
  }

  /** The scan after the first four pixels meets only known colours, at the indices DumpLzw.Aligned gives them. */
  lemma AlignedRest()
    ensures Collect(Quad, AlignedRow[4..]) == Success((Quad, [0, 2, 1, 3, 1, 0, 3]))
  {
    var rest := AlignedRow[4..];
    assert forall k :: 0 <= k < |rest| ==> rest[k] in Quad;
    CollectKnown(Quad, rest);
    var idx := Collect(Quad, rest).value.1;
    assert Search(Quad, Quad[0]) == 0 && Search(Quad, Quad[1]) == 1;
    assert Search(Quad, Quad[2]) == 2 && Search(Quad, Quad[3]) == 3;
    assert idx == [0, 2, 1, 3, 1, 0, 3];
  }

  /** A raster one row high is stored as scanned. */
  lemma RowMajorOneRow(idx: seq<Byte>, w: nat)
    requires w >= 1 && |idx| == w
    ensures RowMajor(idx, w, 1) == idx
  {
    forall i | 0 <= i < w ensures RowMajor(idx, w, 1)[i] == idx[i] {
      RowMajorAt(idx, w, 1, i, 0);
    }
  }

  /** The scan of AlignedGrid is AlignedRow. */
  lemma AlignedScan()
    ensures Rectangular(AlignedGrid()) && Columns(AlignedGrid()) == AlignedRow
  {
    ColumnsOfSingles(AlignedGrid());
  }

  /** Scanning AlignedRow enters the four colours and hands out the indices DumpLzw.Aligned. */
  lemma AlignedCollect()
    ensures Collect([], AlignedRow) == Success((Quad, L.Aligned))
  {
    AlignedRest();
    assert AlignedRow == [Quad[0], Quad[1], Quad[2], Quad[3]] + AlignedRow[4..];
    assert Quad == [Quad[0], Quad[1], Quad[2], Quad[3]];
    FirstFour(Quad[0], Quad[1], Quad[2], Quad[3], AlignedRow[4..], Quad, [0, 2, 1, 3, 1, 0, 3]);
    assert [0, 1, 2, 3] + [0, 2, 1, 3, 1, 0, 3] == L.Aligned;
  }

  /** toIndexColor finds the four colours in order and gives the pixels the indices DumpLzw.Aligned. */
  lemma AlignedIndexed()
    ensures Rectangular(AlignedGrid())
    ensures ToIndexColor(AlignedGrid()) == Success(Indexed(11, 1, Quad, L.Aligned))
  {
    AlignedScan();
    AlignedCollect();
    assert BitsNeeded(4) == 2 && Pow2(2) == 4;
    assert Padded(Quad, 4) == Quad;
    RowMajorOneRow(L.Aligned, 11);
  }

  /**
   * The file write produces for that image does not read back: its image
   * data end in an end code the decoder reads with too few bits.
   */
  lemma AlignedFileUnreadable()
    ensures Read(Write(Indexed(11, 1, Quad, L.Aligned))) == None
  {
    var ix := Indexed(11, 1, Quad, L.Aligned);
    assert BitsNeeded(4) == 2 && Pow2(2) == 4;
    assert CodeSize(4) == 2 && ScreenFlags(4) == 0xF0 + 2 - 1;
    var codes := L.Compress(L.Aligned, 2);
    O.WrittenFrames(codes);
    L.AlignedImage();
    ReadImageFile(ix, PackBytes(codes), 2);
  }

  /** An image of four colours whose file, as write produces it, a GIF reader cannot decode. */
  lemma WriteUnreadable()
    ensures Rectangular(AlignedGrid()) && ToIndexColor(AlignedGrid()).Success?
    ensures Read(Write(ToIndexColor(AlignedGrid()).value)) == None
  {
    AlignedIndexed();
    AlignedFileUnreadable();
  }
}
