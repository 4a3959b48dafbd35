/**
 * The two ImageIO GIF writers. The one over GifAcmeEncoder quantizes an
 * image that is not indexed to 256 colours with bitmask alpha; the one
 * over the dump GifEncoder indexes the image's exact colours and, when
 * there are too many, quantizes to 256 colours and indexes again.
 */
module GifWriters {
  import opened JavaInt
  import opened Wrappers
  import opened Bits
  import opened GifFormat
  import opened Octree
  import opened OctreeClassify
  import opened OctreePalette
  import opened OctreeAssign
  import Q = Quantize
  import GifAcme
  import GifDump

  // ----- GifWriter.GifImageWriter: quantize, then GifAcmeEncoder -----

  /** A colour model entry's red, green and blue, as the encoder writes them into the colour table. */
  function RgbOf(c: Rgba): (r: Rgb)
    requires InBox(c)
    ensures r.red == c.red && r.green == c.green && r.blue == c.blue
  {
    Rgb(c.red, c.green, c.blue)
  }

  /**
   * The image Quantize.process returns, as GifAcmeEncoder sees it: an
   * IndexColorModel whose transparent pixel is the reserved entry (or -1),
   * and a raster of palette indices.
   */
  function Quantized(width: int, height: int, x: Q.Indexed): (src: GifAcme.Source)
    requires AllInBox(x.model.entries)
    ensures src.indexed && |src.colors| == |x.model.entries| && src.pixels == x.indices
  {
    GifAcme.Source(width, height, true,
      seq(|x.model.entries|, i requires 0 <= i < |x.model.entries| => RgbOf(x.model.entries[i])),
      if x.model.alpha.TransparentIndex? then x.model.alpha.index else -1,
      x.indices)
  }

  /**
   * `write` of the writer over GifAcmeEncoder: an indexed image goes to the
   * encoder as it is; any other is first quantized to 256 colours with
   * alpha turned into a bitmask. For a non-indexed image with pixels the
   * write never fails, and a reader of the file finds every pixel naming
   * an entry of the colour table, the pixels under alpha 0x80 at the
   * transparent index 0, and the others never at it.
   */
  method WriteAcme(img: GifAcme.Source) returns (r: Result<seq<Byte>, GifAcme.Error>)
    requires |img.pixels| < MaxInt
    ensures img.indexed ==> r == GifAcme.Encode(img)
    ensures !img.indexed && |img.pixels| > 0 ==>
      && r.Success? && Read(r.value).Some?
      && var p := Read(r.value).value;
      && p.width == img.width % 65536 && p.height == img.height % 65536
      && |p.pixels| == |img.pixels|
      && (forall i :: 0 <= i < |p.pixels| ==> 0 <= p.pixels[i] < |p.colors|)
      && (p.transparent.Some? <==> HasClear(img.pixels, true))
      && (forall i :: 0 <= i < |img.pixels| && Channels(img.pixels[i], true).alpha == 0 ==>
            p.pixels[i] == 0 && p.transparent == Some(0))
      && (forall i :: 0 <= i < |img.pixels| && Channels(img.pixels[i], true).alpha > 0 ==>
            p.transparent.None? || p.pixels[i] != 0)
  {
    if img.indexed {
      r := GifAcme.Encode(img);
      return;
    }
    var x, _ := Q.Process(img.pixels, 256, true);
    assert x.Success?;
    var src := Quantized(img.width, img.height, x.value);
    r := GifAcme.Encode(src);
    if |img.pixels| > 0 {
      QuantizedReads(img, x.value, src);
    }
  }

  /** The quantized image is one the encoder writes and a reader gets back, pixel for pixel. */
  lemma QuantizedReads(img: GifAcme.Source, x: Q.Indexed, src: GifAcme.Source)
    requires |img.pixels| > 0
    requires var m := x.model;
      && m.size <= 256 && |x.indices| == |img.pixels| && |m.entries| == m.size && AllInBox(m.entries)
      && (HasClear(img.pixels, true) ==> |m.entries| >= 1 && m.entries[0] == Clear)
      && (m.alpha.TransparentIndex? <==> HasClear(img.pixels, true))
      && (m.alpha.TransparentIndex? ==> m.alpha.index == 0)
      && (forall i :: 0 <= i < |img.pixels| && Channels(img.pixels[i], true).alpha == 0 ==> x.indices[i] == 0)
      && (forall i :: 0 <= i < |img.pixels| && Channels(img.pixels[i], true).alpha > 0 ==>
            (if HasClear(img.pixels, true) then 1 else 0) <= x.indices[i] < m.size)
    requires src == Quantized(img.width, img.height, x)
    ensures GifAcme.Encode(src).Success? && Read(GifAcme.Encode(src).value) == Some(GifAcme.Expected(src))
    ensures var p := GifAcme.Expected(src);
      && p.width == img.width % 65536 && p.height == img.height % 65536
      && p.pixels == x.indices && |src.colors| <= |p.colors|
      && (p.transparent.Some? <==> HasClear(img.pixels, true))
      && (p.transparent.Some? ==> p.transparent == Some(0))
  {
    forall i | 0 <= i < |src.pixels|
      ensures 0 <= src.pixels[i] < |src.colors|
    {
      if Channels(img.pixels[i], true).alpha == 0 {
        assert HasClear(img.pixels, true);
      }
    }
    assert GifAcme.Encodable(src);
    GifAcme.EncodeReads(src);
  }

  // ----- util.GifImageWriter: exact indexing, and quantizing on "Too many colors." -----

  /** The colour the dump encoder's constructor takes for column x, row y: getRGB's pixel y * width + x. */
  function Cell(argb: seq<int>, width: nat, height: nat, x: nat, y: nat): Rgb
    requires |argb| == width * height && x < width && y < height
  {
    GifDump.CellInside(width, height, x, y);
    RgbOf(Channels(argb[y * width + x], false))
  }

  /** The dump encoder's constructor from an image: r[x][y], g[x][y], b[x][y] of getRGB's pixels, row by row. */
  function GridOf(width: nat, height: nat, argb: seq<int>): (grid: GifDump.Grid)
    requires |argb| == width * height
    ensures |grid| == width
    ensures forall x :: 0 <= x < width ==> |grid[x]| == height
    ensures forall x, y :: 0 <= x < width && 0 <= y < height ==> grid[x][y] == Cell(argb, width, height, x, y)
  {
    seq(width, x requires 0 <= x < width =>
      seq(height, y requires 0 <= y < height => Cell(argb, width, height, x, y)))
  }

  /** The quantized image's getRGB: every pixel the ARGB of its palette entry. */
  function Recoloured(x: Q.Indexed): (argb: seq<int>)
    requires AllInBox(x.model.entries)
    ensures |argb| == |x.indices|
    ensures forall i :: 0 <= i < |argb| ==> Channels(argb[i], false) == At(x.model.entries, x.indices[i])
  {
    var argb := seq(|x.indices|, i requires 0 <= i < |x.indices| => Argb(At(x.model.entries, x.indices[i])));
    assert forall i :: 0 <= i < |argb| ==> Channels(argb[i], false) == At(x.model.entries, x.indices[i]) by {
      forall i | 0 <= i < |argb|
        ensures Channels(argb[i], false) == At(x.model.entries, x.indices[i])
      {
        ChannelsOfArgb(At(x.model.entries, x.indices[i]));
      }
    }
    argb
  }

  /** The image's colours fit in the dump encoder's 256-entry table. */
  ghost predicate Indexable(width: nat, height: nat, argb: seq<int>)
    requires 1 <= width < 32768 && height < 32768 && |argb| == width * height
  {
    GifDump.ToIndexColor(GridOf(width, height, argb)).Success?
  }

  /**
   * `write` of the writer over the dump GifEncoder: the image's exact
   * colours when they fit, and otherwise the image quantized to 256
   * colours (alpha kept per entry), which always fits, so the second
   * encoder never throws. `written` is the getRGB of the image encoded,
   * and the file is what the encoder as written produces for it, with
   * the end code at the width before the last widening.
   */
  method WriteDump(width: nat, height: nat, argb: seq<int>) returns (file: seq<Byte>, written: seq<int>)
    requires 1 <= width < 32768 && height < 32768 && |argb| == width * height
    ensures |written| == |argb| && Indexable(width, height, written)
    ensures file == GifDump.Write(GifDump.ToIndexColor(GridOf(width, height, written)).value)
    ensures written == argb <==> Indexable(width, height, argb)
  {
    assert width * height <= 32767 * 32767 by {
      MulLe(width, 32767, height);
      MulLe(height, 32767, 32767);
    }
    var grid := GridOf(width, height, argb);
    if GifDump.ToIndexColor(grid).Success? {
      file, written := GifDump.Write(GifDump.ToIndexColor(grid).value), argb;
      return;
    }
    var x, _ := Q.Process(argb, 256, false);
    assert x.Success?;
    written := Recoloured(x.value);
    ReducedIndexable(width, height, x.value);
    file := GifDump.Write(GifDump.ToIndexColor(GridOf(width, height, written)).value);
  }

  /**
   * The same writer over the dump encoder with the end code written at
   * the width a decoder reads it with (GifDump.WriteFixed): a reader gets
   * back the size, the colour table and the indices of the image encoded.
   */
  method WriteDumpFixed(width: nat, height: nat, argb: seq<int>) returns (file: seq<Byte>, written: seq<int>)
    requires 1 <= width < 32768 && height < 32768 && |argb| == width * height
    ensures |written| == |argb| && Indexable(width, height, written)
    ensures written == argb <==> Indexable(width, height, argb)
    ensures file == GifDump.WriteFixed(GifDump.ToIndexColor(GridOf(width, height, written)).value)
    ensures height >= 1 ==>
      var ix := GifDump.ToIndexColor(GridOf(width, height, written)).value;
      Read(file) == Some(Picture(width, height, ix.colors, None, ix.pixels))
  {
    var _, w := WriteDump(width, height, argb);
    written := w;
    file := GifDump.WriteFixed(GifDump.ToIndexColor(GridOf(width, height, written)).value);
    DumpReads(width, height, written);
  }

  /** An indexable image, written by the corrected encoder, reads back as its size, table and indices. */
  lemma DumpReads(width: nat, height: nat, argb: seq<int>)
    requires 1 <= width < 32768 && height < 32768 && |argb| == width * height
    requires Indexable(width, height, argb)
    ensures height >= 1 ==>
      var ix := GifDump.ToIndexColor(GridOf(width, height, argb)).value;
      Read(GifDump.WriteFixed(ix)) == Some(Picture(width, height, ix.colors, None, ix.pixels))
  {
    if height >= 1 {
      var grid := GridOf(width, height, argb);
      assert |grid| == width && |grid[0]| == height;
      assert GifDump.Rectangular(grid);
      assert width % 65536 == width && height % 65536 == height;
      GifDump.WriteFixedReads(grid);
    }
  }

  /** Opaque black, red, green and blue as getRGB returns them. */
  const QuadArgb: seq<int> := [-0x100_0000, -0x1_0000, -0xFF_0100, -0xFF_FF01]

  /** The eleven pixels of GifDump.AlignedRow, as an 11 by 1 image. */
  const AlignedArgb: seq<int> := [QuadArgb[0], QuadArgb[1], QuadArgb[2], QuadArgb[3], QuadArgb[0], QuadArgb[2],
                                  QuadArgb[1], QuadArgb[3], QuadArgb[1], QuadArgb[0], QuadArgb[3]]

  /**
   * An image the dump writer encodes unchanged, whose file a reader
   * rejects: with WriteDump's contract, the writer as written emits an
   * unreadable file for it, where WriteDumpFixed's reads back.
   */
  lemma AlignedDumpUnreadable()
    ensures |AlignedArgb| == 11 * 1 && Indexable(11, 1, AlignedArgb)
    ensures Read(GifDump.Write(GifDump.ToIndexColor(GridOf(11, 1, AlignedArgb)).value)) == None
  {
    var grid := GridOf(11, 1, AlignedArgb);
    forall x | 0 <= x < 11
      ensures grid[x] == GifDump.AlignedGrid()[x]
    {
      assert Cell(AlignedArgb, 11, 1, x, 0) == GifDump.AlignedRow[x];
    }
    assert grid == GifDump.AlignedGrid();
    GifDump.WriteUnreadable();
  }

  /** Every colour of the quantized image is one of at most 256 palette entries, so it indexes exactly. */
  lemma ReducedIndexable(width: nat, height: nat, x: Q.Indexed)
    requires 1 <= width < 32768 && height < 32768 && |x.indices| == width * height
    requires AllInBox(x.model.entries)
    ensures Indexable(width, height, Recoloured(x))
  {
    var argb := Recoloured(x);
    var grid := GridOf(width, height, argb);
    var palette := set k | 0 <= k < 256 :: RgbOf(At(x.model.entries, k));
    if GifDump.ToIndexColor(grid).Failure? {
      var many := GifDump.ToIndexColorFails(grid);
      forall i | 0 <= i < |many|
        ensures many[i] in palette
      {
        var px, py :| 0 <= px < |grid| && 0 <= py < |grid[0]| && grid[px][py] == many[i];
        var k := ReducedCell(width, height, x, px, py);
        assert RgbOf(At(x.model.entries, k)) in palette;
      }
      Pigeonhole(many, palette);
      RangeImage(x.model.entries, 256);
      assert false;
    }
  }

  /** A pixel of the quantized image shows the colour of one of the 256 palette slots. */
  lemma ReducedCell(width: nat, height: nat, x: Q.Indexed, px: nat, py: nat) returns (k: Byte)
    requires 1 <= width && |x.indices| == width * height && AllInBox(x.model.entries)
    requires px < width && py < height
    ensures GridOf(width, height, Recoloured(x))[px][py] == RgbOf(At(x.model.entries, k))
  {
    var argb := Recoloured(x);
    GifDump.CellInside(width, height, px, py);
    var j := py * width + px;
    k := x.indices[j];
    assert Channels(argb[j], false) == At(x.model.entries, k);
  }

  /** Distinct colours, all drawn from a set: no more of them than the set holds. */
  lemma {:induction false} Pigeonhole(many: seq<Rgb>, s: set<Rgb>)
    requires GifDump.Distinct(many)
    requires forall i :: 0 <= i < |many| ==> many[i] in s
    ensures |many| <= |s|
    decreases |many|
  {
    if many != [] {
      var last := many[|many| - 1];
      var init := many[..|many| - 1];
      forall i | 0 <= i < |init|
        ensures init[i] in s - {last}
      {
        assert init[i] == many[i];
      }
      Pigeonhole(init, s - {last});
    }
  }

  /** The colours of the first n palette slots are at most n. */
  lemma {:induction false} RangeImage(entries: seq<Rgba>, n: nat)
    requires AllInBox(entries)
    ensures |set k | 0 <= k < n :: RgbOf(At(entries, k))| <= n
  {
    if n > 0 {
      RangeImage(entries, n - 1);
      var before := set k | 0 <= k < n - 1 :: RgbOf(At(entries, k));
      assert (set k | 0 <= k < n :: RgbOf(At(entries, k))) == before + {RgbOf(At(entries, n - 1))};
    }
  }
}
