/**
 * Quantize.process: classification, reduction and assignment in a row,
 * from the image's ARGB pixels to a colour model and one index byte per
 * pixel.
 */
module Quantize {
  import opened JavaInt
  import opened Wrappers
  import opened Octree
  import opened OctreeClassify
  import opened OctreeReduce
  import opened OctreePalette
  import opened OctreeAssign

  /** The indexed image: its colour model and its pixel indices. */
  datatype Indexed = Indexed(model: ColorModel, indices: seq<Byte>)

  /** Some pixel is not fully transparent (after the bitmask conversion). */
  predicate HasOpaque(pixels: seq<int>, alphaToBitmask: bool)
  {
    exists i :: 0 <= i < |pixels| && Channels(pixels[i], alphaToBitmask).alpha > 0
  }

  /** The opaque pixels' count is non-zero exactly when there is an opaque pixel. */
  lemma {:induction false} OpaqueSome(pixels: seq<int>, alphaToBitmask: bool)
    ensures Opaque(pixels, alphaToBitmask).unique != 0 <==> HasOpaque(pixels, alphaToBitmask)
    decreases |pixels|
  {
    if pixels != [] {
      var init := pixels[..|pixels| - 1];
      OpaqueSome(init, alphaToBitmask);
      OpaqueBounds(init, alphaToBitmask);
      if HasOpaque(init, alphaToBitmask) {
        var i :| 0 <= i < |init| && Channels(init[i], alphaToBitmask).alpha > 0;
        assert pixels[i] == init[i];
      }
      if HasOpaque(pixels, alphaToBitmask) && Channels(pixels[|pixels| - 1], alphaToBitmask).alpha == 0 {
        var i :| 0 <= i < |pixels| && Channels(pixels[i], alphaToBitmask).alpha > 0;
        assert init[i] == pixels[i];
      }
    }
  }

  /** The exceptions `process` ends in. */
  datatype Failure =
    | RootPruned   // NullPointerException: reduction has detached the root
    | WidePalette  // IllegalArgumentException: a 9-bit colour model does not fit a TYPE_BYTE_INDEXED raster

  /** The palette entries `process` needs at the least: the reserved transparent one, and one colour. */
  function Needed(pixels: seq<int>, alphaToBitmask: bool): (n: int)
    ensures 0 <= n <= 2
    ensures n == 0 <==> !HasClear(pixels, alphaToBitmask) && !HasOpaque(pixels, alphaToBitmask)
  {
    (if HasClear(pixels, alphaToBitmask) then 1 else 0) + (if HasOpaque(pixels, alphaToBitmask) then 1 else 0)
  }

  /**
   * `process`: the pixels classified into a cube whose depth comes from
   * `maxColors`, reduced to at most `maxColors` colours, then assigned.
   * It fails with `RootPruned` exactly when the reserved transparent
   * entry and one opaque colour cannot both fit, where the reduction
   * would prune the root; with `WidePalette` only when more than 256
   * colours are allowed and more than 256 remain. Otherwise the palette
   * fits in `maxColors` and in a byte, transparent pixels take the
   * reserved index 0, and every other pixel takes the index the search
   * picks: the first nearest colour node under the parent of the deepest
   * node on its path, not necessarily the nearest entry of the whole
   * palette. `cube` is the reduced Cube the palette and search come from;
   * it holds the statistics of exactly the opaque pixels.
   */
  method Process(pixels: seq<int>, maxColors: int, alphaToBitmask: bool) returns (r: Result<Indexed, Failure>, cube: Cube)
    requires |pixels| < MaxInt
    ensures r == Failure(RootPruned) <==> maxColors < Needed(pixels, alphaToBitmask)
    ensures r == Failure(WidePalette) ==> maxColors > 256
    ensures maxColors <= 256 ==> (r.Success? <==> maxColors >= Needed(pixels, alphaToBitmask))
    ensures r.Success? ==>
      var m := r.value.model;
      && m.size <= maxColors && m.size <= 256 && |r.value.indices| == |pixels| && m.bits == PaletteBits(m.size)
      && |m.entries| == m.size && AllInBox(m.entries)
      && (HasClear(pixels, alphaToBitmask) ==> |m.entries| >= 1 && m.entries[0] == Clear)
      && (m.alpha.TransparentIndex? <==> alphaToBitmask && HasClear(pixels, alphaToBitmask))
      && (m.alpha.TransparentIndex? ==> m.alpha.index == 0)
      && (m.alpha == PerEntry <==> !alphaToBitmask)
      && (forall i :: 0 <= i < |pixels| && Channels(pixels[i], alphaToBitmask).alpha == 0 ==> r.value.indices[i] == 0)
      && (forall i :: 0 <= i < |pixels| && Channels(pixels[i], alphaToBitmask).alpha > 0 ==>
            (if HasClear(pixels, alphaToBitmask) then 1 else 0) <= r.value.indices[i] < m.size)
    ensures r.Success? ==>
      && Valid(cube) && cube.numColors <= maxColors && TreeStats(cube.root) == Opaque(pixels, alphaToBitmask)
      && r.value.model == Model(cube, alphaToBitmask)
      && (forall i :: 0 <= i < |pixels| && Channels(pixels[i], alphaToBitmask).alpha > 0 ==>
            r.value.indices[i] == Pick(cube, Channels(pixels[i], alphaToBitmask), 0))
  {
    var q := Classification(pixels, maxColors, alphaToBitmask);
    OpaqueBounds(pixels, alphaToBitmask);
    OpaqueSome(pixels, alphaToBitmask);
    var reduced := Reduction(q, maxColors);
    cube := q;
    if reduced.None? {
      r := Failure(RootPruned);
      return;
    }
    cube := reduced.value;
    r := Emit(cube, pixels, alphaToBitmask);
  }

  /**
   * `assignment()` on a reduced cube: the colour model, then the raster,
   * which rejects a model of more than 256 entries; then the indices.
   * The properties `process` promises, stated on the cube.
   */
  method Emit(c: Cube, pixels: seq<int>, alphaToBitmask: bool) returns (r: Result<Indexed, Failure>)
    requires Valid(c)
    requires c.addTransparency <==> HasClear(pixels, alphaToBitmask)
    requires HasOpaque(pixels, alphaToBitmask) ==> TreeStats(c.root).unique != 0
    ensures r.Failure? <==> c.firstColor + Colours(c.root) > 256
    ensures r.Failure? ==> r.error == WidePalette
    ensures r.Success? ==> var m := r.value.model;
      && m.size <= c.numColors && m.size <= 256 && |r.value.indices| == |pixels| && m.bits == PaletteBits(m.size)
      && |m.entries| == m.size && AllInBox(m.entries)
      && (c.addTransparency ==> |m.entries| >= 1 && m.entries[0] == Clear)
      && (m.alpha.TransparentIndex? <==> alphaToBitmask && c.addTransparency)
      && (m.alpha.TransparentIndex? ==> m.alpha.index == 0)
      && (m.alpha == PerEntry <==> !alphaToBitmask)
      && (forall i :: 0 <= i < |pixels| && Channels(pixels[i], alphaToBitmask).alpha == 0 ==> r.value.indices[i] == 0)
      && (forall i :: 0 <= i < |pixels| && Channels(pixels[i], alphaToBitmask).alpha > 0 ==>
            c.firstColor <= r.value.indices[i] < m.size)
    ensures r.Success? ==>
      && r.value.model == Model(c, alphaToBitmask)
      && (forall i :: 0 <= i < |pixels| && Channels(pixels[i], alphaToBitmask).alpha > 0 ==>
            r.value.indices[i] == Pick(c, Channels(pixels[i], alphaToBitmask), 0))
  {
    var model := Model(c, alphaToBitmask);
    PaletteFacts(c);
    PaletteBitsLeast(model.size);
    if model.bits > 8 {
      return Failure(WidePalette);
    }
    var out := AssignPixels(c, pixels, alphaToBitmask);
    PaletteAllInBox(c);
    if HasOpaque(pixels, alphaToBitmask) {
      ColoursPositive(c.root);
      forall i | 0 <= i < |pixels| && Channels(pixels[i], alphaToBitmask).alpha > 0
        ensures out[i] == Pick(c, Channels(pixels[i], alphaToBitmask), 0) && c.firstColor <= out[i] < model.size
      {
        PickedByte(c, Channels(pixels[i], alphaToBitmask));
      }
    }
    r := Success(Indexed(model, out));
  }

  /** The byte written for an opaque pixel is its palette index when the palette has at most 256 entries. */
  lemma PickedByte(c: Cube, ch: Rgba)
    requires Valid(c) && Colours(c.root) >= 1 && InBox(ch) && |Palette(c).palette| <= 256
    ensures LowByte(Pick(c, ch, 0)) == Pick(c, ch, 0)
    ensures c.firstColor <= LowByte(Pick(c, ch, 0)) < |Palette(c).palette|
  {
    PickNearest(c, ch, 0);
  }
}
