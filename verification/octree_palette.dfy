/**
 * The palette pass of assignment: Node.mapColors numbers the nodes with
 * `unique != 0` in post-order (children 0..15 first, then the node) and
 * writes each one's rounded mean colour at its number; the palette's bit
 * depth and the colour model follow from the count.
 */
module OctreePalette {
  import opened JavaInt
  import opened Octree
  import opened OctreeClassify

  // ----- rounded means -----

  /**
   * `(byte)((total + (unique >> 1)) / unique)` read back with `& 0xff`:
   * the arithmetic shift of a Java int is a floor division, Dafny's `/`
   * by a positive constant.
   */
  function Mean(total: int, unique: int): Byte
    requires unique != 0
  {
    LowByte(JavaDiv(total + unique / 2, unique))
  }

  /** The palette entry of a node's statistics. */
  function MeanColour(s: Stats): Rgba
    requires s.unique != 0
  {
    Rgba(Mean(s.red, s.unique), Mean(s.green, s.unique), Mean(s.blue, s.unique), Mean(s.alpha, s.unique))
  }

  /** A total of values 0..255 gives the mean rounded half up, with nothing cut off by the byte. */
  lemma MeanRounds(total: int, unique: int)
    requires 0 < unique && 0 <= total <= MaxRgb * unique
    ensures Mean(total, unique) * unique <= total + unique / 2 < (Mean(total, unique) + 1) * unique
  {
    var q := JavaDiv(total + unique / 2, unique);
    assert 0 <= total + unique / 2 - q * unique < unique;
    assert total + unique / 2 < 256 * unique;
    if q >= 256 {
      MulGrows(q, 256, unique);
    }
    if q < 0 {
      MulGrows(0, q + 1, unique);
    }
    assert 0 <= q < 256;
  }

  lemma MulGrows(a: int, b: int, u: int)
    requires a >= b && u > 0
    ensures a * u >= b * u
  {
  }

  /** The colours a subtree contributes to the palette, post-order, as `unique`/total statistics. */
  function ColourStats(t: Tree): (r: seq<Stats>)
    ensures |r| == Colours(t)
    ensures forall i :: 0 <= i < |r| ==> r[i].unique != 0
    decreases t
  {
    if t.Nil? then []
    else KidsColourStats(t.children) + (if t.stats.unique != 0 then [t.stats] else [])
  }

  function KidsColourStats(kids: seq<Tree>): (r: seq<Stats>)
    ensures |r| == KidsColours(kids)
    ensures forall i :: 0 <= i < |r| ==> r[i].unique != 0
    decreases kids
  {
    if kids == [] then [] else ColourStats(kids[0]) + KidsColourStats(kids[1..])
  }

  /** The colour indices a subtree holds, post-order. */
  function Cands(t: Tree): (r: seq<int>)
    ensures |r| == Colours(t)
    decreases t
  {
    if t.Nil? then []
    else KidsCands(t.children) + (if t.stats.unique != 0 then [t.colorIndex] else [])
  }

  function KidsCands(kids: seq<Tree>): (r: seq<int>)
    ensures |r| == KidsColours(kids)
    decreases kids
  {
    if kids == [] then [] else Cands(kids[0]) + KidsCands(kids[1..])
  }

  /** The rounded means of a run of colour statistics (none of which is empty). */
  function Means(ss: seq<Stats>): (r: seq<Rgba>)
    ensures |r| == |ss|
  {
    if ss == [] then []
    else [if ss[0].unique != 0 then MeanColour(ss[0]) else Clear] + Means(ss[1..])
  }

  /** The numbers lo, lo+1, .., lo+n-1. */
  function Iota(lo: int, n: nat): (r: seq<int>)
    ensures |r| == n
  {
    seq(n, j => lo + j)
  }

  // ----- mapColors -----

  datatype Mapped = Mapped(node: Tree, palette: seq<Rgba>)

  datatype MappedKids = MappedKids(kids: seq<Tree>, palette: seq<Rgba>)

  /**
   * `mapColors()` on a node with the palette written so far: the children
   * in slot order, then the node itself takes the next index when it
   * holds statistics. Only colour indices change.
   */
  function MapNode(t: Tree, palette: seq<Rgba>): (m: Mapped)
    ensures |m.palette| == |palette| + Colours(t)
    ensures m.node.Nil? == t.Nil?
    ensures t.Node? ==>
      (m.node.Node? && m.node.level == t.level && m.node.mid == t.mid && m.node.numPixels == t.numPixels
       && m.node.stats == t.stats && |m.node.children| == |t.children|)
    ensures Colours(m.node) == Colours(t)
    decreases t
  {
    if t.Nil? then Mapped(Nil, palette)
    else
      var k := MapKids(t.children, palette);
      if t.stats.unique != 0 then
        Mapped(t.(children := k.kids, colorIndex := |k.palette|), k.palette + [MeanColour(t.stats)])
      else Mapped(t.(children := k.kids), k.palette)
  }

  function MapKids(kids: seq<Tree>, palette: seq<Rgba>): (r: MappedKids)
    ensures |r.palette| == |palette| + KidsColours(kids)
    ensures |r.kids| == |kids|
    ensures KidsColours(r.kids) == KidsColours(kids)
    decreases kids
  {
    if kids == [] then MappedKids([], palette)
    else
      var m := MapNode(kids[0], palette);
      var rest := MapKids(kids[1..], m.palette);
      MappedKids([m.node] + rest.kids, rest.palette)
  }

  // ----- what mapColors writes -----

  /** The palette grows by the subtree's rounded means, in post-order, after the entries already there. */
  lemma {:induction false} MapPalette(t: Tree, palette: seq<Rgba>)
    ensures MapNode(t, palette).palette == palette + Means(ColourStats(t))
    decreases t, 1
  {
    if t.Node? {
      var k := MapKids(t.children, palette);
      MapKidsPalette(t.children, palette);
      var own := if t.stats.unique != 0 then [t.stats] else [];
      MeansAppend(KidsColourStats(t.children), own);
    }
  }

  lemma {:induction false} MapKidsPalette(kids: seq<Tree>, palette: seq<Rgba>)
    ensures MapKids(kids, palette).palette == palette + Means(KidsColourStats(kids))
    decreases kids, 0
  {
    if kids != [] {
      var m := MapNode(kids[0], palette);
      MapPalette(kids[0], palette);
      MapKidsPalette(kids[1..], m.palette);
      MeansAppend(ColourStats(kids[0]), KidsColourStats(kids[1..]));
    }
  }

  lemma {:induction false} MeansAppend(a: seq<Stats>, b: seq<Stats>)
    ensures Means(a + b) == Means(a) + Means(b)
    decreases |a|
  {
    if a == [] {
      assert a + b == b;
    } else {
      assert (a + b)[1..] == a[1..] + b;
      MeansAppend(a[1..], b);
    }
  }

  /**
   * The colour nodes are numbered consecutively in post-order from the
   * palette's current size: node j of the subtree gets index `|palette| + j`.
   */
  lemma {:induction false} MapNumbers(t: Tree, palette: seq<Rgba>)
    ensures Cands(MapNode(t, palette).node) == Iota(|palette|, Colours(t))
    decreases t, 1
  {
    if t.Node? {
      var k := MapKids(t.children, palette);
      MapKidsNumbers(t.children, palette);
      if t.stats.unique != 0 {
        IotaAppend(|palette|, KidsColours(t.children), 1);
      } else {
        assert KidsCands(k.kids) + [] == KidsCands(k.kids);
      }
    }
  }

  lemma {:induction false} MapKidsNumbers(kids: seq<Tree>, palette: seq<Rgba>)
    ensures KidsCands(MapKids(kids, palette).kids) == Iota(|palette|, KidsColours(kids))
    decreases kids, 0
  {
    if kids != [] {
      var m := MapNode(kids[0], palette);
      var rest := MapKids(kids[1..], m.palette);
      MapNumbers(kids[0], palette);
      MapKidsNumbers(kids[1..], m.palette);
      assert ([m.node] + rest.kids)[1..] == rest.kids;
      IotaAppend(|palette|, Colours(kids[0]), KidsColours(kids[1..]));
    }
  }

  lemma IotaAppend(lo: int, n: nat, k: nat)
    ensures Iota(lo, n) + Iota(lo + n, k) == Iota(lo, n + k)
  {
  }

  /** The colour nodes keep their statistics, and so their order and means. */
  lemma {:induction false} MapStats(t: Tree, palette: seq<Rgba>)
    ensures ColourStats(MapNode(t, palette).node) == ColourStats(t)
    decreases t, 1
  {
    if t.Node? {
      MapKidsStats(t.children, palette);
    }
  }

  lemma {:induction false} MapKidsStats(kids: seq<Tree>, palette: seq<Rgba>)
    ensures KidsColourStats(MapKids(kids, palette).kids) == KidsColourStats(kids)
    decreases kids, 0
  {
    if kids != [] {
      var m := MapNode(kids[0], palette);
      var rest := MapKids(kids[1..], m.palette);
      MapStats(kids[0], palette);
      MapKidsStats(kids[1..], m.palette);
      assert ([m.node] + rest.kids)[1..] == rest.kids;
    }
  }

  /**
   * With the numbering and the palette together: the entry at each colour
   * node's index is that node's rounded mean.
   */
  lemma MapIndexed(t: Tree, palette: seq<Rgba>, j: int)
    requires 0 <= j < Colours(t)
    ensures var m := MapNode(t, palette);
      && |Cands(m.node)| == Colours(t) && Cands(m.node)[j] == |palette| + j
      && ColourStats(m.node)[j] == ColourStats(t)[j]
      && m.palette[|palette| + j] == MeanColour(ColourStats(t)[j])
  {
    var m := MapNode(t, palette);
    MapPalette(t, palette);
    MapNumbers(t, palette);
    MapStats(t, palette);
    MeansAt(ColourStats(t), j);
  }

  lemma {:induction false} MeansAt(ss: seq<Stats>, j: int)
    requires forall i :: 0 <= i < |ss| ==> ss[i].unique != 0
    requires 0 <= j < |ss|
    ensures Means(ss)[j] == MeanColour(ss[j])
    decreases j
  {
    if j > 0 {
      MeansAt(ss[1..], j - 1);
    }
  }

  /** Under sane totals every entry is a colour with channels 0..255 and no byte wrap-around. */
  lemma ColourStatsSane(t: Tree, j: int)
    requires Sane(t) && 0 <= j < Colours(t)
    ensures SaneStats(ColourStats(t)[j]) && ColourStats(t)[j].unique > 0
  {
    ColourStatsAllSane(t);
  }

  lemma {:induction false} ColourStatsAllSane(t: Tree)
    requires Sane(t)
    ensures forall i :: 0 <= i < |ColourStats(t)| ==> SaneStats(ColourStats(t)[i])
    decreases t, 1
  {
    if t.Node? {
      KidsColourStatsSane(t.children);
    }
  }

  lemma {:induction false} KidsColourStatsSane(kids: seq<Tree>)
    requires SaneKids(kids)
    ensures forall i :: 0 <= i < |KidsColourStats(kids)| ==> SaneStats(KidsColourStats(kids)[i])
    decreases kids, 0
  {
    if kids != [] {
      SaneKidsSplit(kids);
      ColourStatsAllSane(kids[0]);
      KidsColourStatsSane(kids[1..]);
    }
  }

  // ----- the trees the search walks -----

  /** Every node has all sixteen slots, so the walk's slot index is in range. */
  predicate Full(t: Tree)
    decreases t
  {
    t.Nil? || (|t.children| == MaxChildren && FullKids(t.children))
  }

  predicate FullKids(kids: seq<Tree>)
    decreases kids
  {
    kids == [] || (Full(kids[0]) && FullKids(kids[1..]))
  }

  /** Every node below the root holds a palette colour in its subtree. */
  predicate LitKids(kids: seq<Tree>)
    decreases kids
  {
    kids == [] || ((kids[0].Node? ==> Colours(kids[0]) >= 1 && LitKids(kids[0].children)) && LitKids(kids[1..]))
  }

  lemma {:induction false} ShapeFull(t: Tree, level: int, mid: Rgba, depth: int)
    requires Shape(t, level, mid, depth)
    ensures Full(t)
    decreases t, 1
  {
    if t.Node? {
      ShapeKidsFull(t.children, 0, level, mid, depth);
    }
  }

  lemma {:induction false} ShapeKidsFull(kids: seq<Tree>, from: int, level: int, mid: Rgba, depth: int)
    requires ShapeKids(kids, from, level, mid, depth)
    ensures FullKids(kids)
    decreases kids, 0
  {
    if kids != [] {
      ShapeKidsSplit(kids, from, level, mid, depth);
      if kids[0].Node? {
        ShapeFull(kids[0], level + 1, ChildMid(mid, from, level + 1), depth);
      }
      ShapeKidsFull(kids[1..], from + 1, level, mid, depth);
    }
  }

  /** Below the root every node has at least one pixel, so at least one colour below it. */
  lemma {:induction false} ConservedLit(kids: seq<Tree>)
    requires ConservedKids(kids) && SaneKids(kids)
    ensures LitKids(kids)
    decreases kids
  {
    if kids != [] {
      ConservedKidsSplit(kids);
      SaneKidsSplit(kids);
      if kids[0].Node? {
        ColoursPositive(kids[0]);
        ConservedLit(kids[0].children);
      }
      ConservedLit(kids[1..]);
    }
  }

  lemma {:induction false} MapFull(t: Tree, palette: seq<Rgba>)
    requires Full(t)
    ensures Full(MapNode(t, palette).node)
    decreases t, 1
  {
    if t.Node? {
      MapKidsFull(t.children, palette);
    }
  }

  lemma {:induction false} MapKidsFull(kids: seq<Tree>, palette: seq<Rgba>)
    requires FullKids(kids)
    ensures FullKids(MapKids(kids, palette).kids)
    decreases kids, 0
  {
    if kids != [] {
      var m := MapNode(kids[0], palette);
      var rest := MapKids(kids[1..], m.palette);
      MapFull(kids[0], palette);
      MapKidsFull(kids[1..], m.palette);
      assert ([m.node] + rest.kids)[1..] == rest.kids;
    }
  }

  lemma {:induction false} MapKidsLit(kids: seq<Tree>, palette: seq<Rgba>)
    requires LitKids(kids)
    ensures LitKids(MapKids(kids, palette).kids)
    decreases kids
  {
    if kids != [] {
      var m := MapNode(kids[0], palette);
      var rest := MapKids(kids[1..], m.palette);
      if kids[0].Node? {
        MapKidsLit(kids[0].children, palette);
        assert m.node.children == MapKids(kids[0].children, palette).kids;
      }
      MapKidsLit(kids[1..], m.palette);
      assert ([m.node] + rest.kids)[1..] == rest.kids;
    }
  }

  // ----- the palette of the output image -----

  /** Entry 0 when a transparent colour is reserved: all four channels zero. */
  const Clear: Rgba := Rgba(0, 0, 0, 0)

  /**
   * `colorMap` as the image's colour model sees it: the reserved entry,
   * then `root.mapColors()` from index `firstColor`.
   */
  function Palette(q: Cube): Mapped
  {
    MapNode(q.root, if q.addTransparency then [Clear] else [])
  }

  /**
   * The palette is the reserved entry then the rounded means, post-order;
   * its size, the `m_numColors` the model is built with, fits in the
   * `colorMap` arrays allocated from the count before the pass.
   */
  lemma PaletteFacts(q: Cube)
    requires Valid(q)
    ensures var m := Palette(q);
      && m.palette == (if q.addTransparency then [Clear] else []) + Means(ColourStats(q.root))
      && |m.palette| == q.firstColor + Colours(q.root) <= q.numColors
      && Cands(m.node) == Iota(q.firstColor, Colours(q.root))
      && (q.addTransparency ==> m.palette[0] == Clear)
  {
    MapPalette(q.root, if q.addTransparency then [Clear] else []);
    MapNumbers(q.root, if q.addTransparency then [Clear] else []);
  }

  /** Every palette entry holds channels in 0..255. */
  lemma PaletteInBox(q: Cube, i: int)
    requires Valid(q) && 0 <= i < |Palette(q).palette|
    ensures InBox(Palette(q).palette[i])
  {
    var base := if q.addTransparency then [Clear] else [];
    MapPalette(q.root, base);
    if i >= |base| {
      var j := i - |base|;
      MeansAt(ColourStats(q.root), j);
      assert Palette(q).palette[i] == Means(ColourStats(q.root))[j];
    }
  }

  /**
   * Entry `firstColor + j` is the mean of the j-th colour node's pixels,
   * channel by channel, rounded half up; the byte never cuts it.
   */
  lemma PaletteRounded(q: Cube, j: int)
    requires Valid(q) && 0 <= j < Colours(q.root)
    ensures var s := ColourStats(q.root)[j];
      var e := Palette(q).palette[q.firstColor + j];
      && s.unique > 0
      && e.red * s.unique <= s.red + s.unique / 2 < (e.red + 1) * s.unique
      && e.green * s.unique <= s.green + s.unique / 2 < (e.green + 1) * s.unique
      && e.blue * s.unique <= s.blue + s.unique / 2 < (e.blue + 1) * s.unique
      && e.alpha * s.unique <= s.alpha + s.unique / 2 < (e.alpha + 1) * s.unique
  {
    var base := if q.addTransparency then [Clear] else [];
    MapIndexed(q.root, base, j);
    var st := ColourStats(q.root)[j];
    ColourStatsSane(q.root, j);
    MeanRounds(st.red, st.unique);
    MeanRounds(st.green, st.unique);
    MeanRounds(st.blue, st.unique);
    MeanRounds(st.alpha, st.unique);
  }

  /** The walk of the assignment sees a full, lit tree after the palette pass. */
  lemma PaletteTree(q: Cube)
    requires Valid(q)
    ensures var n := Palette(q).node;
      && n.Node? && Full(n) && LitKids(n.children) && Colours(n) == Colours(q.root)
      && n.stats == q.root.stats
  {
    var base := if q.addTransparency then [Clear] else [];
    ShapeFull(q.root, 0, RootMid, q.depth);
    MapFull(q.root, base);
    ConservedLit(q.root.children);
    MapKidsLit(q.root.children, base);
  }

  // ----- the bit depth of the palette -----

  /** `for (dep = 1; dep <= 8; dep++) if ((1 << dep) >= m_numColors) break;` from `dep`. */
  function DepthFrom(count: int, dep: int): int
    requires 1 <= dep <= 9
    decreases 9 - dep
  {
    if dep > 8 then dep
    else if Pow2(dep) >= count then dep
    else DepthFrom(count, dep + 1)
  }

  function PaletteBits(count: int): int
  {
    DepthFrom(count, 1)
  }

  /**
   * The bit depth is the least of 1..8 whose power of two holds the
   * palette, and 9 when more than 256 colours remain.
   */
  lemma {:induction false} PaletteBitsLeast(count: int)
    ensures var dep := PaletteBits(count);
      && 1 <= dep <= 9
      && (dep <= 8 ==> Pow2(dep) >= count && (dep == 1 || Pow2(dep - 1) < count))
      && (dep == 9 <==> count > 256)
  {
    DepthFromLeast(count, 1);
  }

  lemma {:induction false} DepthFromLeast(count: int, dep: int)
    requires 1 <= dep <= 9 && (dep == 1 || Pow2(dep - 1) < count)
    ensures var r := DepthFrom(count, dep);
      && dep <= r <= 9
      && (r <= 8 ==> Pow2(r) >= count && (r == 1 || Pow2(r - 1) < count))
      && (r == 9 ==> Pow2(8) < count)
    decreases 9 - dep
  {
    if dep <= 8 && Pow2(dep) < count {
      DepthFromLeast(count, dep + 1);
    }
    if DepthFrom(count, dep) <= 8 {
      Pow2Byte();
      Pow2Monotone(DepthFrom(count, dep), 8);
    }
  }

  // ----- the colour model -----

  /** How the image's colour model treats alpha. */
  datatype Alpha = NoAlpha | TransparentIndex(index: int) | PerEntry

  datatype ColorModel = ColorModel(bits: int, size: int, entries: seq<Rgba>, alpha: Alpha)

  /**
   * The IndexColorModel assignment builds: with `alphaToBitmask`, opaque
   * entries and index 0 transparent when reserved; otherwise each entry's
   * own alpha.
   */
  function Model(q: Cube, alphaToBitmask: bool): (cm: ColorModel)
    ensures cm.size == |cm.entries| && cm.entries == Palette(q).palette
    ensures cm.alpha.TransparentIndex? <==> alphaToBitmask && q.addTransparency
    ensures cm.alpha.TransparentIndex? ==> cm.alpha.index == 0 && cm.entries[0] == Clear
    ensures cm.alpha == PerEntry <==> !alphaToBitmask
  {
    var entries := Palette(q).palette;
    MapPalette(q.root, if q.addTransparency then [Clear] else []);
    var alpha := if !alphaToBitmask then PerEntry else if q.addTransparency then TransparentIndex(0) else NoAlpha;
    ColorModel(PaletteBits(|entries|), |entries|, entries, alpha)
  }
}
