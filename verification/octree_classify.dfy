/**
 * The cube's classification phase over a whole pixel array: the counters
 * the cube keeps (nodes, colours, the reserved transparent entry), the
 * valve that drops the deepest level once the tree passes MAX_NODES
 * nodes, and the invariant every step keeps.
 */
module OctreeClassify {
  import opened JavaInt
  import opened Octree
  import opened OctreePrune
  import opened OctreeBuild

  /**
   * The cube between phases: the tree, the walk depth, `numNodes`,
   * `m_numColors`, whether index 0 is reserved for transparency, and the
   * first index the tree's colours get.
   */
  datatype Cube = Cube(root: Tree, depth: int, numNodes: int, numColors: int, addTransparency: bool, firstColor: int)

  /**
   * What classification keeps: the tree's shape at the current depth, a
   * root never pruned, pixel counts that match the pixels held below,
   * totals within range, `numNodes` counting every node but the root, and
   * `m_numColors` at least the reserved entry plus the nodes holding
   * pixels (pruning a level never lowers it).
   */
  predicate Valid(q: Cube)
  {
    && 2 <= q.depth <= MaxTreeDepth
    && q.root.Node? && Shape(q.root, 0, RootMid, q.depth) && q.root.numPixels == MaxInt
    && ConservedKids(q.root.children) && Sane(q.root)
    && q.numNodes == Count(q.root) - 1
    && q.firstColor == (if q.addTransparency then 1 else 0)
    && q.numColors >= q.firstColor + Colours(q.root)
  }

  /** The cube as its constructor and the start of classification leave it: a lone root holding nothing. */
  method NewCube(maxColors: int) returns (q: Cube)
    ensures Valid(q) && q.depth == TreeDepth(maxColors) && !q.addTransparency && q.numColors == 0
    ensures q.numNodes == 0 && TreeStats(q.root) == NoStats
  {
    var depth := TreeDepth(maxColors);
    var t := NewRoot(depth);
    q := Cube(t, depth, 0, 0, false, 0);
  }

  /** The root the cube starts from: a lone node at level 0 holding nothing. */
  method NewRoot(depth: int) returns (t: Tree)
    requires 2 <= depth <= MaxTreeDepth
    ensures t.Node? && t.level == 0 && t.mid == RootMid && t.numPixels == MaxInt
    ensures Shape(t, 0, RootMid, depth) && ConservedKids(t.children) && Sane(t)
    ensures Count(t) == 1 && Colours(t) == 0 && TreeStats(t) == NoStats
  {
    t := Root();
    LeafShape(t, 0, RootMid, depth);
    LeafCounts(t);
    LeafSane(t);
    LeafStats(t);
  }

  /** A childless node counts itself alone. */
  lemma LeafCounts(t: Tree)
    requires t.Node? && AllNil(t.children) && t.stats.unique == 0
    ensures Count(t) == 1 && Colours(t) == 0
  {
    EmptyKids(t.children);
  }

  /** A childless node holding no pixels adds up to nothing. */
  lemma LeafStats(t: Tree)
    requires t.Node? && AllNil(t.children) && t.stats == NoStats
    ensures TreeStats(t) == NoStats
  {
    EmptyKidsStats(t.children);
    ZeroSum(t.stats, KidsStats(t.children), NoStats);
  }

  // ----- the MAX_NODES valve -----

  /** `root.pruneLevel(); --depth`: the deepest level goes, its statistics move to the level above. */
  function Valve(q: Cube): Cube
  {
    var v := SweepNode(q.root, AtLevel(q.depth), MaxInt);
    q.(root := v.node, depth := q.depth - 1, numNodes := q.numNodes - v.removed)
  }

  /** The valve only fires on a tree at least five levels deep: four levels hold 69905 nodes at most. */
  lemma ValveDepth(q: Cube)
    requires Valid(q) && q.numNodes > MaxNodes
    ensures q.depth >= 5
  {
    if q.depth <= 4 {
      ShallowFits(q.root, q.depth);
    }
  }

  /** The valve keeps the invariant and every pixel's statistics; only the depth and the node count drop. */
  lemma ValveValid(q: Cube)
    requires Valid(q) && q.numNodes > MaxNodes
    ensures var r := Valve(q);
      && Valid(r) && r.depth == q.depth - 1 && r.depth >= 4 && r.numNodes <= q.numNodes
      && r.numColors == q.numColors && r.addTransparency == q.addTransparency
  {
    ValveDepth(q);
    var cut := AtLevel(q.depth);
    var v := SweepNode(q.root, cut, MaxInt);
    ShapeClosed(q.root, 0, RootMid, q.depth);
    SweepNodeShape(q.root, cut, MaxInt, 0, RootMid, q.depth);
    SweepNodeCount(q.root, cut, MaxInt);
    SweepNodeFewer(q.root, cut, MaxInt);
    SweepNodeSane(q.root, cut, MaxInt);
    assert v.node.children == SweepKids(q.root.children, cut, MaxInt).kids;
    SweepKidsConserved(q.root.children, cut, MaxInt);
  }

  lemma ValveStats(q: Cube)
    requires Valid(q) && q.numNodes > MaxNodes
    ensures TreeStats(Valve(q).root) == TreeStats(q.root)
  {
    var v := SweepNode(q.root, AtLevel(q.depth), MaxInt);
    ShapeClosed(q.root, 0, RootMid, q.depth);
    SweepNodeStats(q.root, AtLevel(q.depth), MaxInt);
    AddNothing(TreeStats(v.node), Handed(v), TreeStats(q.root));
  }

  lemma AddNothing(x: Stats, h: Stats, t: Stats)
    requires h == NoStats && Add(x, h) == t
    ensures x == t
  {
  }

  // ----- one pixel -----

  /** The cube before an opaque pixel's walk: through the valve when the tree is too large. */
  function Prepared(q: Cube): (r: Cube)
    requires Valid(q)
    ensures Valid(r) && r.addTransparency == q.addTransparency && r.numColors == q.numColors
    ensures r.depth <= q.depth && (q.depth >= 5 ==> r.depth >= 4) && (q.depth < 5 ==> r == q)
  {
    if q.numNodes <= MaxNodes then q
    else
      ValveValid(q);
      Valve(q)
  }

  /**
   * Classifies one ARGB pixel: an opaque one walks the tree (creating
   * nodes and colours as it goes); the first fully transparent one
   * reserves index 0; later transparent ones change nothing.
   */
  function Classify(q: Cube, pixel: int, alphaToBitmask: bool): (r: Cube)
    requires Valid(q)
  {
    var c := Channels(pixel, alphaToBitmask);
    if c.alpha > 0 then
      var p := Prepared(q);
      var w := Descend(p.root, c, 1, p.depth);
      p.(root := w.node, numNodes := p.numNodes + w.created, numColors := p.numColors + w.leaves)
    else if !q.addTransparency then
      q.(addTransparency := true, numColors := q.numColors + 1, firstColor := 1)
    else q
  }

  /** A pixel's walk keeps the invariant. */
  lemma ClassifyValid(q: Cube, pixel: int, alphaToBitmask: bool)
    requires Valid(q)
    ensures var r := Classify(q, pixel, alphaToBitmask);
      && Valid(r) && r.depth <= q.depth && (q.depth >= 5 ==> r.depth >= 4) && (q.depth < 5 ==> r.depth == q.depth)
      && (r.addTransparency <==> q.addTransparency || Channels(pixel, alphaToBitmask).alpha == 0)
  {
    var c := Channels(pixel, alphaToBitmask);
    if c.alpha > 0 {
      var p := Prepared(q);
      DescendShape(p.root, c, 1, p.depth);
      DescendCount(p.root, c, 1, p.depth);
      DescendConserved(p.root, c, 1, p.depth);
      DescendSane(p.root, c, 1, p.depth);
      DescendColours(p.root, c, 1, p.depth);
    }
  }

  /** An opaque pixel adds its channels to the tree's totals; a transparent one adds nothing. */
  lemma ClassifyStats(q: Cube, pixel: int, alphaToBitmask: bool)
    requires Valid(q)
    ensures var c := Channels(pixel, alphaToBitmask);
      TreeStats(Classify(q, pixel, alphaToBitmask).root)
      == if c.alpha > 0 then Add(TreeStats(q.root), PixelStats(c)) else TreeStats(q.root)
  {
    var c := Channels(pixel, alphaToBitmask);
    if c.alpha > 0 {
      var p := Prepared(q);
      if q.numNodes > MaxNodes {
        ValveStats(q);
      }
      DescendStats(p.root, c, 1, p.depth);
    }
  }

  // ----- the whole pixel array -----

  /** The statistics of the opaque pixels: one `unique` and the four channels per pixel. */
  function Opaque(pixels: seq<int>, alphaToBitmask: bool): Stats
    decreases |pixels|
  {
    if pixels == [] then NoStats
    else
      var c := Channels(pixels[|pixels| - 1], alphaToBitmask);
      var rest := Opaque(pixels[..|pixels| - 1], alphaToBitmask);
      if c.alpha > 0 then Add(rest, PixelStats(c)) else rest
  }

  /** Some pixel is fully transparent (after the bitmask conversion). */
  predicate HasClear(pixels: seq<int>, alphaToBitmask: bool)
  {
    exists i :: 0 <= i < |pixels| && Channels(pixels[i], alphaToBitmask).alpha == 0
  }

  /** There are no more opaque pixels than pixels, and their totals are in range. */
  lemma {:induction false} OpaqueBounds(pixels: seq<int>, alphaToBitmask: bool)
    ensures SaneStats(Opaque(pixels, alphaToBitmask)) && Opaque(pixels, alphaToBitmask).unique <= |pixels|
    decreases |pixels|
  {
    if pixels != [] {
      var c := Channels(pixels[|pixels| - 1], alphaToBitmask);
      OpaqueBounds(pixels[..|pixels| - 1], alphaToBitmask);
      PixelSane(c);
      SaneAdd(Opaque(pixels[..|pixels| - 1], alphaToBitmask), PixelStats(c));
    }
  }

  /**
   * `classification()`: every pixel in order. The tree ends up holding
   * exactly the opaque pixels' statistics, index 0 is reserved exactly
   * when some pixel is transparent, and the walk depth never grows and
   * stays at least four once the valve has fired.
   */
  method Classification(pixels: seq<int>, maxColors: int, alphaToBitmask: bool) returns (q: Cube)
    ensures Valid(q)
    ensures TreeStats(q.root) == Opaque(pixels, alphaToBitmask)
    ensures q.addTransparency <==> HasClear(pixels, alphaToBitmask)
    ensures q.depth <= TreeDepth(maxColors) && (TreeDepth(maxColors) < 5 ==> q.depth == TreeDepth(maxColors))
    ensures q.depth >= 2 && (TreeDepth(maxColors) >= 5 ==> q.depth >= 4)
  {
    var start := NewCube(maxColors);
    q := ClassifyAll(start, pixels, alphaToBitmask);
  }

  /** The pixel loop of classification, from a cube holding no pixels. */
  method ClassifyAll(start: Cube, pixels: seq<int>, alphaToBitmask: bool) returns (q: Cube)
    requires Valid(start) && TreeStats(start.root) == NoStats && !start.addTransparency
    ensures Valid(q)
    ensures TreeStats(q.root) == Opaque(pixels, alphaToBitmask)
    ensures q.addTransparency <==> HasClear(pixels, alphaToBitmask)
    ensures q.depth <= start.depth && (start.depth < 5 ==> q.depth == start.depth) && (start.depth >= 5 ==> q.depth >= 4)
  {
    q := start;
    var i := 0;
    while i < |pixels|
      invariant 0 <= i <= |pixels|
      invariant Valid(q)
      invariant TreeStats(q.root) == Opaque(pixels[..i], alphaToBitmask)
      invariant q.addTransparency <==> HasClear(pixels[..i], alphaToBitmask)
      invariant q.depth <= start.depth && (start.depth < 5 ==> q.depth == start.depth) && (start.depth >= 5 ==> q.depth >= 4)
    {
      q := ClassifyNext(q, pixels, i, start.depth, alphaToBitmask);
      i := i + 1;
    }
    assert pixels[..i] == pixels;
  }

  /** The loop body of classification: pixel `i` classified into a cube holding the pixels before it. */
  method ClassifyNext(q: Cube, pixels: seq<int>, i: int, startDepth: int, alphaToBitmask: bool) returns (r: Cube)
    requires Valid(q) && 0 <= i < |pixels|
    requires TreeStats(q.root) == Opaque(pixels[..i], alphaToBitmask)
    requires q.addTransparency <==> HasClear(pixels[..i], alphaToBitmask)
    requires q.depth <= startDepth && (startDepth < 5 ==> q.depth == startDepth) && (startDepth >= 5 ==> q.depth >= 4)
    ensures r == Classify(q, pixels[i], alphaToBitmask) && Valid(r)
    ensures TreeStats(r.root) == Opaque(pixels[..i + 1], alphaToBitmask)
    ensures r.addTransparency <==> HasClear(pixels[..i + 1], alphaToBitmask)
    ensures r.depth <= startDepth && (startDepth < 5 ==> r.depth == startDepth) && (startDepth >= 5 ==> r.depth >= 4)
  {
    ClassifyValid(q, pixels[i], alphaToBitmask);
    ClassifyPrefix(q, pixels, i, alphaToBitmask);
    r := Classify(q, pixels[i], alphaToBitmask);
  }

  /** One more pixel classified: the tree holds the opaque pixels of one more prefix. */
  lemma ClassifyPrefix(q: Cube, pixels: seq<int>, i: int, alphaToBitmask: bool)
    requires Valid(q) && 0 <= i < |pixels|
    requires TreeStats(q.root) == Opaque(pixels[..i], alphaToBitmask)
    requires q.addTransparency <==> HasClear(pixels[..i], alphaToBitmask)
    ensures var r := Classify(q, pixels[i], alphaToBitmask);
      && TreeStats(r.root) == Opaque(pixels[..i + 1], alphaToBitmask)
      && (r.addTransparency <==> HasClear(pixels[..i + 1], alphaToBitmask))
  {
    ClassifyValid(q, pixels[i], alphaToBitmask);
    ClassifyStats(q, pixels[i], alphaToBitmask);
    assert pixels[..i + 1][..i] == pixels[..i];
    assert pixels[..i + 1][i] == pixels[i];
    ClearStep(pixels, i, alphaToBitmask);
  }

  lemma ClearStep(pixels: seq<int>, i: int, alphaToBitmask: bool)
    requires 0 <= i < |pixels|
    ensures HasClear(pixels[..i + 1], alphaToBitmask)
      <==> HasClear(pixels[..i], alphaToBitmask) || Channels(pixels[i], alphaToBitmask).alpha == 0
  {
    var a, b := pixels[..i + 1], pixels[..i];
    if HasClear(a, alphaToBitmask) && !(Channels(pixels[i], alphaToBitmask).alpha == 0) {
      var j :| 0 <= j < |a| && Channels(a[j], alphaToBitmask).alpha == 0;
      assert a[j] == b[j];
    }
    if HasClear(b, alphaToBitmask) {
      var j :| 0 <= j < |b| && Channels(b[j], alphaToBitmask).alpha == 0;
      assert a[j] == b[j];
    }
    if Channels(pixels[i], alphaToBitmask).alpha == 0 {
      assert a[i] == pixels[i];
    }
  }
}
