/**
 * The colour cube of the octree quantizer: pixel channels, the tree depth
 * chosen from the palette size, the midpoint split of each node, the node
 * record itself, and the sums, counts and shape facts the quantizer's
 * phases keep. A node has sixteen child slots, one per combination of
 * "above the midpoint" on red, green, blue and alpha.
 */
module Octree {
  import opened JavaInt
  import opened Wrappers

  /** MAX_CHILDREN, MAX_NODES, MAX_RGB and MAX_TREE_DEPTH. */
  const MaxChildren: int := 16
  const MaxNodes: int := 266817
  const MaxRgb: int := 255
  const MaxTreeDepth: int := 8

  datatype Rgba = Rgba(red: int, green: int, blue: int, alpha: int)

  predicate InBox(c: Rgba)
  {
    0 <= c.red <= MaxRgb && 0 <= c.green <= MaxRgb && 0 <= c.blue <= MaxRgb && 0 <= c.alpha <= MaxRgb
  }

  function Min(a: int, b: int): int
  {
    if a <= b then a else b
  }

  // ----- pixels -----

  /**
   * The channels of an ARGB pixel, `(pixel >> shift) & 0xff`: an arithmetic
   * shift is a floor division, and the mask a non-negative remainder. With
   * `alphaToBitmask`, alpha below 0x80 becomes 0 and the rest 0xff.
   */
  function Channels(pixel: int, alphaToBitmask: bool): (c: Rgba)
    ensures InBox(c)
    ensures alphaToBitmask ==> c.alpha == 0 || c.alpha == 0xff
  {
    var alpha := (pixel / 0x100_0000) % 256;
    Rgba((pixel / 0x1_0000) % 256, (pixel / 0x100) % 256, pixel % 256,
         if alphaToBitmask then (if alpha < 0x80 then 0 else 0xff) else alpha)
  }

  /** The Java int holding a colour as ARGB: alpha 0x80 and above gives a negative int. */
  function Argb(c: Rgba): int
    requires InBox(c)
  {
    var u := ((c.alpha * 256 + c.red) * 256 + c.green) * 256 + c.blue;
    if c.alpha < 0x80 then u else u - 0x1_0000_0000
  }

  /** Splitting an ARGB int into channels undoes packing them, for negative pixels too. */
  lemma ChannelsOfArgb(c: Rgba)
    requires InBox(c)
    ensures Channels(Argb(c), false) == c
  {
    var a := if c.alpha < 0x80 then c.alpha else c.alpha - 256;
    var p := Argb(c);
    assert p == ((a * 256 + c.red) * 256 + c.green) * 256 + c.blue;
    DivMod256(a * 256 + c.red, c.green, c.blue);
    DivMod256(a, c.red, c.green);
    assert p / 0x100 == (a * 256 + c.red) * 256 + c.green;
    assert p / 0x1_0000 == (p / 0x100) / 256;
    assert p / 0x100_0000 == (p / 0x1_0000) / 256;
    DivMod256(a, 0, c.red);
  }

  lemma DivMod256(hi: int, mid: int, lo: int)
    requires 0 <= mid < 256 && 0 <= lo < 256
    ensures (hi * 256 + lo) / 256 == hi && (hi * 256 + lo) % 256 == lo
    ensures ((hi * 256 + mid) * 256 + lo) / 256 == hi * 256 + mid
  {
  }

  // ----- the depth of the tree -----

  /** The counting loop of the cube's constructor: one more per division by four until zero. */
  function DepthLoop(i: int, depth: int): int
    decreases Abs(i)
  {
    if i == 0 then depth else DepthLoop(JavaDiv(i, 4), depth + 1)
  }

  /**
   * The tree depth for a palette of `maxColors`: the loop's count less one
   * (when above one), clamped to 2..MAX_TREE_DEPTH.
   */
  function TreeDepth(maxColors: int): (d: int)
    ensures 2 <= d <= MaxTreeDepth
  {
    var loop := DepthLoop(maxColors, 1);
    var d := if loop > 1 then loop - 1 else loop;
    if d > MaxTreeDepth then MaxTreeDepth else if d < 2 then 2 else d
  }

  function Pow4(k: nat): (r: nat)
    ensures r >= 1
  {
    if k == 0 then 1 else 4 * Pow4(k - 1)
  }

  /** A number with k base-4 digits makes the loop count k more. */
  lemma {:induction false} DepthLoopDigits(n: int, k: nat, depth: int)
    requires k >= 1 && Pow4(k - 1) <= n < Pow4(k)
    ensures DepthLoop(n, depth) == depth + k
    decreases k
  {
    var q := JavaDiv(n, 4);
    assert 0 <= n - q * 4 < 4;
    if k > 1 {
      assert Pow4(k - 1) == 4 * Pow4(k - 2);
      DepthLoopDigits(q, k - 1, depth + 1);
    }
  }

  /**
   * The depth is the number of base-4 digits of `maxColors`, clamped to
   * 2..8: 1..15 colours give 2, 64..255 give 4, 256..1023 give 5.
   */
  lemma DepthDigits(maxColors: int, k: nat)
    requires k >= 1 && Pow4(k - 1) <= maxColors < Pow4(k)
    ensures TreeDepth(maxColors) == (if k > MaxTreeDepth then MaxTreeDepth else if k < 2 then 2 else k)
  {
    DepthLoopDigits(maxColors, k, 1);
  }

  /** The GIF writers' 256 colours give a tree of depth five. */
  lemma DepthOf256()
    ensures TreeDepth(256) == 5
  {
    assert Pow4(4) == 256 && Pow4(5) == 1024;
    DepthDigits(256, 5);
  }

  lemma {:induction false} DepthLoopNegate(i: int, depth: int)
    ensures DepthLoop(-i, depth) == DepthLoop(i, depth)
    decreases Abs(i)
  {
    if i != 0 {
      JavaDivNegate(i, 4);
      DepthLoopNegate(JavaDiv(i, 4), depth + 1);
    }
  }

  /** Truncating division makes a negative palette size count like its magnitude. */
  lemma DepthNegate(maxColors: int)
    ensures TreeDepth(-maxColors) == TreeDepth(maxColors)
  {
    DepthLoopNegate(maxColors, 1);
  }

  // ----- midpoints -----

  /** The root's midpoint on every channel, `(MAX_RGB + 1) >> 1`. */
  const RootMid: Rgba := Rgba(128, 128, 128, 128)

  /** `(1 << (MAX_TREE_DEPTH - level)) >> 1`: half the parent's cell width, and 0 at level 8. */
  function Half(level: int): nat
    requires 1 <= level <= MaxTreeDepth
  {
    Pow2(MaxTreeDepth - level) / 2
  }

  function Toward(m: int, up: bool, bi: int): int
  {
    if up then m + bi else m - bi
  }

  /**
   * The midpoint of the child in slot `id` at `level`: bit 0 of the slot
   * moves red up, bit 1 green, bit 2 blue, bit 3 alpha (`id & 2` is tested
   * here as the second binary digit of `id`).
   */
  function ChildMid(mid: Rgba, id: int, level: int): Rgba
    requires 0 <= id < MaxChildren && 1 <= level <= MaxTreeDepth
  {
    var bi := Half(level);
    Rgba(Toward(mid.red, id % 2 == 1, bi), Toward(mid.green, (id / 2) % 2 == 1, bi),
         Toward(mid.blue, (id / 4) % 2 == 1, bi), Toward(mid.alpha, (id / 8) % 2 == 1, bi))
  }

  /** The child slot a colour falls into: the or of one bit per channel above the midpoint. */
  function Select(mid: Rgba, c: Rgba): (id: int)
    ensures 0 <= id < MaxChildren
  {
    (if c.red > mid.red then 1 else 0) + (if c.green > mid.green then 2 else 0)
    + (if c.blue > mid.blue then 4 else 0) + (if c.alpha > mid.alpha then 8 else 0)
  }

  /** The selected child's midpoint moves toward the colour on every channel. */
  lemma SelectToward(mid: Rgba, c: Rgba, level: int)
    requires 1 <= level <= MaxTreeDepth
    ensures ChildMid(mid, Select(mid, c), level)
      == Rgba(Toward(mid.red, c.red > mid.red, Half(level)), Toward(mid.green, c.green > mid.green, Half(level)),
              Toward(mid.blue, c.blue > mid.blue, Half(level)), Toward(mid.alpha, c.alpha > mid.alpha, Half(level)))
  {
  }

  /** How far a colour in a node's cell may lie from its midpoint, per channel. */
  function Radius(level: int): nat
    requires 0 <= level <= MaxTreeDepth
  {
    if level < MaxTreeDepth then Pow2(7 - level) else 1
  }

  predicate Near(m: int, v: int, r: int)
  {
    m - r <= v <= m + r
  }

  predicate InCell(mid: Rgba, c: Rgba, level: int)
    requires 0 <= level <= MaxTreeDepth
  {
    var r := Radius(level);
    Near(mid.red, c.red, r) && Near(mid.green, c.green, r) && Near(mid.blue, c.blue, r) && Near(mid.alpha, c.alpha, r)
  }

  lemma RootCell(c: Rgba)
    requires InBox(c)
    ensures InCell(RootMid, c, 0)
  {
    assert Pow2(7) == 128 by { Pow2Byte(); }
  }

  lemma ChannelNarrows(m: int, v: int, level: int)
    requires 1 <= level <= MaxTreeDepth && Near(m, v, Radius(level - 1))
    ensures Near(Toward(m, v > m, Half(level)), v, Radius(level))
  {
    assert Pow2(MaxTreeDepth - level + 1) == 2 * Pow2(MaxTreeDepth - level);
  }

  /**
   * A colour in a node's cell lies in the cell of the child it selects: so
   * every node on a colour's path has the colour within Radius(level) of
   * its midpoint on every channel.
   */
  lemma ChildCell(mid: Rgba, c: Rgba, level: int)
    requires 1 <= level <= MaxTreeDepth && InCell(mid, c, level - 1)
    ensures InCell(ChildMid(mid, Select(mid, c), level), c, level)
  {
    SelectToward(mid, c, level);
    ChannelNarrows(mid.red, c.red, level);
    ChannelNarrows(mid.green, c.green, level);
    ChannelNarrows(mid.blue, c.blue, level);
    ChannelNarrows(mid.alpha, c.alpha, level);
  }

  // ----- nodes -----

  /** A node's pixel statistics: `unique` and the four colour totals. */
  datatype Stats = Stats(unique: int, red: int, green: int, blue: int, alpha: int)

  const NoStats: Stats := Stats(0, 0, 0, 0, 0)

  function Add(a: Stats, b: Stats): Stats
  {
    Stats(a.unique + b.unique, a.red + b.red, a.green + b.green, a.blue + b.blue, a.alpha + b.alpha)
  }

  /** What one classified pixel adds to its leaf. */
  function PixelStats(c: Rgba): Stats
  {
    Stats(1, c.red, c.green, c.blue, c.alpha)
  }

  /**
   * A child slot: `Nil` where the Java array holds null, otherwise a node
   * with its level, midpoint, the pixels classified through it
   * (`numPixels`), its own statistics, its palette index and sixteen child
   * slots. The parent link, id and child count of the Java node are implied
   * by the slot a node sits in.
   */
  datatype Tree =
    | Nil
    | Node(level: int, mid: Rgba, numPixels: int, stats: Stats, colorIndex: int, children: seq<Tree>)

  function NoChildren(): (kids: seq<Tree>)
    ensures |kids| == MaxChildren && AllNil(kids)
  {
    [Nil, Nil, Nil, Nil, Nil, Nil, Nil, Nil, Nil, Nil, Nil, Nil, Nil, Nil, Nil, Nil]
  }

  predicate AllNil(kids: seq<Tree>)
  {
    forall i :: 0 <= i < |kids| ==> kids[i].Nil?
  }

  /** The root: level 0, midpoint 128, and a pixel count of MAX_VALUE so it is never pruned. */
  function Root(): Tree
  {
    Node(0, RootMid, MaxInt, NoStats, 0, NoChildren())
  }

  /** A fresh child of a node with midpoint `mid`, in slot `id` at `level`. */
  function NewNode(mid: Rgba, id: int, level: int): Tree
    requires 0 <= id < MaxChildren && 1 <= level <= MaxTreeDepth
  {
    Node(level, ChildMid(mid, id, level), 0, NoStats, 0, NoChildren())
  }

  // ----- sums over a subtree -----

  function Count(t: Tree): nat
    decreases t
  {
    if t.Nil? then 0 else 1 + KidsCount(t.children)
  }

  function KidsCount(kids: seq<Tree>): nat
    decreases kids
  {
    if kids == [] then 0 else Count(kids[0]) + KidsCount(kids[1..])
  }

  /** The statistics of a node and all its descendants. */
  function TreeStats(t: Tree): Stats
    decreases t
  {
    if t.Nil? then NoStats else Add(t.stats, KidsStats(t.children))
  }

  function KidsStats(kids: seq<Tree>): Stats
    decreases kids
  {
    if kids == [] then NoStats else Add(TreeStats(kids[0]), KidsStats(kids[1..]))
  }

  /** The nodes with `unique != 0`: those that get a palette entry. */
  function Colours(t: Tree): nat
    decreases t
  {
    if t.Nil? then 0 else (if t.stats.unique != 0 then 1 else 0) + KidsColours(t.children)
  }

  function KidsColours(kids: seq<Tree>): nat
    decreases kids
  {
    if kids == [] then 0 else Colours(kids[0]) + KidsColours(kids[1..])
  }

  /** The smallest pixel count in a subtree, MAX_VALUE when it is empty. */
  function TreeMin(t: Tree): int
    decreases t
  {
    if t.Nil? then MaxInt else Min(t.numPixels, KidsMin(t.children))
  }

  function KidsMin(kids: seq<Tree>): int
    decreases kids
  {
    if kids == [] then MaxInt else Min(TreeMin(kids[0]), KidsMin(kids[1..]))
  }

  // ----- invariants over a subtree -----

  /**
   * The tree's shape below a node: levels count down from the root, every
   * node has sixteen slots, a child's midpoint is its parent's split toward
   * its slot, and no node lies below `depth`.
   */
  predicate Shape(t: Tree, level: int, mid: Rgba, depth: int)
    decreases t
  {
    t.Nil? ||
    (t.level == level && t.mid == mid && 0 <= level <= depth <= MaxTreeDepth && |t.children| == MaxChildren
     && ShapeKids(t.children, 0, level, mid, depth))
  }

  /** Slots `from`.. of a node at `level` with midpoint `mid`. */
  predicate ShapeKids(kids: seq<Tree>, from: int, level: int, mid: Rgba, depth: int)
    decreases kids
  {
    forall i :: 0 <= i < |kids| && kids[i].Node? ==>
      (0 <= from + i < MaxChildren && 0 <= level < depth <= MaxTreeDepth
       && Shape(kids[i], level + 1, ChildMid(mid, from + i, level + 1), depth))
  }

  /** Below the root, a node's pixel count is the `unique` total of its subtree, and at least one. */
  predicate Conserved(t: Tree)
    decreases t
  {
    t.Nil? || (1 <= t.numPixels == TreeStats(t).unique && ConservedKids(t.children))
  }

  predicate ConservedKids(kids: seq<Tree>)
    decreases kids
  {
    forall i :: 0 <= i < |kids| ==> Conserved(kids[i])
  }

  /** Totals are sums of channel values 0..255, so each lies within 0..255 times `unique`. */
  predicate SaneStats(s: Stats)
  {
    0 <= s.unique && 0 <= s.red <= MaxRgb * s.unique && 0 <= s.green <= MaxRgb * s.unique
    && 0 <= s.blue <= MaxRgb * s.unique && 0 <= s.alpha <= MaxRgb * s.unique
  }

  predicate Sane(t: Tree)
    decreases t
  {
    t.Nil? || (SaneStats(t.stats) && SaneKids(t.children))
  }

  predicate SaneKids(kids: seq<Tree>)
    decreases kids
  {
    forall i :: 0 <= i < |kids| ==> Sane(kids[i])
  }

  lemma SaneAdd(a: Stats, b: Stats)
    requires SaneStats(a) && SaneStats(b)
    ensures SaneStats(Add(a, b))
  {
  }

  lemma PixelSane(c: Rgba)
    requires InBox(c)
    ensures SaneStats(PixelStats(c))
  {
  }

  /** Every node in a subtree has more than `t` pixels. */
  predicate Above(t: Tree, threshold: int)
    decreases t
  {
    t.Nil? || (t.numPixels > threshold && AboveKids(t.children, threshold))
  }

  predicate AboveKids(kids: seq<Tree>, threshold: int)
    decreases kids
  {
    forall i :: 0 <= i < |kids| ==> Above(kids[i], threshold)
  }

  // ----- a run of slots split at its head, and put back together -----

  lemma ShapeKidsSplit(kids: seq<Tree>, from: int, level: int, mid: Rgba, depth: int)
    requires kids != [] && ShapeKids(kids, from, level, mid, depth)
    ensures kids[0].Node? ==>
      (0 <= from < MaxChildren && 0 <= level < depth <= MaxTreeDepth
       && Shape(kids[0], level + 1, ChildMid(mid, from, level + 1), depth))
    ensures ShapeKids(kids[1..], from + 1, level, mid, depth)
  {
    assert kids[0] == kids[0 + 0];
    forall i | 0 <= i < |kids| - 1
      ensures kids[1..][i] == kids[i + 1]
    {
    }
  }

  lemma ShapeKidsCons(x: Tree, r: seq<Tree>, from: int, level: int, mid: Rgba, depth: int)
    requires x.Node? ==>
      (0 <= from < MaxChildren && 0 <= level < depth <= MaxTreeDepth
       && Shape(x, level + 1, ChildMid(mid, from, level + 1), depth))
    requires ShapeKids(r, from + 1, level, mid, depth)
    ensures ShapeKids([x] + r, from, level, mid, depth)
  {
    forall i | 1 <= i < |r| + 1
      ensures ([x] + r)[i] == r[i - 1]
    {
    }
  }

  lemma ConservedKidsSplit(kids: seq<Tree>)
    requires kids != [] && ConservedKids(kids)
    ensures Conserved(kids[0]) && ConservedKids(kids[1..])
  {
    forall i | 0 <= i < |kids| - 1
      ensures kids[1..][i] == kids[i + 1]
    {
    }
  }

  lemma ConservedKidsCons(x: Tree, r: seq<Tree>)
    requires Conserved(x) && ConservedKids(r)
    ensures ConservedKids([x] + r)
  {
    forall i | 1 <= i < |r| + 1
      ensures ([x] + r)[i] == r[i - 1]
    {
    }
  }

  lemma SaneKidsSplit(kids: seq<Tree>)
    requires kids != [] && SaneKids(kids)
    ensures Sane(kids[0]) && SaneKids(kids[1..])
  {
    forall i | 0 <= i < |kids| - 1
      ensures kids[1..][i] == kids[i + 1]
    {
    }
  }

  lemma SaneKidsCons(x: Tree, r: seq<Tree>)
    requires Sane(x) && SaneKids(r)
    ensures SaneKids([x] + r)
  {
    forall i | 1 <= i < |r| + 1
      ensures ([x] + r)[i] == r[i - 1]
    {
    }
  }

  lemma AboveKidsCons(x: Tree, r: seq<Tree>, threshold: int)
    requires Above(x, threshold) && AboveKids(r, threshold)
    ensures AboveKids([x] + r, threshold)
  {
    forall i | 1 <= i < |r| + 1
      ensures ([x] + r)[i] == r[i - 1]
    {
    }
  }

  lemma AllNilCons(r: seq<Tree>)
    requires AllNil(r)
    ensures AllNil([Nil] + r)
  {
    forall i | 1 <= i < |r| + 1
      ensures ([Nil] + r)[i] == r[i - 1]
    {
    }
  }

  // ----- facts about the sums -----

  /** Growing one slot's subtree by some statistics grows the run's statistics by the same. */
  lemma {:induction false} KidsStatsAt(kids: seq<Tree>, id: int, y: Tree, p: Stats)
    requires 0 <= id < |kids| && TreeStats(y) == Add(TreeStats(kids[id]), p)
    ensures KidsStats(kids[id := y]) == Add(KidsStats(kids), p)
    decreases kids
  {
    var l := kids[id := y];
    assert KidsStats(l) == Add(TreeStats(l[0]), KidsStats(l[1..]));
    assert KidsStats(kids) == Add(TreeStats(kids[0]), KidsStats(kids[1..]));
    if id > 0 {
      assert l[0] == kids[0] && l[1..] == kids[1..][id - 1 := y];
      KidsStatsAt(kids[1..], id - 1, y, p);
      AddOnRight(KidsStats(l), TreeStats(kids[0]), KidsStats(l[1..]), KidsStats(kids[1..]), p, KidsStats(kids));
    } else {
      assert l[0] == y && l[1..] == kids[1..];
      AddOnLeft(KidsStats(l), TreeStats(y), TreeStats(kids[0]), KidsStats(kids[1..]), p, KidsStats(kids));
    }
  }

  lemma AddOnRight(l: Stats, h: Stats, m: Stats, r: Stats, p: Stats, all: Stats)
    requires l == Add(h, m) && m == Add(r, p) && all == Add(h, r)
    ensures l == Add(all, p)
  {
  }

  lemma AddOnLeft(l: Stats, y: Stats, h: Stats, r: Stats, p: Stats, all: Stats)
    requires l == Add(y, r) && y == Add(h, p) && all == Add(h, r)
    ensures l == Add(all, p)
  {
  }

  /** Replacing one slot changes the node and colour counts by the difference of the two subtrees. */
  lemma {:induction false} KidsCountAt(kids: seq<Tree>, id: int, y: Tree)
    requires 0 <= id < |kids|
    ensures KidsCount(kids[id := y]) + Count(kids[id]) == KidsCount(kids) + Count(y)
    ensures KidsColours(kids[id := y]) + Colours(kids[id]) == KidsColours(kids) + Colours(y)
    decreases kids
  {
    if id > 0 {
      assert kids[id := y][1..] == kids[1..][id - 1 := y];
      KidsCountAt(kids[1..], id - 1, y);
    } else {
      assert kids[id := y][1..] == kids[1..];
    }
  }

  /** The sums over a slot followed by more slots. */
  lemma ConsSums(x: Tree, r: seq<Tree>)
    ensures KidsStats([x] + r) == Add(TreeStats(x), KidsStats(r))
    ensures KidsCount([x] + r) == Count(x) + KidsCount(r)
    ensures KidsColours([x] + r) == Colours(x) + KidsColours(r)
    ensures KidsMin([x] + r) == Min(TreeMin(x), KidsMin(r))
  {
    assert ([x] + r)[1..] == r;
  }

  /** Empty slots add nothing. */
  lemma {:induction false} EmptyKids(kids: seq<Tree>)
    requires AllNil(kids)
    ensures KidsCount(kids) == 0 && KidsColours(kids) == 0 && KidsMin(kids) == MaxInt
    decreases kids
  {
    if kids != [] {
      assert AllNil(kids[1..]);
      EmptyKids(kids[1..]);
    }
  }

  lemma {:induction false} EmptyKidsStats(kids: seq<Tree>)
    requires AllNil(kids)
    ensures KidsStats(kids) == NoStats
    decreases kids
  {
    if kids != [] {
      assert AllNil(kids[1..]);
      EmptyKidsStats(kids[1..]);
      assert TreeStats(kids[0]) == NoStats;
    }
  }

  lemma {:induction false} SaneNonneg(t: Tree)
    requires Sane(t)
    ensures TreeStats(t).unique >= 0
    decreases t, 1
  {
    if t.Node? {
      SaneKidsNonneg(t.children);
    }
  }

  lemma {:induction false} SaneKidsNonneg(kids: seq<Tree>)
    requires SaneKids(kids)
    ensures KidsStats(kids).unique >= 0
    decreases kids, 0
  {
    if kids != [] {
      SaneNonneg(kids[0]);
      SaneKidsNonneg(kids[1..]);
    }
  }

  /** With no negative counts, one slot's subtree holds no more than all the slots together. */
  lemma {:induction false} KidStatsBelow(kids: seq<Tree>, i: int)
    requires SaneKids(kids) && 0 <= i < |kids|
    ensures TreeStats(kids[i]).unique <= KidsStats(kids).unique
    decreases kids
  {
    SaneNonneg(kids[0]);
    SaneKidsNonneg(kids[1..]);
    if i > 0 {
      KidStatsBelow(kids[1..], i - 1);
    }
  }

  /** A subtree whose statistics are not all zero holds a node that gets a palette entry. */
  lemma {:induction false} ColoursPositive(t: Tree)
    requires TreeStats(t).unique != 0
    ensures Colours(t) >= 1
    decreases t, 1
  {
    if t.stats.unique == 0 {
      KidsColoursPositive(t.children);
    }
  }

  lemma {:induction false} KidsColoursPositive(kids: seq<Tree>)
    requires KidsStats(kids).unique != 0
    ensures KidsColours(kids) >= 1
    decreases kids, 0
  {
    if TreeStats(kids[0]).unique != 0 {
      ColoursPositive(kids[0]);
    } else {
      KidsColoursPositive(kids[1..]);
    }
  }
}
