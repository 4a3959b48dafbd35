/**
 * The pixel pass of assignment: each pixel walks the mapped tree to the
 * deepest node on its colour's path, and Node.closestColor searches the
 * subtree of that node's parent for the palette entry nearest the pixel
 * (squared distance over the four channels, the first nearest in
 * post-order winning). A transparent pixel takes the reserved index 0.
 */
module OctreeAssign {
  import opened JavaInt
  import opened Octree
  import opened OctreeClassify
  import opened OctreePalette

  /** `distance`: the squared distance between two colours over all four channels. */
  function Distance(a: Rgba, b: Rgba): (d: int)
    ensures d >= 0
  {
    var da := a.alpha - b.alpha;
    var dr := a.red - b.red;
    var dg := a.green - b.green;
    var db := a.blue - b.blue;
    da * da + dr * dr + dg * dg + db * db
  }

  /** No two colours in the box are MAX_VALUE apart, so the first candidate always improves the search. */
  lemma DistanceBound(a: Rgba, b: Rgba)
    requires InBox(a) && InBox(b)
    ensures Distance(a, b) <= 4 * MaxRgb * MaxRgb < MaxInt
  {
    var da := a.alpha - b.alpha;
    var dr := a.red - b.red;
    var dg := a.green - b.green;
    var db := a.blue - b.blue;
    MulLimit(da);
    MulLimit(dr);
    MulLimit(dg);
    MulLimit(db);
  }

  lemma MulLimit(x: int)
    requires -MaxRgb <= x <= MaxRgb
    ensures x * x <= MaxRgb * MaxRgb
  {
    var a := if x < 0 then -x else x;
    assert x * x == a * a;
    if a > 0 {
      MulGrows(MaxRgb, a, a);
      MulGrows(MaxRgb, a, MaxRgb);
    }
  }

  /** The palette entry at an index (indices outside the palette never occur; they read as all zero). */
  function At(palette: seq<Rgba>, k: int): Rgba
  {
    if 0 <= k < |palette| then palette[k] else Clear
  }

  function Key(palette: seq<Rgba>, c: Rgba, k: int): int
  {
    Distance(At(palette, k), c)
  }

  /** The search record: the best distance so far and its colour index. */
  datatype Search = Search(distance: int, colorIndex: int)

  /** One candidate: it replaces the best only when strictly nearer. */
  function Step(palette: seq<Rgba>, c: Rgba, k: int, s: Search): Search
  {
    var d := Key(palette, c, k);
    if d < s.distance then Search(d, k) else s
  }

  /** `closestColor`: the children in slot order, then the node itself when it holds a colour. */
  function Closest(t: Tree, palette: seq<Rgba>, c: Rgba, s: Search): Search
    decreases t
  {
    if t.Nil? then s
    else
      var r := KidsClosest(t.children, palette, c, s);
      if t.stats.unique != 0 then Step(palette, c, t.colorIndex, r) else r
  }

  function KidsClosest(kids: seq<Tree>, palette: seq<Rgba>, c: Rgba, s: Search): Search
    decreases kids
  {
    if kids == [] then s else KidsClosest(kids[1..], palette, c, Closest(kids[0], palette, c, s))
  }

  /** The same search over the candidate indices as a list. */
  function Scan(ks: seq<int>, palette: seq<Rgba>, c: Rgba, s: Search): Search
  {
    if ks == [] then s else Scan(ks[1..], palette, c, Step(palette, c, ks[0], s))
  }

  lemma {:induction false} ScanAppend(a: seq<int>, b: seq<int>, palette: seq<Rgba>, c: Rgba, s: Search)
    ensures Scan(a + b, palette, c, s) == Scan(b, palette, c, Scan(a, palette, c, s))
    decreases |a|
  {
    if a == [] {
      assert a + b == b;
    } else {
      assert (a + b)[1..] == a[1..] + b;
      ScanAppend(a[1..], b, palette, c, Step(palette, c, a[0], s));
    }
  }

  /** The tree search visits exactly the colour indices of the subtree, in post-order. */
  lemma {:induction false} ClosestScan(t: Tree, palette: seq<Rgba>, c: Rgba, s: Search)
    ensures Closest(t, palette, c, s) == Scan(Cands(t), palette, c, s)
    decreases t, 1
  {
    if t.Node? {
      var own := if t.stats.unique != 0 then [t.colorIndex] else [];
      KidsClosestScan(t.children, palette, c, s);
      ScanAppend(KidsCands(t.children), own, palette, c, s);
    }
  }

  lemma {:induction false} KidsClosestScan(kids: seq<Tree>, palette: seq<Rgba>, c: Rgba, s: Search)
    ensures KidsClosest(kids, palette, c, s) == Scan(KidsCands(kids), palette, c, s)
    decreases kids, 0
  {
    if kids != [] {
      ClosestScan(kids[0], palette, c, s);
      KidsClosestScan(kids[1..], palette, c, Closest(kids[0], palette, c, s));
      ScanAppend(Cands(kids[0]), KidsCands(kids[1..]), palette, c, s);
    }
  }

  /**
   * The scan ends at a distance no larger than any candidate's, and either
   * leaves the search as it was or holds the first candidate at that
   * smallest distance.
   */
  lemma {:induction false} ScanFirst(ks: seq<int>, palette: seq<Rgba>, c: Rgba, s: Search)
    ensures var r := Scan(ks, palette, c, s);
      && r.distance <= s.distance
      && (forall j :: 0 <= j < |ks| ==> r.distance <= Key(palette, c, ks[j]))
      && (r == s ||
          (r.distance < s.distance &&
           exists j :: (0 <= j < |ks| && r == Search(Key(palette, c, ks[j]), ks[j])
             && forall i :: 0 <= i < j ==> Key(palette, c, ks[i]) > r.distance)))
    decreases |ks|
  {
    if ks != [] {
      var s1 := Step(palette, c, ks[0], s);
      var rest := ks[1..];
      var r := Scan(rest, palette, c, s1);
      ScanFirst(rest, palette, c, s1);
      forall j | 0 <= j < |ks|
        ensures r.distance <= Key(palette, c, ks[j])
      {
        if j > 0 {
          assert ks[j] == rest[j - 1];
        }
      }
      if r != s {
        if r == s1 {
          FirstAt(ks, palette, c, r, 0);
        } else {
          var j :| (0 <= j < |rest| && r == Search(Key(palette, c, rest[j]), rest[j])
            && forall i :: 0 <= i < j ==> Key(palette, c, rest[i]) > r.distance);
          forall i | 0 <= i < j + 1
            ensures Key(palette, c, ks[i]) > r.distance
          {
            if i > 0 {
              assert ks[i] == rest[i - 1];
            }
          }
          FirstAt(ks, palette, c, r, j + 1);
        }
      }
    }
  }

  lemma FirstAt(ks: seq<int>, palette: seq<Rgba>, c: Rgba, r: Search, j: int)
    requires 0 <= j < |ks| && r == Search(Key(palette, c, ks[j]), ks[j])
    requires forall i :: 0 <= i < j ==> Key(palette, c, ks[i]) > r.distance
    ensures exists j :: (0 <= j < |ks| && r == Search(Key(palette, c, ks[j]), ks[j])
      && forall i :: 0 <= i < j ==> Key(palette, c, ks[i]) > r.distance)
  {
  }

  /** Once some candidate beats the starting distance, the index carried in does not matter. */
  lemma {:induction false} ScanCarried(ks: seq<int>, palette: seq<Rgba>, c: Rgba, d: int, p: int, p2: int)
    requires exists j :: 0 <= j < |ks| && Key(palette, c, ks[j]) < d
    ensures Scan(ks, palette, c, Search(d, p)) == Scan(ks, palette, c, Search(d, p2))
    decreases |ks|
  {
    if Key(palette, c, ks[0]) >= d {
      var j :| 0 <= j < |ks| && Key(palette, c, ks[j]) < d;
      assert ks[1..][j - 1] == ks[j];
      ScanCarried(ks[1..], palette, c, d, p, p2);
    }
  }

  // ----- the walk to the search's starting node -----

  lemma {:induction false} FullAt(kids: seq<Tree>, i: int)
    requires FullKids(kids) && 0 <= i < |kids|
    ensures Full(kids[i])
    decreases i
  {
    if i > 0 {
      FullAt(kids[1..], i - 1);
    }
  }

  lemma {:induction false} LitAt(kids: seq<Tree>, i: int)
    requires LitKids(kids) && 0 <= i < |kids| && kids[i].Node?
    ensures Colours(kids[i]) >= 1 && LitKids(kids[i].children)
    decreases i
  {
    if i > 0 {
      LitAt(kids[1..], i - 1);
    }
  }

  lemma {:induction false} CandsAt(kids: seq<Tree>, i: int, x: int)
    requires 0 <= i < |kids| && x in Cands(kids[i])
    ensures x in KidsCands(kids)
    decreases i
  {
    if i > 0 {
      CandsAt(kids[1..], i - 1, x);
    }
  }

  /**
   * The walk of assignment: follow the pixel's slot while it holds a
   * node; the search starts at the parent of the last node reached (the
   * root's parent is the root itself).
   */
  function Deepest(n: Tree, parent: Tree, c: Rgba): (r: Tree)
    requires n.Node? && Full(n)
    decreases n
  {
    var id := Select(n.mid, c);
    if n.children[id].Nil? then parent
    else
      FullAt(n.children, id);
      Deepest(n.children[id], n, c)
  }

  /**
   * The search's starting node is the walk's start's parent with an empty
   * slot for the pixel, or a node whose child on the pixel's path has an
   * empty slot for it: the parent of the deepest node.
   */
  lemma {:induction false} DeepestIsParent(n: Tree, parent: Tree, c: Rgba)
    requires n.Node? && Full(n)
    ensures var r := Deepest(n, parent, c);
      || (r == parent && n.children[Select(n.mid, c)].Nil?)
      || (r.Node? && |r.children| == MaxChildren && r.children[Select(r.mid, c)].Node?
          && |r.children[Select(r.mid, c)].children| == MaxChildren
          && r.children[Select(r.mid, c)].children[Select(r.children[Select(r.mid, c)].mid, c)].Nil?)
    decreases n
  {
    var id := Select(n.mid, c);
    if n.children[id].Node? {
      FullAt(n.children, id);
      var d := n.children[id];
      if d.children[Select(d.mid, c)].Node? {
        DeepestIsParent(d, n, c);
      }
    }
  }

  /**
   * On a lit tree the search's starting node holds a colour, and every
   * colour index below it is one the walk's start holds.
   */
  lemma {:induction false} DeepestLit(n: Tree, parent: Tree, c: Rgba, lo: int, hi: int)
    requires n.Node? && Full(n) && LitKids(n.children) && Colours(n) >= 1 && Colours(parent) >= 1
    requires forall x :: x in Cands(n) ==> lo <= x < hi
    requires forall x :: x in Cands(parent) ==> lo <= x < hi
    ensures var r := Deepest(n, parent, c);
      && Colours(r) >= 1 && forall x :: x in Cands(r) ==> lo <= x < hi
    decreases n
  {
    var id := Select(n.mid, c);
    if n.children[id].Node? {
      FullAt(n.children, id);
      LitAt(n.children, id);
      forall x | x in Cands(n.children[id])
        ensures lo <= x < hi
      {
        CandsAt(n.children, id, x);
        assert x in Cands(n);
      }
      DeepestLit(n.children[id], n, c, lo, hi);
    }
  }

  // ----- one pixel -----

  /** Where the search for a pixel starts in the mapped tree of a cube. */
  function Start(q: Cube, c: Rgba): Tree
    requires Valid(q)
  {
    PaletteTree(q);
    Deepest(Palette(q).node, Palette(q).node, c)
  }

  /** The colour index the search picks for an opaque pixel, starting from distance MAX_VALUE. */
  function Pick(q: Cube, c: Rgba, carried: int): int
    requires Valid(q)
  {
    Closest(Start(q, c), Palette(q).palette, c, Search(MaxInt, carried)).colorIndex
  }

  /** On a cube holding colours the search starts at a node holding one, and below it only palette indices past the reserved entry. */
  lemma StartLit(q: Cube, c: Rgba)
    requires Valid(q) && Colours(q.root) >= 1
    ensures Colours(Start(q, c)) >= 1
    ensures forall x :: x in Cands(Start(q, c)) ==> q.firstColor <= x < |Palette(q).palette|
  {
    var m := Palette(q);
    PaletteTree(q);
    PaletteFacts(q);
    var lo, hi := q.firstColor, |m.palette|;
    forall x | x in Cands(m.node)
      ensures lo <= x < hi
    {
      var j :| 0 <= j < |Cands(m.node)| && Cands(m.node)[j] == x;
    }
    DeepestLit(m.node, m.node, c, lo, hi);
  }

  lemma PaletteAllInBox(q: Cube)
    requires Valid(q)
    ensures AllInBox(Palette(q).palette)
  {
    forall i | 0 <= i < |Palette(q).palette|
      ensures InBox(Palette(q).palette[i])
    {
      PaletteInBox(q, i);
    }
  }

  predicate AllInBox(palette: seq<Rgba>)
  {
    forall i :: 0 <= i < |palette| ==> InBox(palette[i])
  }

  /**
   * Starting from MAX_VALUE over a non-empty list of in-box entries, the
   * scan picks a listed index, the first of the nearest, whatever index it
   * carries in.
   */
  lemma ScanPicks(ks: seq<int>, palette: seq<Rgba>, c: Rgba, carried: int)
    requires ks != [] && AllInBox(palette) && InBox(c)
    ensures var k := Scan(ks, palette, c, Search(MaxInt, carried)).colorIndex;
      && k == Scan(ks, palette, c, Search(MaxInt, 0)).colorIndex
      && k in ks
      && (forall j :: 0 <= j < |ks| ==> Key(palette, c, k) <= Key(palette, c, ks[j]))
      && exists j :: (0 <= j < |ks| && k == ks[j]
           && forall i :: 0 <= i < j ==> Key(palette, c, ks[i]) > Key(palette, c, k))
  {
    var s := Search(MaxInt, carried);
    ScanFirst(ks, palette, c, s);
    DistanceBound(At(palette, ks[0]), c);
    ScanCarried(ks, palette, c, MaxInt, carried, 0);
  }

  /**
   * On the mapped tree of a cube holding colours, the search picks an
   * index of the palette past the reserved entry, whatever index it
   * carries in: the first, in post-order below the starting node, of the
   * entries nearest the pixel.
   */
  lemma PickNearest(q: Cube, c: Rgba, carried: int)
    requires Valid(q) && Colours(q.root) >= 1 && InBox(c)
    ensures var m := Palette(q);
      var ks := Cands(Start(q, c));
      var k := Pick(q, c, carried);
      && q.firstColor <= k < |m.palette|
      && k == Pick(q, c, 0)
      && (forall j :: 0 <= j < |ks| ==> Key(m.palette, c, k) <= Key(m.palette, c, ks[j]))
      && exists j :: (0 <= j < |ks| && k == ks[j]
           && forall i :: 0 <= i < j ==> Key(m.palette, c, ks[i]) > Key(m.palette, c, k))
  {
    var p := Start(q, c);
    var pal := Palette(q).palette;
    StartLit(q, c);
    PaletteAllInBox(q);
    ClosestScan(p, pal, c, Search(MaxInt, carried));
    ClosestScan(p, pal, c, Search(MaxInt, 0));
    ScanPicks(Cands(p), pal, c, carried);
  }

  /** A cube holding no colour leaves the search's index as it was. */
  lemma PickNothing(q: Cube, c: Rgba, carried: int)
    requires Valid(q) && Colours(q.root) == 0
    ensures Pick(q, c, carried) == carried
  {
    var m := Palette(q);
    PaletteTree(q);
    ClosestScan(Start(q, c), m.palette, c, Search(MaxInt, carried));
    EmptyWalk(m.node, m.node, c);
  }

  /** With no colour at the start of the walk, there is none where the search starts. */
  lemma {:induction false} EmptyWalk(n: Tree, parent: Tree, c: Rgba)
    requires n.Node? && Full(n) && Colours(n) == 0 && Colours(parent) == 0
    ensures Colours(Deepest(n, parent, c)) == 0
    decreases n
  {
    var id := Select(n.mid, c);
    if n.children[id].Node? {
      FullAt(n.children, id);
      KidColours(n.children, id);
      EmptyWalk(n.children[id], n, c);
    }
  }

  lemma {:induction false} KidColours(kids: seq<Tree>, i: int)
    requires 0 <= i < |kids|
    ensures Colours(kids[i]) <= KidsColours(kids)
    decreases i
  {
    if i > 0 {
      KidColours(kids[1..], i - 1);
    }
  }

  // ----- the pixel loop -----

  /** A pixel that takes the reserved transparent index. */
  predicate Reserved(q: Cube, c: Rgba)
  {
    c.alpha == 0 && q.addTransparency
  }

  /**
   * The indices the pixel loop of `assignment()` writes: 0 for a
   * transparent pixel when index 0 is reserved, otherwise the low byte of
   * the index the search picks. The search's index carries over between
   * pixels; it matters only when the tree holds no colour at all, and then
   * every pixel gets 0.
   */
  method AssignPixels(q: Cube, pixels: seq<int>, alphaToBitmask: bool) returns (out: seq<Byte>)
    requires Valid(q)
    ensures |out| == |pixels|
    ensures forall i :: 0 <= i < |pixels| && Reserved(q, Channels(pixels[i], alphaToBitmask)) ==> out[i] == 0
    ensures Colours(q.root) == 0 ==> forall i :: 0 <= i < |pixels| ==> out[i] == 0
    ensures Colours(q.root) >= 1 ==> forall i :: 0 <= i < |pixels| && !Reserved(q, Channels(pixels[i], alphaToBitmask)) ==>
      out[i] == LowByte(Pick(q, Channels(pixels[i], alphaToBitmask), 0))
  {
    out := [];
    var carried := 0;
    var i := 0;
    while i < |pixels|
      invariant 0 <= i <= |pixels| && |out| == i
      invariant Colours(q.root) == 0 ==> carried == 0
      invariant forall j :: 0 <= j < i && Reserved(q, Channels(pixels[j], alphaToBitmask)) ==> out[j] == 0
      invariant Colours(q.root) == 0 ==> forall j :: 0 <= j < i ==> out[j] == 0
      invariant Colours(q.root) >= 1 ==> forall j :: 0 <= j < i && !Reserved(q, Channels(pixels[j], alphaToBitmask)) ==>
        out[j] == LowByte(Pick(q, Channels(pixels[j], alphaToBitmask), 0))
    {
      var c := Channels(pixels[i], alphaToBitmask);
      if Reserved(q, c) {
        out := out + [0];
      } else {
        var k := Pick(q, c, carried);
        if Colours(q.root) >= 1 {
          PickNearest(q, c, carried);
        } else {
          PickNothing(q, c, carried);
        }
        out := out + [LowByte(k)];
        carried := k;
      }
      i := i + 1;
    }
  }
}
