/**
 * Classification: every opaque pixel walks the tree from the root down to
 * `depth`, creating the nodes it lacks and counting itself in every node
 * on the way; the node at `depth` takes the pixel's channels into its
 * totals. A fully transparent pixel reserves palette index 0 instead.
 * Before a walk, a tree of more than MAX_NODES nodes loses its deepest
 * level and the walk depth shrinks by one.
 */
module OctreeBuild {
  import opened JavaInt
  import opened Octree
  import opened OctreePrune

  /**
   * One pixel's walk below a node: the node afterwards, the nodes it
   * created (each `++numNodes`) and the new nodes at `depth` (each
   * `++m_numColors`).
   */
  datatype Walk = Walk(node: Tree, created: nat, leaves: nat)

  /**
   * The walk below `n`, which sits at `level - 1`: pick the slot the colour
   * selects, create the child there if the slot is empty, count the pixel
   * in it and walk on; past `depth` the node takes the pixel's statistics.
   */
  function Descend(n: Tree, c: Rgba, level: int, depth: int): (w: Walk)
    requires n.Node? && 1 <= level && Shape(n, level - 1, n.mid, depth)
    ensures w.node.Node? && w.node.level == n.level && w.node.mid == n.mid
    ensures w.node.numPixels == n.numPixels && |w.node.children| == |n.children|
    decreases depth + 1 - level
  {
    if level > depth then Walk(n.(stats := Add(n.stats, PixelStats(c))), 0, 0)
    else
      var id := Select(n.mid, c);
      var empty := n.children[id].Nil?;
      EnteredShape(n, c, level, depth);
      var w := Descend(Entered(n, c, level), c, level + 1, depth);
      Walk(n.(children := n.children[id := w.node]),
           w.created + (if empty then 1 else 0),
           w.leaves + (if empty && level == depth then 1 else 0))
  }

  /** The child a walk continues into: the slot's node, or a new one, with the pixel counted. */
  function Entered(n: Tree, c: Rgba, level: int): Tree
    requires n.Node? && |n.children| == MaxChildren && 1 <= level <= MaxTreeDepth
  {
    var id := Select(n.mid, c);
    var child := if n.children[id].Nil? then NewNode(n.mid, id, level) else n.children[id];
    child.(numPixels := child.numPixels + 1)
  }

  /** The slot a colour selects holds a node of the next level, or nothing. */
  lemma SlotShape(n: Tree, id: int, level: int, depth: int)
    requires n.Node? && 1 <= level <= depth && Shape(n, level - 1, n.mid, depth) && 0 <= id < MaxChildren
    ensures Shape(n.children[id], level, ChildMid(n.mid, id, level), depth)
  {
    assert n.children[id].Node? ==> Shape(n.children[id], level, ChildMid(n.mid, 0 + id, level), depth);
  }

  /** Counting a pixel in a node does not change its shape. */
  lemma ShapeBump(t: Tree, k: int, level: int, mid: Rgba, depth: int)
    requires t.Node? && Shape(t, level, mid, depth)
    ensures Shape(t.(numPixels := k), level, mid, depth)
  {
  }

  /** A node without children has the shape of a leaf. */
  lemma LeafShape(t: Tree, level: int, mid: Rgba, depth: int)
    requires t.Node? && t.level == level && t.mid == mid && 0 <= level <= depth <= MaxTreeDepth
    requires |t.children| == MaxChildren && AllNil(t.children)
    ensures Shape(t, level, mid, depth)
  {
  }

  /** A new node is a leaf of the right shape with no statistics. */
  lemma NewShape(t: Tree, mid: Rgba, id: int, level: int, depth: int)
    requires 0 <= id < MaxChildren && 1 <= level <= depth <= MaxTreeDepth && t == NewNode(mid, id, level)
    ensures Shape(t, level, ChildMid(mid, id, level), depth)
  {
    LeafShape(t, level, ChildMid(mid, id, level), depth);
  }

  /** A node without children is sane when its own statistics are. */
  lemma LeafSane(t: Tree)
    requires t.Node? && SaneStats(t.stats) && AllNil(t.children)
    ensures Sane(t) && ConservedKids(t.children)
  {
  }

  lemma NewStats(t: Tree, mid: Rgba, id: int, level: int)
    requires 0 <= id < MaxChildren && 1 <= level <= MaxTreeDepth && t == NewNode(mid, id, level)
    ensures TreeStats(t) == NoStats
  {
    EmptyKidsStats(t.children);
    ZeroSum(t.stats, KidsStats(t.children), NoStats);
  }

  lemma NewCount(t: Tree, mid: Rgba, id: int, level: int)
    requires 0 <= id < MaxChildren && 1 <= level <= MaxTreeDepth && t == NewNode(mid, id, level)
    ensures Count(t) == 1 && Colours(t) == 0
  {
    EmptyKids(t.children);
  }

  lemma NewSane(t: Tree, mid: Rgba, id: int, level: int)
    requires 0 <= id < MaxChildren && 1 <= level <= MaxTreeDepth && t == NewNode(mid, id, level)
    ensures ConservedKids(t.children) && Sane(t)
  {
    LeafSane(t);
  }

  lemma EnteredShape(n: Tree, c: Rgba, level: int, depth: int)
    requires n.Node? && 1 <= level <= depth && Shape(n, level - 1, n.mid, depth)
    ensures var e := Entered(n, c, level);
      e.Node? && e.mid == ChildMid(n.mid, Select(n.mid, c), level) && Shape(e, level, e.mid, depth)
  {
    var id := Select(n.mid, c);
    var slot := n.children[id];
    if slot.Nil? {
      NewShape(NewNode(n.mid, id, level), n.mid, id, level, depth);
      ShapeBump(NewNode(n.mid, id, level), 1, level, ChildMid(n.mid, id, level), depth);
    } else {
      SlotShape(n, id, level, depth);
      ShapeBump(slot, slot.numPixels + 1, level, ChildMid(n.mid, id, level), depth);
    }
  }

  /** The entered child holds the slot's statistics. */
  lemma EnteredStats(n: Tree, c: Rgba, level: int, depth: int)
    requires n.Node? && 1 <= level <= depth && Shape(n, level - 1, n.mid, depth)
    ensures TreeStats(Entered(n, c, level)) == TreeStats(n.children[Select(n.mid, c)])
  {
    var id := Select(n.mid, c);
    if n.children[id].Nil? {
      NewStats(NewNode(n.mid, id, level), n.mid, id, level);
    }
  }

  /** The entered child holds the slot's nodes, plus itself if the slot was empty. */
  lemma EnteredCount(n: Tree, c: Rgba, level: int, depth: int)
    requires n.Node? && 1 <= level <= depth && Shape(n, level - 1, n.mid, depth)
    ensures var e := Entered(n, c, level);
      var slot := n.children[Select(n.mid, c)];
      Colours(e) == Colours(slot) && Count(e) == Count(slot) + (if slot.Nil? then 1 else 0)
  {
    var id := Select(n.mid, c);
    if n.children[id].Nil? {
      NewCount(NewNode(n.mid, id, level), n.mid, id, level);
    }
  }

  /** The entered child's subtrees keep the pixel-count invariant. */
  lemma EnteredConserved(n: Tree, c: Rgba, level: int, depth: int)
    requires n.Node? && 1 <= level <= depth && Shape(n, level - 1, n.mid, depth) && ConservedKids(n.children)
    ensures ConservedKids(Entered(n, c, level).children)
  {
    var id := Select(n.mid, c);
    var slot := n.children[id];
    assert Conserved(slot);
    if slot.Nil? {
      NewSane(NewNode(n.mid, id, level), n.mid, id, level);
    }
  }

  /** The entered child counts the new pixel, which its subtree does not hold yet. */
  lemma EnteredPixels(n: Tree, c: Rgba, level: int, depth: int)
    requires n.Node? && 1 <= level <= depth && Shape(n, level - 1, n.mid, depth) && ConservedKids(n.children)
    ensures Entered(n, c, level).numPixels == TreeStats(Entered(n, c, level)).unique + 1
  {
    var id := Select(n.mid, c);
    var slot := n.children[id];
    if slot.Nil? {
      var t := NewNode(n.mid, id, level);
      NewStats(t, n.mid, id, level);
      BumpUnique(t, 1);
    } else {
      assert Conserved(slot);
      BumpUnique(slot, slot.numPixels + 1);
    }
  }

  lemma BumpUnique(t: Tree, k: int)
    requires t.Node?
    ensures TreeStats(t.(numPixels := k)).unique == TreeStats(t).unique
  {
  }

  /**
   * One level of a walk above `depth`: the child it enters, the walk below
   * that child, and how the two make up the walk below `n`.
   */
  lemma DescendStep(n: Tree, c: Rgba, level: int, depth: int) returns (e: Tree, w: Walk)
    requires n.Node? && 1 <= level <= depth && Shape(n, level - 1, n.mid, depth)
    ensures e == Entered(n, c, level) && e.Node? && Shape(e, level, e.mid, depth)
    ensures e.mid == ChildMid(n.mid, Select(n.mid, c), level)
    ensures w == Descend(e, c, level + 1, depth)
    ensures var r := Descend(n, c, level, depth);
      var slot := n.children[Select(n.mid, c)];
      && r.node == n.(children := n.children[Select(n.mid, c) := w.node])
      && r.created == w.created + (if slot.Nil? then 1 else 0)
      && r.leaves == w.leaves + (if slot.Nil? && level == depth then 1 else 0)
  {
    EnteredShape(n, c, level, depth);
    e := Entered(n, c, level);
    w := Descend(e, c, level + 1, depth);
  }

  // ----- what a walk adds -----

  /** A walk adds exactly the pixel's statistics to the subtree. */
  lemma {:induction false} DescendStats(n: Tree, c: Rgba, level: int, depth: int)
    requires n.Node? && 1 <= level && Shape(n, level - 1, n.mid, depth)
    ensures TreeStats(Descend(n, c, level, depth).node) == Add(TreeStats(n), PixelStats(c))
    decreases depth + 1 - level
  {
    var r := Descend(n, c, level, depth);
    if level > depth {
      StatsOwn(n.stats, KidsStats(n.children), PixelStats(c));
    } else {
      var id := Select(n.mid, c);
      var e, w := DescendStep(n, c, level, depth);
      EnteredStats(n, c, level, depth);
      DescendStats(e, c, level + 1, depth);
      KidsStatsAt(n.children, id, w.node, PixelStats(c));
      StatsBelow(n.stats, KidsStats(n.children), KidsStats(r.node.children), PixelStats(c));
    }
  }

  lemma StatsOwn(own: Stats, kids: Stats, p: Stats)
    ensures Add(Add(own, p), kids) == Add(Add(own, kids), p)
  {
  }

  lemma StatsBelow(own: Stats, kids: Stats, kids': Stats, p: Stats)
    requires kids' == Add(kids, p)
    ensures Add(own, kids') == Add(Add(own, kids), p)
  {
  }

  /** A walk adds one node per empty slot it passes, at most one per level. */
  lemma {:induction false} DescendCount(n: Tree, c: Rgba, level: int, depth: int)
    requires n.Node? && 1 <= level && Shape(n, level - 1, n.mid, depth)
    ensures var r := Descend(n, c, level, depth);
      Count(r.node) == Count(n) + r.created && r.created <= depth + 1 - level && r.leaves <= r.created
    decreases depth + 1 - level
  {
    var r := Descend(n, c, level, depth);
    if level <= depth {
      var id := Select(n.mid, c);
      var e, w := DescendStep(n, c, level, depth);
      EnteredCount(n, c, level, depth);
      DescendCount(e, c, level + 1, depth);
      KidsCountAt(n.children, id, w.node);
      assert Count(r.node) == 1 + KidsCount(r.node.children);
    }
  }

  // ----- what a walk keeps -----

  /** The walk leaves the tree's shape as it was. */
  lemma {:induction false} DescendShape(n: Tree, c: Rgba, level: int, depth: int)
    requires n.Node? && 1 <= level && Shape(n, level - 1, n.mid, depth)
    ensures Shape(Descend(n, c, level, depth).node, level - 1, n.mid, depth)
    decreases depth + 1 - level
  {
    if level <= depth {
      var id := Select(n.mid, c);
      var e, w := DescendStep(n, c, level, depth);
      DescendShape(e, c, level + 1, depth);
      assert ShapeKids(n.children[id := w.node], 0, level - 1, n.mid, depth);
    }
  }

  /** Below the walk's start, every node's pixel count is still the pixels its subtree holds. */
  lemma {:induction false} DescendConserved(n: Tree, c: Rgba, level: int, depth: int)
    requires n.Node? && 1 <= level && Shape(n, level - 1, n.mid, depth) && ConservedKids(n.children)
    ensures ConservedKids(Descend(n, c, level, depth).node.children)
    decreases depth + 1 - level
  {
    if level <= depth {
      var id := Select(n.mid, c);
      var slot := n.children[id];
      var e, w := DescendStep(n, c, level, depth);
      EnteredConserved(n, c, level, depth);
      EnteredPixels(n, c, level, depth);
      DescendConserved(e, c, level + 1, depth);
      DescendStats(e, c, level + 1, depth);
      assert Conserved(w.node);
      assert ConservedKids(n.children[id := w.node]);
    }
  }

  /** Totals stay within 0..255 times `unique` when the pixel's channels do. */
  lemma {:induction false} DescendSane(n: Tree, c: Rgba, level: int, depth: int)
    requires n.Node? && 1 <= level && Shape(n, level - 1, n.mid, depth) && Sane(n) && InBox(c)
    ensures Sane(Descend(n, c, level, depth).node)
    decreases depth + 1 - level
  {
    if level > depth {
      PixelSane(c);
      SaneAdd(n.stats, PixelStats(c));
    } else {
      var id := Select(n.mid, c);
      var e, w := DescendStep(n, c, level, depth);
      if n.children[id].Nil? {
        NewSane(NewNode(n.mid, id, level), n.mid, id, level);
      } else {
        assert Sane(n.children[id]);
      }
      assert Sane(e);
      DescendSane(e, c, level + 1, depth);
      assert SaneKids(n.children[id := w.node]);
    }
  }

  /** A node at `depth` that holds pixels has no children, so it holds them itself. */
  lemma DeepestHolds(n: Tree, id: int, depth: int)
    requires n.Node? && 1 <= depth && Shape(n, depth - 1, n.mid, depth) && ConservedKids(n.children)
    requires 0 <= id < MaxChildren && n.children[id].Node?
    ensures n.children[id].stats.unique >= 1
  {
    var t := n.children[id];
    SlotShape(n, id, depth, depth);
    assert Conserved(t);
    EmptyKidsStats(t.children);
  }

  lemma ColoursOf(t: Tree)
    requires t.Node?
    ensures Colours(t) == (if t.stats.unique != 0 then 1 else 0) + KidsColours(t.children)
  {
  }

  /**
   * A walk adds at most one node with `unique != 0`: the node at `depth`
   * when it was created for this pixel (an existing one already counted).
   */
  lemma {:induction false} DescendColours(n: Tree, c: Rgba, level: int, depth: int)
    requires n.Node? && 1 <= level && Shape(n, level - 1, n.mid, depth) && ConservedKids(n.children)
    ensures var r := Descend(n, c, level, depth);
      Colours(r.node) <= Colours(n) + r.leaves + (if level > depth && n.stats.unique == 0 then 1 else 0)
    decreases depth + 1 - level
  {
    var r := Descend(n, c, level, depth);
    if level <= depth {
      var id := Select(n.mid, c);
      var slot := n.children[id];
      var e, w := DescendStep(n, c, level, depth);
      EnteredCount(n, c, level, depth);
      EnteredConserved(n, c, level, depth);
      assert Conserved(slot);
      if slot.Node? && level == depth {
        DeepestHolds(n, id, depth);
      }
      DescendColours(e, c, level + 1, depth);
      var extra := if level + 1 > depth && e.stats.unique == 0 then 1 else 0;
      assert Colours(w.node) <= Colours(e) + w.leaves + extra;
      assert extra <= (if slot.Nil? && level == depth then 1 else 0);
      KidsCountAt(n.children, id, w.node);
      ColoursOf(r.node);
      ColoursOf(n);
    } else {
      ColoursOf(r.node);
      ColoursOf(n);
    }
  }

  // ----- how many nodes a tree of a given depth holds -----

  /** The most nodes a subtree `h` levels deep can hold: 1 + 16 + ... + 16^h. */
  function Cap(h: int): (r: nat)
    ensures r >= 1
    decreases h
  {
    if h <= 0 then 1 else 1 + MaxChildren * Cap(h - 1)
  }

  lemma {:induction false} CountCap(t: Tree, level: int, mid: Rgba, depth: int)
    requires Shape(t, level, mid, depth)
    ensures Count(t) <= Cap(depth - level)
    decreases t, 1
  {
    if t.Node? {
      KidsCap(t.children, 0, level, mid, depth);
      if level == depth {
        assert AllNil(t.children);
        EmptyKids(t.children);
      }
    }
  }

  lemma {:induction false} KidsCap(kids: seq<Tree>, from: int, level: int, mid: Rgba, depth: int)
    requires ShapeKids(kids, from, level, mid, depth)
    ensures KidsCount(kids) <= |kids| * Cap(depth - level - 1)
    decreases kids, 0
  {
    if kids != [] {
      ShapeKidsSplit(kids, from, level, mid, depth);
      if kids[0].Node? {
        CountCap(kids[0], level + 1, ChildMid(mid, from, level + 1), depth);
      }
      KidsCap(kids[1..], from + 1, level, mid, depth);
      var c := Cap(depth - level - 1);
      assert (|kids| - 1) * c + c == |kids| * c;
    }
  }

  /** A tree four levels deep holds at most 69905 nodes, fewer than MAX_NODES. */
  lemma ShallowFits(root: Tree, depth: int)
    requires Shape(root, 0, RootMid, depth) && depth <= 4
    ensures Count(root) <= 69905 < MaxNodes
  {
    CountCap(root, 0, RootMid, depth);
    assert Cap(4) == 69905;
    CapGrows(depth, 4);
  }

  lemma {:induction false} CapGrows(a: int, b: int)
    requires a <= b
    ensures Cap(a) <= Cap(b)
    decreases b - a
  {
    if a < b {
      CapGrows(a, b - 1);
    }
  }
}
