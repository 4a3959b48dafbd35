/**
 * Reduction: repeated reduce passes over the classified tree, each with a
 * threshold one above the smallest pixel count the previous pass left,
 * until the nodes with `unique != 0` (plus the reserved transparent entry)
 * fit in the palette.
 */
module OctreeReduce {
  import opened JavaInt
  import opened Wrappers
  import opened Octree
  import opened OctreePrune
  import opened OctreeClassify

  /** One `root.reduce(threshold, MAX_VALUE)`: the cube after the pass and the threshold it returns. */
  datatype Pass = Pass(cube: Cube, next: int)

  /**
   * `m_numColors = firstColor; threshold = root.reduce(threshold, MAX_VALUE)`:
   * the kept nodes with `unique != 0` are counted on top of the reserved entry.
   */
  function ReducePass(q: Cube, threshold: int): Pass
  {
    var v := SweepNode(q.root, AtMost(threshold), MaxInt);
    Pass(q.(root := v.node, numNodes := q.numNodes - v.removed, numColors := q.firstColor + v.colors), v.next)
  }

  /** Below MAX_VALUE the threshold never selects the root, and the pass is closed. */
  lemma PassClosed(q: Cube, threshold: int)
    requires Valid(q) && threshold < MaxInt
    ensures Closed(AtMost(threshold), q.root)
    ensures !SweepNode(q.root, AtMost(threshold), MaxInt).pruned
  {
    ConservedKidsClosed(q.root.children, threshold);
  }

  /**
   * A pass keeps the invariant, and leaves `m_numColors` exactly the
   * reserved entry plus the nodes with `unique != 0`.
   */
  lemma PassValid(q: Cube, threshold: int)
    requires Valid(q) && threshold < MaxInt
    ensures var c := ReducePass(q, threshold).cube;
      && Valid(c) && c.numColors == c.firstColor + Colours(c.root)
      && c.depth == q.depth && c.addTransparency == q.addTransparency && c.firstColor == q.firstColor
  {
    var cut := AtMost(threshold);
    var v := SweepNode(q.root, cut, MaxInt);
    PassClosed(q, threshold);
    SweepNodeShape(q.root, cut, MaxInt, 0, RootMid, q.depth);
    SweepNodeCount(q.root, cut, MaxInt);
    SweepNodeColors(q.root, cut, MaxInt);
    SweepNodeSane(q.root, cut, MaxInt);
    ConservedKidsClosed(q.root.children, threshold);
    assert v.node.children == SweepKids(q.root.children, cut, MaxInt).kids;
    SweepKidsConserved(q.root.children, cut, MaxInt);
  }

  /** A pass moves statistics up the tree but loses none. */
  lemma PassStats(q: Cube, threshold: int)
    requires Valid(q) && threshold < MaxInt
    ensures TreeStats(ReducePass(q, threshold).cube.root) == TreeStats(q.root)
  {
    var v := SweepNode(q.root, AtMost(threshold), MaxInt);
    PassClosed(q, threshold);
    SweepNodeStats(q.root, AtMost(threshold), MaxInt);
    AddNothing(TreeStats(v.node), Handed(v), TreeStats(q.root));
  }

  /**
   * The returned threshold is above the one given, so the passes end; it
   * reaches MAX_VALUE only once the root has no child left.
   */
  lemma PassNext(q: Cube, threshold: int)
    requires Valid(q) && threshold < MaxInt && TreeStats(q.root).unique < MaxInt
    ensures var p := ReducePass(q, threshold);
      && threshold < p.next <= MaxInt
      && (p.next == MaxInt ==> AllNil(p.cube.root.children))
  {
    var cut := AtMost(threshold);
    var v := SweepNode(q.root, cut, MaxInt);
    PassClosed(q, threshold);
    PassValid(q, threshold);
    PassStats(q, threshold);
    SweepNodeNext(q.root, cut, MaxInt);
    SweepNodeAbove(q.root, threshold, MaxInt);
    AboveMin(v.node, threshold);
    if v.next == MaxInt {
      SaneKidsNonneg(v.node.children);
      FullMin(v.node.children);
    }
  }

  /** Every node above the threshold: so is the smallest count. */
  lemma {:induction false} AboveMin(t: Tree, threshold: int)
    requires Above(t, threshold) && threshold < MaxInt
    ensures TreeMin(t) > threshold
    decreases t, 1
  {
    if t.Node? {
      AboveKidsMin(t.children, threshold);
    }
  }

  lemma {:induction false} AboveKidsMin(kids: seq<Tree>, threshold: int)
    requires AboveKids(kids, threshold) && threshold < MaxInt
    ensures KidsMin(kids) > threshold
    decreases kids, 0
  {
    if kids != [] {
      AboveMin(kids[0], threshold);
      AboveKidsMin(kids[1..], threshold);
    }
  }

  /**
   * Below the root a node's count is its subtree's `unique`, under
   * MAX_VALUE: slots whose smallest count is MAX_VALUE are all empty.
   */
  lemma {:induction false} FullMin(kids: seq<Tree>)
    requires ConservedKids(kids) && SaneKids(kids) && KidsStats(kids).unique < MaxInt
    requires KidsMin(kids) >= MaxInt
    ensures AllNil(kids)
    decreases kids
  {
    if kids != [] {
      ConservedKidsSplit(kids);
      SaneKidsSplit(kids);
      SaneNonneg(kids[0]);
      SaneKidsNonneg(kids[1..]);
      FullMin(kids[1..]);
      assert kids == [kids[0]] + kids[1..];
      AllNilCons(kids[1..]);
    }
  }

  /** A root with no children: its own statistics are the tree's, and it is the only possible colour. */
  lemma Collapsed(c: Cube)
    requires Valid(c) && AllNil(c.root.children)
    ensures TreeStats(c.root) == c.root.stats
    ensures Colours(c.root) == if c.root.stats.unique != 0 then 1 else 0
  {
    EmptyKids(c.root.children);
    EmptyKidsStats(c.root.children);
    AddNothing(c.root.stats, KidsStats(c.root.children), TreeStats(c.root));
  }

  /**
   * `reduction()`: passes with rising thresholds while the count exceeds
   * `maxColors`. Once the threshold reaches MAX_VALUE the root is alone,
   * and a further pass would prune the root itself (leaving it detached
   * from the cube, so the palette pass throws); that outcome is `None`.
   * It happens exactly when the reserved entry plus the root's own colour
   * do not fit.
   */
  method Reduction(q: Cube, maxColors: int) returns (r: Option<Cube>)
    requires Valid(q) && TreeStats(q.root).unique < MaxInt
    ensures r.Some? <==> maxColors >= q.firstColor + (if TreeStats(q.root).unique != 0 then 1 else 0)
    ensures r.Some? ==>
      && Valid(r.value) && r.value.numColors <= maxColors
      && TreeStats(r.value.root) == TreeStats(q.root)
      && r.value.depth == q.depth && r.value.addTransparency == q.addTransparency
    ensures q.numColors <= maxColors ==> r == Some(q)
    ensures r.Some? && q.numColors > maxColors ==> r.value.numColors == r.value.firstColor + Colours(r.value.root)
  {
    if q.numColors <= maxColors {
      Fits(q);
      return Some(q);
    }
    var c := q;
    var threshold := 1;
    while c.numColors > maxColors && threshold < MaxInt
      invariant Valid(c) && TreeStats(c.root) == TreeStats(q.root)
      invariant c.depth == q.depth && c.addTransparency == q.addTransparency && c.firstColor == q.firstColor
      invariant 1 <= threshold <= MaxInt
      invariant threshold == MaxInt ==> AllNil(c.root.children)
      invariant threshold > 1 ==> c.numColors == c.firstColor + Colours(c.root)
      invariant threshold == 1 ==> c.numColors > maxColors
      decreases MaxInt - threshold
    {
      c, threshold := ReduceStep(c, threshold);
    }
    r := Finish(c, threshold, maxColors);
  }

  /** One pass of the loop, with what the loop keeps. */
  method ReduceStep(c: Cube, threshold: int) returns (d: Cube, next: int)
    requires Valid(c) && 1 <= threshold < MaxInt && TreeStats(c.root).unique < MaxInt
    ensures Valid(d) && TreeStats(d.root) == TreeStats(c.root)
    ensures d.depth == c.depth && d.addTransparency == c.addTransparency && d.firstColor == c.firstColor
    ensures threshold < next <= MaxInt
    ensures next == MaxInt ==> AllNil(d.root.children)
    ensures d.numColors == d.firstColor + Colours(d.root)
  {
    PassValid(c, threshold);
    PassStats(c, threshold);
    PassNext(c, threshold);
    var p := ReducePass(c, threshold);
    d, next := p.cube, p.next;
  }

  /** A cube that already fits keeps its root colour within the count. */
  lemma Fits(q: Cube)
    requires Valid(q)
    ensures TreeStats(q.root).unique != 0 ==> q.numColors >= q.firstColor + 1
  {
    if TreeStats(q.root).unique != 0 {
      ColoursPositive(q.root);
    }
  }

  /** After the loop: the count fits, or the root stands alone with a count that does not. */
  method Finish(c: Cube, threshold: int, maxColors: int) returns (r: Option<Cube>)
    requires Valid(c) && 1 < threshold <= MaxInt
    requires threshold == MaxInt ==> AllNil(c.root.children)
    requires c.numColors == c.firstColor + Colours(c.root)
    requires c.numColors > maxColors ==> threshold == MaxInt
    ensures r.Some? <==> maxColors >= c.firstColor + (if TreeStats(c.root).unique != 0 then 1 else 0)
    ensures r.Some? ==> r.value == c && c.numColors <= maxColors
  {
    if threshold == MaxInt {
      Collapsed(c);
    }
    Fits(c);
    if c.numColors > maxColors {
      r := None;
    } else {
      r := Some(c);
    }
  }
}
