/**
 * Pruning: Node.pruneChild hands a node's `unique` and colour totals to its
 * parent and empties the parent's slot; Node.pruneLevel and Node.reduce
 * walk the tree children first and prune every node a condition selects.
 * Both walks are one traversal here, `SweepNode`. Reduce also keeps, for
 * the nodes it leaves, the smallest pixel count and the number with
 * `unique != 0`; pruneLevel ignores those two results.
 */
module OctreePrune {
  import opened JavaInt
  import opened Octree

  /** The condition a walk prunes on: the deepest level (pruneLevel) or a pixel threshold (reduce). */
  datatype Cut = AtLevel(depth: int) | AtMost(threshold: int)

  predicate Cuts(cut: Cut, t: Tree)
    requires t.Node?
  {
    match cut
    case AtLevel(d) => t.level == d
    case AtMost(th) => t.numPixels <= th
  }

  /**
   * The result of walking one node: the node after its children were
   * walked, whether it was pruned, the running minimum `next`, the number
   * of kept nodes with `unique != 0` and the number of pruneChild calls.
   */
  datatype Visit = Visit(node: Tree, pruned: bool, next: int, colors: nat, removed: nat)

  /** The result of walking a run of slots, with the statistics the pruned ones handed up. */
  datatype Swept = Swept(kids: seq<Tree>, absorbed: Stats, next: int, colors: nat, removed: nat)

  /** What the parent's slot holds after the walk: nothing once the node was pruned. */
  function Kept(v: Visit): Tree
  {
    if v.pruned then Nil else v.node
  }

  /** What the walk hands to the parent: a pruned node's statistics, after it absorbed its own children. */
  function Handed(v: Visit): Stats
  {
    if v.pruned && v.node.Node? then v.node.stats else NoStats
  }

  /**
   * Walks a node: its children first (absorbing the ones that get pruned),
   * then the node itself. An empty slot is left as it is.
   */
  function SweepNode(t: Tree, cut: Cut, next: int): (v: Visit)
    ensures v.node.Nil? == t.Nil?
    ensures v.pruned ==> t.Node?
    ensures t.Node? ==>
      (v.node.Node? && v.node.level == t.level && v.node.mid == t.mid && v.node.numPixels == t.numPixels
       && |v.node.children| == |t.children| && v.pruned == Cuts(cut, t))
    decreases t
  {
    if t.Nil? then Visit(Nil, false, next, 0, 0)
    else
      var s := SweepKids(t.children, cut, next);
      var m := t.(children := s.kids, stats := Add(t.stats, s.absorbed));
      if Cuts(cut, m) then Visit(m, true, s.next, s.colors, s.removed + 1)
      else Visit(m, false, Min(s.next, m.numPixels), s.colors + (if m.stats.unique != 0 then 1 else 0), s.removed)
  }

  /** Walks slots in order 0..15, threading the running minimum through them. */
  function SweepKids(kids: seq<Tree>, cut: Cut, next: int): (s: Swept)
    ensures |s.kids| == |kids|
    decreases kids
  {
    if kids == [] then Swept([], NoStats, next, 0, 0)
    else
      var v := SweepNode(kids[0], cut, next);
      var rest := SweepKids(kids[1..], cut, v.next);
      Swept([Kept(v)] + rest.kids,
            if v.pruned then Add(v.node.stats, rest.absorbed) else rest.absorbed,
            rest.next, v.colors + rest.colors, v.removed + rest.removed)
  }

  /** A node the cut selects has only children it selects too, so pruning never orphans a subtree. */
  predicate Closed(cut: Cut, t: Tree)
    decreases t
  {
    t.Nil? ||
    ((Cuts(cut, t) ==> AllCut(cut, t.children)) && ClosedKids(cut, t.children))
  }

  predicate ClosedKids(cut: Cut, kids: seq<Tree>)
    decreases kids
  {
    kids == [] || (Closed(cut, kids[0]) && ClosedKids(cut, kids[1..]))
  }

  /** Every node in the run of slots is one the cut selects. */
  predicate AllCut(cut: Cut, kids: seq<Tree>)
  {
    kids == [] || ((kids[0].Node? ==> Cuts(cut, kids[0])) && AllCut(cut, kids[1..]))
  }

  // ----- a pruned node takes its whole subtree with it -----

  /** Where the cut selects every child, the walk leaves every slot empty. */
  lemma {:induction false} SweepKidsPrunesAll(kids: seq<Tree>, cut: Cut, next: int)
    requires AllCut(cut, kids)
    ensures AllNil(SweepKids(kids, cut, next).kids)
    decreases kids
  {
    if kids != [] {
      var v := SweepNode(kids[0], cut, next);
      SweepKidsPrunesAll(kids[1..], cut, v.next);
      AllNilCons(SweepKids(kids[1..], cut, v.next).kids);
    }
  }

  /** A pruned node has no children left: pruneChild never detaches a populated subtree. */
  lemma SweepNodePrunes(t: Tree, cut: Cut, next: int)
    requires Closed(cut, t) && SweepNode(t, cut, next).pruned
    ensures AllNil(SweepNode(t, cut, next).node.children)
  {
    SweepKidsPrunesAll(t.children, cut, next);
  }

  // ----- statistics move up and are never lost -----

  /** What a pruned node hands up plus what is left in its slot is what the subtree held. */
  lemma {:induction false} SweepNodeStats(t: Tree, cut: Cut, next: int)
    requires Closed(cut, t)
    ensures var v := SweepNode(t, cut, next);
      Add(TreeStats(Kept(v)), Handed(v)) == TreeStats(t)
    decreases t, 1
  {
    if t.Node? {
      var s := SweepKids(t.children, cut, next);
      var v := SweepNode(t, cut, next);
      SweepKidsStats(t.children, cut, next);
      if v.pruned {
        SweepNodePrunes(t, cut, next);
        EmptyKidsStats(s.kids);
        PrunedStats(t.stats, s.absorbed, KidsStats(t.children));
      } else {
        KeptStats(t.stats, s.absorbed, KidsStats(s.kids), KidsStats(t.children));
      }
    } else {
      EmptySlot(t, cut, next);
    }
  }

  lemma EmptySlot(t: Tree, cut: Cut, next: int)
    requires t.Nil?
    ensures var v := SweepNode(t, cut, next);
      Add(TreeStats(Kept(v)), Handed(v)) == TreeStats(t)
  {
    var v := SweepNode(t, cut, next);
    assert Kept(v) == Nil && Handed(v) == NoStats;
    ZeroSum(TreeStats(Kept(v)), Handed(v), TreeStats(t));
  }

  lemma ZeroSum(a: Stats, b: Stats, c: Stats)
    requires a == NoStats && b == NoStats && c == NoStats
    ensures Add(a, b) == c
  {
  }

  /** Over a run of slots: what is left plus what was handed up is what the slots held. */
  lemma {:induction false} SweepKidsStats(kids: seq<Tree>, cut: Cut, next: int)
    requires ClosedKids(cut, kids)
    ensures Add(KidsStats(SweepKids(kids, cut, next).kids), SweepKids(kids, cut, next).absorbed) == KidsStats(kids)
    decreases kids, 0
  {
    if kids == [] {
      SweptNothing(kids, cut, next);
    } else {
      var v := SweepNode(kids[0], cut, next);
      var rest := SweepKids(kids[1..], cut, v.next);
      var s := SweepKids(kids, cut, next);
      assert s.kids == [Kept(v)] + rest.kids;
      assert s.absorbed == (if v.pruned then Add(v.node.stats, rest.absorbed) else rest.absorbed);
      SweepNodeStats(kids[0], cut, next);
      SweepKidsStats(kids[1..], cut, v.next);
      ConsSums(Kept(v), rest.kids);
      AbsorbedStep(v, rest.absorbed, s.absorbed);
      Combine(KidsStats(s.kids), s.absorbed, KidsStats(kids), TreeStats(Kept(v)), KidsStats(rest.kids),
              Handed(v), rest.absorbed, TreeStats(kids[0]), KidsStats(kids[1..]));
    }
  }

  lemma SweptNothing(kids: seq<Tree>, cut: Cut, next: int)
    requires kids == []
    ensures Add(KidsStats(SweepKids(kids, cut, next).kids), SweepKids(kids, cut, next).absorbed) == KidsStats(kids)
  {
    var s := SweepKids(kids, cut, next);
    assert s.kids == [] && s.absorbed == NoStats;
    ZeroSum(KidsStats(s.kids), s.absorbed, KidsStats(kids));
  }

  lemma AbsorbedStep(v: Visit, restAbsorbed: Stats, absorbed: Stats)
    requires v.pruned ==> v.node.Node?
    requires absorbed == if v.pruned then Add(v.node.stats, restAbsorbed) else restAbsorbed
    ensures absorbed == Add(Handed(v), restAbsorbed)
  {
  }

  lemma Combine(left: Stats, absorbed: Stats, all: Stats, a: Stats, b: Stats, h: Stats, r: Stats, head: Stats, tail: Stats)
    requires left == Add(a, b) && absorbed == Add(h, r)
    requires Add(a, h) == head && Add(b, r) == tail && all == Add(head, tail)
    ensures Add(left, absorbed) == all
  {
  }

  lemma PrunedStats(own: Stats, absorbed: Stats, kids: Stats)
    requires Add(NoStats, absorbed) == kids
    ensures Add(NoStats, Add(own, absorbed)) == Add(own, kids)
  {
  }

  lemma KeptStats(own: Stats, absorbed: Stats, left: Stats, kids: Stats)
    requires Add(left, absorbed) == kids
    ensures Add(Add(Add(own, absorbed), left), NoStats) == Add(own, kids)
  {
  }

  // ----- the counters a walk returns -----

  /** Each pruneChild removes one node: the nodes removed plus the nodes left are the nodes there were. */
  lemma {:induction false} SweepNodeCount(t: Tree, cut: Cut, next: int)
    requires Closed(cut, t)
    ensures Count(Kept(SweepNode(t, cut, next))) + SweepNode(t, cut, next).removed == Count(t)
    decreases t, 1
  {
    if t.Node? {
      var s := SweepKids(t.children, cut, next);
      SweepKidsCount(t.children, cut, next);
      if SweepNode(t, cut, next).pruned {
        SweepNodePrunes(t, cut, next);
        EmptyKids(s.kids);
      }
    }
  }

  lemma {:induction false} SweepKidsCount(kids: seq<Tree>, cut: Cut, next: int)
    requires ClosedKids(cut, kids)
    ensures KidsCount(SweepKids(kids, cut, next).kids) + SweepKids(kids, cut, next).removed == KidsCount(kids)
    decreases kids, 0
  {
    if kids != [] {
      var v := SweepNode(kids[0], cut, next);
      var rest := SweepKids(kids[1..], cut, v.next);
      SweepNodeCount(kids[0], cut, next);
      SweepKidsCount(kids[1..], cut, v.next);
      ConsSums(Kept(v), rest.kids);
    }
  }

  /** The colour count reduce returns is the number of kept nodes with `unique != 0`. */
  lemma {:induction false} SweepNodeColors(t: Tree, cut: Cut, next: int)
    requires Closed(cut, t)
    ensures SweepNode(t, cut, next).colors == Colours(Kept(SweepNode(t, cut, next)))
    decreases t, 1
  {
    if t.Node? {
      var s := SweepKids(t.children, cut, next);
      SweepKidsColors(t.children, cut, next);
      if SweepNode(t, cut, next).pruned {
        SweepNodePrunes(t, cut, next);
        EmptyKids(s.kids);
      }
    }
  }

  lemma {:induction false} SweepKidsColors(kids: seq<Tree>, cut: Cut, next: int)
    requires ClosedKids(cut, kids)
    ensures SweepKids(kids, cut, next).colors == KidsColours(SweepKids(kids, cut, next).kids)
    decreases kids, 0
  {
    if kids != [] {
      var v := SweepNode(kids[0], cut, next);
      var rest := SweepKids(kids[1..], cut, v.next);
      SweepNodeColors(kids[0], cut, next);
      SweepKidsColors(kids[1..], cut, v.next);
      ConsSums(Kept(v), rest.kids);
    }
  }

  /** The threshold reduce returns is the smallest pixel count left, or what it was given if smaller. */
  lemma {:induction false} SweepNodeNext(t: Tree, cut: Cut, next: int)
    requires Closed(cut, t) && next <= MaxInt
    ensures SweepNode(t, cut, next).next == Min(next, TreeMin(Kept(SweepNode(t, cut, next))))
    decreases t, 1
  {
    if t.Node? {
      var s := SweepKids(t.children, cut, next);
      SweepKidsNext(t.children, cut, next);
      if SweepNode(t, cut, next).pruned {
        SweepNodePrunes(t, cut, next);
        EmptyKids(s.kids);
      }
    }
  }

  lemma {:induction false} SweepKidsNext(kids: seq<Tree>, cut: Cut, next: int)
    requires ClosedKids(cut, kids) && next <= MaxInt
    ensures SweepKids(kids, cut, next).next == Min(next, KidsMin(SweepKids(kids, cut, next).kids))
    decreases kids, 0
  {
    if kids != [] {
      var v := SweepNode(kids[0], cut, next);
      var rest := SweepKids(kids[1..], cut, v.next);
      SweepNodeNext(kids[0], cut, next);
      SweepKidsNext(kids[1..], cut, v.next);
      ConsSums(Kept(v), rest.kids);
    }
  }

  /**
   * Pruning never adds a palette colour: a parent that starts holding
   * statistics does so in place of a pruned node that held them.
   */
  lemma {:induction false} SweepNodeFewer(t: Tree, cut: Cut, next: int)
    requires Closed(cut, t)
    ensures var v := SweepNode(t, cut, next);
      Colours(Kept(v)) + (if Handed(v).unique != 0 then 1 else 0) <= Colours(t)
    decreases t, 1
  {
    if t.Node? {
      var s := SweepKids(t.children, cut, next);
      var v := SweepNode(t, cut, next);
      SweepKidsFewer(t.children, cut, next);
      if v.pruned {
        SweepNodeStats(t, cut, next);
        SweepNodePrunes(t, cut, next);
        EmptyKids(s.kids);
        EmptyKidsStats(s.kids);
        if TreeStats(t).unique != 0 {
          ColoursPositive(t);
        }
      }
    }
  }

  lemma {:induction false} SweepKidsFewer(kids: seq<Tree>, cut: Cut, next: int)
    requires ClosedKids(cut, kids)
    ensures var s := SweepKids(kids, cut, next);
      KidsColours(s.kids) + (if s.absorbed.unique != 0 then 1 else 0) <= KidsColours(kids)
    decreases kids, 0
  {
    if kids != [] {
      var v := SweepNode(kids[0], cut, next);
      var rest := SweepKids(kids[1..], cut, v.next);
      SweepNodeFewer(kids[0], cut, next);
      SweepKidsFewer(kids[1..], cut, v.next);
      ConsSums(Kept(v), rest.kids);
      AbsorbedStep(v, rest.absorbed, SweepKids(kids, cut, next).absorbed);
    }
  }

  // ----- what a walk keeps -----

  /**
   * Merging the deepest level leaves a tree one level shallower; a reduce
   * pass leaves the shape's depth as it was.
   */
  lemma {:induction false} SweepNodeShape(t: Tree, cut: Cut, next: int, level: int, mid: Rgba, depth: int)
    requires Shape(t, level, mid, depth)
    requires cut.AtLevel? ==> cut.depth == depth
    ensures Shape(Kept(SweepNode(t, cut, next)), level, mid, if cut.AtLevel? then depth - 1 else depth)
    decreases t, 1
  {
    if t.Node? {
      SweepKidsShape(t.children, cut, next, 0, level, mid, depth);
    }
  }

  lemma {:induction false} SweepKidsShape(kids: seq<Tree>, cut: Cut, next: int, from: int, level: int, mid: Rgba, depth: int)
    requires ShapeKids(kids, from, level, mid, depth)
    requires cut.AtLevel? ==> cut.depth == depth
    ensures ShapeKids(SweepKids(kids, cut, next).kids, from, level, mid, if cut.AtLevel? then depth - 1 else depth)
    decreases kids, 0
  {
    if kids != [] {
      var v := SweepNode(kids[0], cut, next);
      var rest := SweepKids(kids[1..], cut, v.next);
      ShapeKidsSplit(kids, from, level, mid, depth);
      if kids[0].Node? {
        SweepNodeShape(kids[0], cut, next, level + 1, ChildMid(mid, from, level + 1), depth);
      }
      SweepKidsShape(kids[1..], cut, v.next, from + 1, level, mid, depth);
      ShapeKidsCons(Kept(v), rest.kids, from, level, mid, if cut.AtLevel? then depth - 1 else depth);
    }
  }

  /** A kept node keeps its pixel count and its subtree's statistics, so the count still matches. */
  lemma {:induction false} SweepNodeConserved(t: Tree, cut: Cut, next: int)
    requires Conserved(t) && Closed(cut, t)
    ensures Conserved(Kept(SweepNode(t, cut, next)))
    decreases t, 1
  {
    var v := SweepNode(t, cut, next);
    if t.Node? && !v.pruned {
      SweepNodeStats(t, cut, next);
      SweepKidsConserved(t.children, cut, next);
    }
  }

  lemma {:induction false} SweepKidsConserved(kids: seq<Tree>, cut: Cut, next: int)
    requires ConservedKids(kids) && ClosedKids(cut, kids)
    ensures ConservedKids(SweepKids(kids, cut, next).kids)
    decreases kids, 0
  {
    if kids != [] {
      var v := SweepNode(kids[0], cut, next);
      var rest := SweepKids(kids[1..], cut, v.next);
      ConservedKidsSplit(kids);
      SweepNodeConserved(kids[0], cut, next);
      SweepKidsConserved(kids[1..], cut, v.next);
      ConservedKidsCons(Kept(v), rest.kids);
    }
  }

  /** Totals stay within 0..255 times `unique` when statistics are merged. */
  lemma {:induction false} SweepNodeSane(t: Tree, cut: Cut, next: int)
    requires Sane(t)
    ensures Sane(Kept(SweepNode(t, cut, next))) && SaneStats(Handed(SweepNode(t, cut, next)))
    decreases t, 1
  {
    if t.Node? {
      var s := SweepKids(t.children, cut, next);
      SweepKidsSane(t.children, cut, next);
      SaneAdd(t.stats, s.absorbed);
    }
  }

  lemma {:induction false} SweepKidsSane(kids: seq<Tree>, cut: Cut, next: int)
    requires SaneKids(kids)
    ensures SaneKids(SweepKids(kids, cut, next).kids) && SaneStats(SweepKids(kids, cut, next).absorbed)
    decreases kids, 0
  {
    if kids != [] {
      var v := SweepNode(kids[0], cut, next);
      var rest := SweepKids(kids[1..], cut, v.next);
      SaneKidsSplit(kids);
      SweepNodeSane(kids[0], cut, next);
      SweepKidsSane(kids[1..], cut, v.next);
      SaneKidsCons(Kept(v), rest.kids);
      AbsorbedStep(v, rest.absorbed, SweepKids(kids, cut, next).absorbed);
      SaneAdd(Handed(v), rest.absorbed);
    }
  }

  /** After a reduce pass every node left has more pixels than the threshold. */
  lemma {:induction false} SweepNodeAbove(t: Tree, th: int, next: int)
    ensures Above(Kept(SweepNode(t, AtMost(th), next)), th)
    decreases t, 1
  {
    if t.Node? {
      SweepKidsAbove(t.children, th, next);
    }
  }

  lemma {:induction false} SweepKidsAbove(kids: seq<Tree>, th: int, next: int)
    ensures AboveKids(SweepKids(kids, AtMost(th), next).kids, th)
    decreases kids, 0
  {
    if kids != [] {
      var v := SweepNode(kids[0], AtMost(th), next);
      var rest := SweepKids(kids[1..], AtMost(th), v.next);
      SweepNodeAbove(kids[0], th, next);
      SweepKidsAbove(kids[1..], th, v.next);
      AboveKidsCons(Kept(v), rest.kids, th);
    }
  }

  // ----- when the walks are closed -----

  /** Under the shape, the nodes at the deepest level have no children: pruneLevel is closed. */
  lemma {:induction false} ShapeClosed(t: Tree, level: int, mid: Rgba, depth: int)
    requires Shape(t, level, mid, depth)
    ensures Closed(AtLevel(depth), t)
    decreases t, 1
  {
    if t.Node? {
      ShapeKidsClosed(t.children, 0, level, mid, depth);
      if t.level == depth {
        ShapeKidsDeepest(t.children, 0, level, mid, depth);
      }
    }
  }

  lemma {:induction false} ShapeKidsClosed(kids: seq<Tree>, from: int, level: int, mid: Rgba, depth: int)
    requires ShapeKids(kids, from, level, mid, depth)
    ensures ClosedKids(AtLevel(depth), kids)
    decreases kids, 0
  {
    if kids != [] {
      ShapeKidsSplit(kids, from, level, mid, depth);
      if kids[0].Node? {
        ShapeClosed(kids[0], level + 1, ChildMid(mid, from, level + 1), depth);
      }
      ShapeKidsClosed(kids[1..], from + 1, level, mid, depth);
    }
  }

  lemma {:induction false} ShapeKidsDeepest(kids: seq<Tree>, from: int, level: int, mid: Rgba, depth: int)
    requires ShapeKids(kids, from, level, mid, depth) && level == depth
    ensures AllCut(AtLevel(depth), kids)
    decreases kids
  {
    if kids != [] {
      ShapeKidsSplit(kids, from, level, mid, depth);
      ShapeKidsDeepest(kids[1..], from + 1, level, mid, depth);
    }
  }

  /** A conserved node holds at least as many pixels as each child, so reduce is closed. */
  lemma {:induction false} ConservedClosed(t: Tree, th: int)
    requires Conserved(t) && Sane(t)
    ensures Closed(AtMost(th), t)
    decreases t, 1
  {
    if t.Node? {
      SaneKidsNonneg(t.children);
      assert TreeStats(t).unique == t.stats.unique + KidsStats(t.children).unique;
      ConservedKidsClosed(t.children, th);
      if t.numPixels <= th {
        KidsCut(t.children, th, t.numPixels);
      }
    }
  }

  lemma {:induction false} ConservedKidsClosed(kids: seq<Tree>, th: int)
    requires ConservedKids(kids) && SaneKids(kids)
    ensures ClosedKids(AtMost(th), kids)
    decreases kids, 0
  {
    if kids != [] {
      ConservedKidsSplit(kids);
      SaneKidsSplit(kids);
      ConservedClosed(kids[0], th);
      ConservedKidsClosed(kids[1..], th);
    }
  }

  /** Slots holding no more pixels together than the threshold are all selected by it. */
  lemma {:induction false} KidsCut(kids: seq<Tree>, th: int, total: int)
    requires ConservedKids(kids) && SaneKids(kids)
    requires KidsStats(kids).unique <= total <= th
    ensures AllCut(AtMost(th), kids)
    decreases kids
  {
    if kids != [] {
      ConservedKidsSplit(kids);
      SaneKidsSplit(kids);
      SaneNonneg(kids[0]);
      SaneKidsNonneg(kids[1..]);
      KidsCut(kids[1..], th, total);
    }
  }
}
