/** The arena stays a forest while `extend_trees` grows it. Every candidate on
    the frontier carries two provisional children that the stump has just
    appended, so nobody holds them as committed children yet; accepting a
    candidate (lines 119-123) therefore gives those two nodes their only
    parent. The re-split (lines 70-83) and every refresh (lines 141-167)
    restore that freshness for the whole frontier. */
module TreeShape {
  import opened FigsNodes
  import opened Leaves
  import opened Frontier
  import opened Growth
  import opened GrowthLoop
  import opened Annotation
  import opened Phases

  /** Node `i` has two distinct provisional children, and no node holds
      either of them as a committed child. */
  ghost predicate FreshAt(nodes: seq<Node>, i: nat)
  {
    && i < |nodes| && nodes[i].leftTemp.Some? && nodes[i].rightTemp.Some?
    && nodes[i].leftTemp != nodes[i].rightTemp
    && forall p :: 0 <= p < |nodes| ==>
         !ChildOf(nodes, p, nodes[i].leftTemp.value) && !ChildOf(nodes, p, nodes[i].rightTemp.value)
  }

  /** Every candidate of `f` has fresh provisional children. */
  ghost predicate FreshTemps(nodes: seq<Node>, f: seq<nat>)
  {
    forall x :: x in f ==> FreshAt(nodes, x)
  }

  /** A forest grown only by appending nodes without children keeps its shape,
      and provisional children in the appended part are fresh. */
  lemma FreshFromPast(nodes: seq<Node>, r: seq<Node>, f: seq<nat>)
    requires WellFormed(nodes) && TreeShaped(nodes) && LinksKept(nodes, r) && TempsPast(r, f, |nodes|)
    ensures TreeShaped(r) && FreshTemps(r, f)
  {
    forall p, j: nat | 0 <= p < |r| && ChildOf(r, p, j)
      ensures p < |nodes| && ChildOf(nodes, p, j) && j < |nodes|
    {
      if p < |nodes| {
        assert LinkOk(nodes, p, nodes[p].left) && LinkOk(nodes, p, nodes[p].right);
      }
    }
    forall x | x in f ensures FreshAt(r, x) {
      assert PastAt(r, x, |nodes|);
    }
  }

  /** Sorting the frontier keeps its candidates, and so their freshness. */
  lemma FreshSorted(nodes: seq<Node>, f: seq<nat>)
    requires FreshTemps(nodes, f)
    ensures FreshTemps(nodes, SortByReduction(nodes, f))
  {
    forall x | x in SortByReduction(nodes, f) ensures FreshAt(nodes, x) {
      assert x in multiset(SortByReduction(nodes, f));
      assert x in multiset(f);
    }
  }

  /** Lines 98-123: committing fresh provisional children keeps the forest. */
  lemma AcceptTreeShaped(g: Grow, i: nat, n: nat)
    requires WellFormed(g.nodes) && TreeShaped(g.nodes) && FreshAt(g.nodes, i)
    ensures TreeShaped(Accept(g, i, n).nodes)
  {
    AcceptFacts(g, i, n);
    var r := Accept(g, i, n).nodes;
    var lt, rt := g.nodes[i].leftTemp.value, g.nodes[i].rightTemp.value;
    forall p, j: nat | 0 <= p < |r| && ChildOf(r, p, j)
      ensures p < |g.nodes| && (p == i ==> j == lt || j == rt) && (p != i ==> ChildOf(g.nodes, p, j))
    {
    }
  }

  /** One accepting pass of the loop keeps the forest, also on the KeyError,
      and leaves every new candidate with fresh provisional children. */
  lemma AfterShape(e: Env, g: Grow)
    requires |e.y| == |e.X| && WellFormed(g.nodes) && InArena(g.nodes, g.trees) && Ready(g.nodes, g.frontier)
    requires g.frontier != [] && TreeShaped(g.nodes) && FreshTemps(g.nodes, g.frontier)
    ensures TreeShaped(Accept(Popped(g), Top(g), |e.X|).nodes)
    ensures var n := After(e, g);
      n.Some? ==> TreeShaped(n.value.nodes) && FreshTemps(n.value.nodes, n.value.frontier)
  {
    var i := Top(g);
    assert i in g.frontier;
    AcceptTreeShaped(Popped(g), i, |e.X|);
    AcceptWellFormed(Popped(g), i, |e.X|);
    var a := Accept(Popped(g), i, |e.X|);
    var res := Targets(e, a.nodes, a.trees);
    var rc := Recompute(a.nodes, a.frontier, e.X, res, e.stump, e.maxFeatures);
    if rc.Some? {
      RecomputeFresh(a.nodes, a.frontier, e.X, res, e.stump, e.maxFeatures);
      RecomputeKept(a.nodes, a.frontier, e.X, res, e.stump, e.maxFeatures);
      forall x | x in rc.value.frontier ensures PastAt(rc.value.nodes, x, |a.nodes|) {
        var k :| 0 <= k < |rc.value.frontier| && rc.value.frontier[k] == x;
        assert x in a.frontier;
      }
      FreshFromPast(a.nodes, rc.value.nodes, rc.value.frontier);
      FreshSorted(rc.value.nodes, rc.value.frontier);
    }
  }

  /** Lines 88-170: the loop keeps the forest whatever way it stops. */
  lemma {:induction false} LoopShape(e: Env, g: Grow, complexity: int)
    requires |e.y| == |e.X| && WellFormed(g.nodes) && InArena(g.nodes, g.trees) && Ready(g.nodes, g.frontier)
    requires TreeShaped(g.nodes) && FreshTemps(g.nodes, g.frontier)
    ensures TreeShaped(Loop(e, g, complexity).g.nodes)
    decreases if complexity < e.maxRules then e.maxRules - complexity else 0
  {
    if g.frontier == [] {
    } else if Key(g.nodes, Top(g)) < e.minDecrease {
      ShapeBelow(e, g, complexity);
    } else if After(e, g).Some? && complexity + 1 < e.maxRules {
      AfterFacts(e, g);
      AfterShape(e, g);
      LoopShape(e, After(e, g).value, complexity + 1);
      LoopUnroll(e, g, complexity);
    } else {
      AfterShape(e, g);
      LoopUnroll(e, g, complexity);
    }
  }

  /** A stop on the threshold only pops the top, so the arena is unchanged. */
  lemma ShapeBelow(e: Env, g: Grow, complexity: int)
    requires |e.y| == |e.X| && WellFormed(g.nodes) && InArena(g.nodes, g.trees) && Ready(g.nodes, g.frontier)
    requires g.frontier != [] && Key(g.nodes, Top(g)) < e.minDecrease
    ensures Loop(e, g, complexity).g.nodes == g.nodes
  {
  }

  /** Lines 66-86: the re-split of the old leaves keeps the forest and gives
      every first candidate fresh provisional children. */
  lemma StartShape(e: Env, nodes: seq<Node>, trees: seq<nat>)
    requires WellFormed(nodes) && InArena(nodes, trees) && TreeShaped(nodes)
    ensures var g := Start(e, nodes, trees); TreeShaped(g.nodes) && FreshTemps(g.nodes, g.frontier)
  {
    var leaves := AllLeaves(nodes, trees);
    AllLeavesInArena(nodes, trees);
    var f := Resplit(nodes, leaves, e.X, e.y, e.stump);
    ResplitFresh(nodes, leaves, e.X, e.y, e.stump);
    FreshFromPast(nodes, f.nodes, f.frontier);
    FreshSorted(f.nodes, f.frontier);
  }

  /** Lines 60-170: a fitted model whose trees form a forest still does after
      the growth, so each tree can be annotated and its leaves collected. */
  lemma ExtensionShape(e: Env, nodes: seq<Node>, trees: seq<nat>, complexity: int)
    requires |e.y| == |e.X| && WellFormed(nodes) && InArena(nodes, trees) && TreeShaped(nodes)
    ensures TreeShaped(Extension(e, nodes, trees, complexity).g.nodes)
  {
    StartShape(e, nodes, trees);
    LoopShape(e, Start(e, nodes, trees), complexity);
  }

  /** Line 194: writing ids and counts changes no link, so the forest stays. */
  lemma AnnotatedShape(nodes: seq<Node>, a: map<nat, Mark>)
    requires TreeShaped(nodes)
    ensures TreeShaped(Annotated(nodes, a))
  {
    var r := Annotated(nodes, a);
    forall p, j: nat | 0 <= p < |r| && ChildOf(r, p, j) ensures ChildOf(nodes, p, j) {
      assert r[p].left == nodes[p].left && r[p].right == nodes[p].right;
    }
  }

  /** Lines 50-56: restricting the sample indices of pending candidates
      changes no link, so the forest stays, also when the loop stops early. */
  lemma RestrictShape(nodes: seq<Node>, ps: seq<nat>, rows: seq<Row>)
    requires forall k :: 0 <= k < |ps| ==> ps[k] < |nodes|
    requires TreeShaped(nodes)
    ensures var r := RestrictAll(nodes, ps, rows); r.Some? ==> TreeShaped(r.value)
  {
    var r := RestrictAll(nodes, ps, rows);
    if r.Some? {
      RestrictAllResult(nodes, ps, rows);
      forall p, j: nat | 0 <= p < |r.value| && ChildOf(r.value, p, j) ensures ChildOf(nodes, p, j) {
        assert r.value[p].left == nodes[p].left && r.value[p].right == nodes[p].right;
      }
    }
  }
}
