/** One step at a time, what the growth loop of `extend_trees` does to the
    arena and to its frontier: the re-split of the old leaves, the acceptance
    of a split, and the recomputation of every candidate against its tree's
    residual. Each step is a function of the state before it; the loops of
    `extend_trees` are proved against these functions. */
module Growth {
  import opened FigsNodes
  import opened Frontier

  /** The arena together with a frontier of candidate positions. */
  datatype Front = Front(nodes: seq<Node>, frontier: seq<nat>)

  /** The arena, the tree roots and the frontier. */
  datatype Grow = Grow(nodes: seq<Node>, trees: seq<nat>, frontier: seq<nat>)

  predicate InArena(nodes: seq<Node>, s: seq<nat>)
  {
    forall k :: 0 <= k < |s| ==> s[k] < |nodes|
  }

  /** The positions at which a sample mask is true, in increasing order. */
  function Positions(mask: seq<bool>): (r: seq<nat>)
    ensures forall x: nat :: x in r <==> x < |mask| && mask[x]
    ensures forall a, b :: 0 <= a < b < |r| ==> r[a] < r[b]
  {
    if mask == [] then []
    else
      var m := mask[..|mask| - 1];
      var r := Positions(m);
      assert forall x: nat :: x < |m| ==> m[x] == mask[x];
      forall a | 0 <= a < |r| ensures r[a] < |m| {
        assert r[a] in r;
      }
      r + (if mask[|mask| - 1] then [|mask| - 1] else [])
  }

  /** The provisional children a stump brings into the arena. */
  function Children(s: Stump): seq<Node>
  {
    if s.split.Some? then [ChildNode(s.split.value.left), ChildNode(s.split.value.right)] else []
  }

  /** Where the `k`-th provisional child of `s` lands when appended to `nodes`. */
  function TempAt(nodes: seq<Node>, s: Stump, k: nat): Option<nat>
  {
    if s.split.Some? then Some(|nodes| + k) else None
  }

  /** `setattrs(feature, threshold, impurity_reduction, left_temp, right_temp)`
      with the values of the stump result `s`; its children join the arena. */
  function SetSplit(nodes: seq<Node>, i: nat, s: Stump): (r: seq<Node>)
    requires WellFormed(nodes) && i < |nodes|
    ensures WellFormed(r) && |r| == |nodes| + |Children(s)|
  {
    var r := nodes[i := nodes[i].(feature := s.feature, threshold := s.threshold,
                                  impurityReduction := Reduction(s),
                                  leftTemp := TempAt(nodes, s, 0), rightTemp := TempAt(nodes, s, 1))]
             + Children(s);
    assert forall j :: 0 <= j < |nodes| && j != i ==> r[j] == nodes[j];
    r
  }

  /** Lines 74-81: the five split attributes, and also `tree_num`, `impurity`
      and `idx` from the stump result. */
  function ResplitLeaf(nodes: seq<Node>, i: nat, s: Stump): (r: seq<Node>)
    requires WellFormed(nodes) && i < |nodes|
    ensures WellFormed(r) && |r| == |nodes| + |Children(s)|
  {
    var r := SetSplit(nodes, i, s);
    r[i := r[i].(treeNum := s.treeNum, impurity := Some(s.impurity), idx := Some(Positions(s.idxs)))]
  }

  /** One pass of the loop at lines 70-83: re-split `leaf` against the raw
      targets with every feature allowed; keep it only if a split was found. */
  function ResplitOne(f: Front, leaf: nat, X: Matrix, y: seq<real>, stump: StumpFn): (r: Front)
    requires WellFormed(f.nodes) && leaf < |f.nodes|
    ensures WellFormed(r.nodes) && |r.nodes| >= |f.nodes|
  {
    var n := f.nodes[leaf];
    var s := stump(X, y, n.idxs, n.treeNum, None);
    if s.split.None? then f
    else Front(ResplitLeaf(f.nodes, leaf, s), f.frontier + [leaf])
  }

  /** Lines 70-83 over the leaves in order. */
  function Resplit(nodes: seq<Node>, leaves: seq<nat>, X: Matrix, y: seq<real>, stump: StumpFn): (r: Front)
    requires WellFormed(nodes) && InArena(nodes, leaves)
    ensures WellFormed(r.nodes) && |r.nodes| >= |nodes|
  {
    if leaves == [] then Front(nodes, [])
    else ResplitOne(Resplit(nodes, leaves[..|leaves| - 1], X, y, stump), leaves[|leaves| - 1], X, y, stump)
  }

  /** Lines 143-150: the stump a candidate gets against its tree's residual. */
  function StumpOf(n: Node, X: Matrix, res: map<int, seq<real>>, stump: StumpFn, maxFeatures: Option<string>): Stump
    requires n.treeNum in res
  {
    stump(X, res[n.treeNum], n.idxs, n.treeNum, maxFeatures)
  }

  /** One pass of the loop at lines 142-164. `y_residuals_per_tree` has no key
      for the candidate's `tree_num`: the KeyError, None. */
  function RecomputeOne(f: Front, c: nat, X: Matrix, res: map<int, seq<real>>, stump: StumpFn,
                        maxFeatures: Option<string>): (r: Option<Front>)
    requires WellFormed(f.nodes) && c < |f.nodes|
    ensures r.Some? ==> WellFormed(r.value.nodes) && |r.value.nodes| >= |f.nodes|
  {
    var n := f.nodes[c];
    if n.treeNum !in res then None
    else
      var s := StumpOf(n, X, res, stump, maxFeatures);
      Some(Front(SetSplit(f.nodes, c, s), if Reduction(s).Some? then f.frontier + [c] else f.frontier))
  }

  /** Lines 141-164 over the candidates in order: the arena with every candidate
      recomputed and `potential_splits_new`. */
  function Recompute(nodes: seq<Node>, cands: seq<nat>, X: Matrix, res: map<int, seq<real>>, stump: StumpFn,
                     maxFeatures: Option<string>): (r: Option<Front>)
    requires WellFormed(nodes) && InArena(nodes, cands)
    ensures r.Some? ==> WellFormed(r.value.nodes) && |r.value.nodes| >= |nodes|
  {
    if cands == [] then Some(Front(nodes, []))
    else
      var p := Recompute(nodes, cands[..|cands| - 1], X, res, stump, maxFeatures);
      if p.None? then None
      else RecomputeOne(p.value, cands[|cands| - 1], X, res, stump, maxFeatures)
  }

  /** One more candidate is one more pass. */
  lemma RecomputeNext(nodes: seq<Node>, cands: seq<nat>, k: nat, X: Matrix, res: map<int, seq<real>>, stump: StumpFn,
                      maxFeatures: Option<string>)
    requires WellFormed(nodes) && InArena(nodes, cands) && k < |cands|
    ensures InArena(nodes, cands[..k]) && InArena(nodes, cands[..k + 1])
    ensures var p := Recompute(nodes, cands[..k], X, res, stump, maxFeatures);
      Recompute(nodes, cands[..k + 1], X, res, stump, maxFeatures) ==
      if p.None? then None else RecomputeOne(p.value, cands[k], X, res, stump, maxFeatures)
  {
    assert cands[..k + 1][..k] == cands[..k];
  }

  /** Once a prefix of the candidates fails, the whole pass fails. */
  lemma {:induction false} RecomputeStuck(nodes: seq<Node>, cands: seq<nat>, k: nat, X: Matrix, res: map<int, seq<real>>,
                                          stump: StumpFn, maxFeatures: Option<string>)
    requires WellFormed(nodes) && InArena(nodes, cands) && k <= |cands|
    requires InArena(nodes, cands[..k]) && Recompute(nodes, cands[..k], X, res, stump, maxFeatures).None?
    ensures Recompute(nodes, cands, X, res, stump, maxFeatures).None?
    decreases |cands| - k
  {
    if k == |cands| {
      assert cands[..k] == cands;
    } else {
      RecomputeNext(nodes, cands, k, X, res, stump, maxFeatures);
      RecomputeStuck(nodes, cands, k + 1, X, res, stump, maxFeatures);
    }
  }

  /** One more leaf is one more pass. */
  lemma ResplitNext(nodes: seq<Node>, leaves: seq<nat>, k: nat, X: Matrix, y: seq<real>, stump: StumpFn)
    requires WellFormed(nodes) && InArena(nodes, leaves) && k < |leaves|
    ensures InArena(nodes, leaves[..k]) && InArena(nodes, leaves[..k + 1])
    ensures Resplit(nodes, leaves[..k + 1], X, y, stump) ==
            ResplitOne(Resplit(nodes, leaves[..k], X, y, stump), leaves[k], X, y, stump)
  {
    assert leaves[..k + 1][..k] == leaves[..k];
  }

  /** `node_.tree_num = t` on the node at `o`, if there is one. */
  function SetTree(nodes: seq<Node>, o: Option<nat>, t: int): (r: seq<Node>)
    ensures |r| == |nodes|
  {
    if o.Some? && o.value < |nodes| then nodes[o.value := nodes[o.value].(treeNum := t)] else nodes
  }

  /** Lines 107-109: `tree_num` of the node and of both provisional children. */
  function Stamp(nodes: seq<Node>, i: nat, t: int): (r: seq<Node>)
    requires i < |nodes|
    ensures |r| == |nodes|
  {
    SetTree(SetTree(SetTree(nodes, Some(i), t), nodes[i].leftTemp, t), nodes[i].rightTemp, t)
  }

  /** Stamping sets `tree_num` to `t` on the node and on each provisional child
      inside the arena, changes no other attribute, and leaves every other node
      as it was. */
  lemma StampFacts(nodes: seq<Node>, i: nat, t: int)
    requires i < |nodes|
    ensures var r := Stamp(nodes, i, t);
      && r[i].treeNum == t
      && (var o := nodes[i].leftTemp; o.Some? && o.value < |nodes| ==> r[o.value].treeNum == t)
      && (var o := nodes[i].rightTemp; o.Some? && o.value < |nodes| ==> r[o.value].treeNum == t)
      && (forall j :: 0 <= j < |nodes| ==> r[j] == nodes[j].(treeNum := r[j].treeNum))
      && (forall j :: 0 <= j < |nodes| && j != i && Some(j) != nodes[i].leftTemp && Some(j) != nodes[i].rightTemp ==>
            r[j] == nodes[j])
  {
  }

  /** Lines 98-123 for the popped candidate `i` (`n` is `X.shape[0]`): a root
      starts a new tree, stamps its number and pushes a fresh sentinel; then the
      provisional children become the committed ones and are both pushed. */
  function Accept(g: Grow, i: nat, n: nat): (r: Grow)
    requires i < |g.nodes| && g.nodes[i].leftTemp.Some? && g.nodes[i].rightTemp.Some?
  {
    var node := g.nodes[i];
    var nodes1 := if node.isRoot then Stamp(g.nodes, i, |g.trees|) + [SentinelRoot(n)] else g.nodes;
    var trees1 := if node.isRoot then g.trees + [i] else g.trees;
    var frontier1 := if node.isRoot then g.frontier + [|g.nodes|] else g.frontier;
    var nodes2 := nodes1[i := nodes1[i].(left := node.leftTemp, right := node.rightTemp)];
    Grow(nodes2, trees1, frontier1 + [node.leftTemp.value, node.rightTemp.value])
  }

  /** Accepting never shrinks the arena, pushes at least the two children
      behind the untouched frontier, and adds a tree exactly for a root. */
  lemma AcceptShape(g: Grow, i: nat, n: nat)
    requires i < |g.nodes| && g.nodes[i].leftTemp.Some? && g.nodes[i].rightTemp.Some?
    ensures var r := Accept(g, i, n);
      && |r.nodes| >= |g.nodes| && |r.frontier| >= |g.frontier| + 2 && r.frontier[..|g.frontier|] == g.frontier
      && |r.trees| == |g.trees| + (if g.nodes[i].isRoot then 1 else 0)
  {
  }

  /** `b` is `a` with at most the five split attributes of lines 155-159
      (`feature`, `threshold`, `impurity_reduction`, `left_temp`, `right_temp`)
      changed. */
  predicate SplitOnly(a: Node, b: Node)
  {
    a.isRoot == b.isRoot && a.treeNum == b.treeNum && a.idxs == b.idxs && a.idx == b.idx &&
    a.value == b.value && a.impurity == b.impurity && a.left == b.left && a.right == b.right &&
    a.nodeId == b.nodeId && a.valueSklearn == b.valueSklearn
  }

  /** What `SetSplit` writes, attribute by attribute. */
  lemma SetSplitFacts(nodes: seq<Node>, i: nat, s: Stump)
    requires WellFormed(nodes) && i < |nodes|
    ensures var r := SetSplit(nodes, i, s);
      && r[i].feature == s.feature && r[i].threshold == s.threshold
      && r[i].impurityReduction == Reduction(s)
      && r[i].leftTemp == TempAt(nodes, s, 0) && r[i].rightTemp == TempAt(nodes, s, 1)
      && SplitOnly(nodes[i], r[i])
      && (forall j :: 0 <= j < |nodes| && j != i ==> r[j] == nodes[j])
      && (s.split.Some? ==> r[|nodes|] == ChildNode(s.split.value.left) && r[|nodes| + 1] == ChildNode(s.split.value.right))
  {
  }

  /** What `ResplitLeaf` writes, attribute by attribute. */
  lemma ResplitLeafFacts(nodes: seq<Node>, i: nat, s: Stump)
    requires WellFormed(nodes) && i < |nodes|
    ensures var r := ResplitLeaf(nodes, i, s);
      && r[i].feature == s.feature && r[i].threshold == s.threshold
      && r[i].impurityReduction == Reduction(s)
      && r[i].leftTemp == TempAt(nodes, s, 0) && r[i].rightTemp == TempAt(nodes, s, 1)
      && r[i].treeNum == s.treeNum && r[i].impurity == Some(s.impurity) && r[i].idx == Some(Positions(s.idxs))
      && r[i].isRoot == nodes[i].isRoot && r[i].idxs == nodes[i].idxs
      && r[i].left == nodes[i].left && r[i].right == nodes[i].right
      && (forall j :: 0 <= j < |nodes| && j != i ==> r[j] == nodes[j])
      && (s.split.Some? ==> r[|nodes|] == ChildNode(s.split.value.left) && r[|nodes| + 1] == ChildNode(s.split.value.right))
  {
    SetSplitFacts(nodes, i, s);
  }

  /** Lines 72-83 for one leaf: a leaf whose stump finds no split is neither
      changed nor added; a leaf that is added takes `tree_num`, `feature`,
      `threshold`, `impurity`, the reduction and two fresh provisional children
      from the stump result, and keeps its committed links. */
  lemma ResplitOneFacts(f: Front, leaf: nat, X: Matrix, y: seq<real>, stump: StumpFn)
    requires WellFormed(f.nodes) && leaf < |f.nodes|
    ensures var n := f.nodes[leaf];
      var s := stump(X, y, n.idxs, n.treeNum, None);
      var r := ResplitOne(f, leaf, X, y, stump);
      && (s.split.None? ==> r == f)
      && (s.split.Some? ==>
            && r.frontier == f.frontier + [leaf]
            && r.nodes[leaf].treeNum == s.treeNum && r.nodes[leaf].feature == s.feature
            && r.nodes[leaf].threshold == s.threshold && r.nodes[leaf].impurity == Some(s.impurity)
            && r.nodes[leaf].impurityReduction == Some(s.split.value.reduction)
            && r.nodes[leaf].leftTemp == Some(|f.nodes|) && r.nodes[leaf].rightTemp == Some(|f.nodes| + 1)
            && r.nodes[|f.nodes|] == ChildNode(s.split.value.left)
            && r.nodes[|f.nodes| + 1] == ChildNode(s.split.value.right)
            && r.nodes[leaf].left == n.left && r.nodes[leaf].right == n.right)
  {
    var n := f.nodes[leaf];
    ResplitLeafFacts(f.nodes, leaf, stump(X, y, n.idxs, n.treeNum, None));
  }

  /** Lines 67-83: the initial frontier holds only leaves that were given a
      split, each ready to be popped; every other node is untouched, and no
      committed link, root flag or sample mask changes. */
  lemma {:induction false} ResplitFrontier(nodes: seq<Node>, leaves: seq<nat>, X: Matrix, y: seq<real>, stump: StumpFn)
    requires WellFormed(nodes) && InArena(nodes, leaves)
    ensures var r := Resplit(nodes, leaves, X, y, stump);
      && Ready(r.nodes, r.frontier)
      && (forall x :: x in r.frontier ==> x in leaves)
      && (forall j :: 0 <= j < |nodes| && j !in r.frontier ==> r.nodes[j] == nodes[j])
      && (forall j :: 0 <= j < |nodes| ==>
            r.nodes[j].isRoot == nodes[j].isRoot && r.nodes[j].idxs == nodes[j].idxs &&
            r.nodes[j].left == nodes[j].left && r.nodes[j].right == nodes[j].right)
  {
    ResplitReady(nodes, leaves, X, y, stump);
    ResplitKeeps(nodes, leaves, X, y, stump);
  }

  /** Re-splitting appends the children of every re-split leaf behind the old
      arena: the old links stay, the appended nodes have no committed child,
      and every leaf on the new frontier has its provisional children there. */
  lemma {:induction false} ResplitFresh(nodes: seq<Node>, leaves: seq<nat>, X: Matrix, y: seq<real>, stump: StumpFn)
    requires WellFormed(nodes) && InArena(nodes, leaves)
    ensures var r := Resplit(nodes, leaves, X, y, stump);
      LinksKept(nodes, r.nodes) && TempsPast(r.nodes, r.frontier, |nodes|)
  {
    if leaves != [] {
      var init, leaf := leaves[..|leaves| - 1], leaves[|leaves| - 1];
      assert InArena(nodes, init);
      ResplitFresh(nodes, init, X, y, stump);
      var p := Resplit(nodes, init, X, y, stump);
      var n := p.nodes[leaf];
      var s := stump(X, y, n.idxs, n.treeNum, None);
      if s.split.Some? {
        var q := ResplitLeaf(p.nodes, leaf, s);
        assert Resplit(nodes, leaves, X, y, stump) == Front(q, p.frontier + [leaf]);
        ResplitLeafPast(p.nodes, leaf, s);
        LinksKeptTrans(nodes, p.nodes, q);
        forall x | x in p.frontier + [leaf] ensures PastAt(q, x, |nodes|) {
          if x != leaf {
            assert x in p.frontier && PastAt(p.nodes, x, |nodes|);
          }
        }
      }
    }
  }

  /** Re-splitting one leaf on a found split appends two children without
      links and keeps every other node's provisional children. */
  lemma ResplitLeafPast(nodes: seq<Node>, i: nat, s: Stump)
    requires WellFormed(nodes) && i < |nodes| && s.split.Some?
    ensures var r := ResplitLeaf(nodes, i, s);
      && LinksKept(nodes, r) && PastAt(r, i, |nodes|)
      && forall x, base :: 0 <= x < |nodes| && x != i && PastAt(nodes, x, base) ==> PastAt(r, x, base)
  {
    ResplitLeafFacts(nodes, i, s);
    var r := ResplitLeaf(nodes, i, s);
    assert |r| == |nodes| + 2;
    forall j | |nodes| <= j < |r| ensures r[j].left.None? && r[j].right.None? {
    }
  }

  /** The re-split leaves are ready to be popped and come from `leaves`. */
  lemma {:induction false} ResplitReady(nodes: seq<Node>, leaves: seq<nat>, X: Matrix, y: seq<real>, stump: StumpFn)
    requires WellFormed(nodes) && InArena(nodes, leaves)
    ensures var r := Resplit(nodes, leaves, X, y, stump);
      Ready(r.nodes, r.frontier) && (forall x :: x in r.frontier ==> x in leaves)
  {
    if leaves != [] {
      var init, leaf := leaves[..|leaves| - 1], leaves[|leaves| - 1];
      assert InArena(nodes, init);
      ResplitReady(nodes, init, X, y, stump);
      var p := Resplit(nodes, init, X, y, stump);
      var n := p.nodes[leaf];
      var s := stump(X, y, n.idxs, n.treeNum, None);
      if s.split.Some? {
        ResplitLeafFacts(p.nodes, leaf, s);
        var r := Resplit(nodes, leaves, X, y, stump);
        assert r.nodes == ResplitLeaf(p.nodes, leaf, s) && r.frontier == p.frontier + [leaf];
        assert forall x :: x in init ==> x in leaves;
      }
    }
  }

  /** Re-splitting changes no node outside the new frontier, and no committed
      link, root flag or sample mask of any node. */
  lemma {:induction false} ResplitKeeps(nodes: seq<Node>, leaves: seq<nat>, X: Matrix, y: seq<real>, stump: StumpFn)
    requires WellFormed(nodes) && InArena(nodes, leaves)
    ensures var r := Resplit(nodes, leaves, X, y, stump);
      && (forall j :: 0 <= j < |nodes| && j !in r.frontier ==> r.nodes[j] == nodes[j])
      && (forall j :: 0 <= j < |nodes| ==>
            r.nodes[j].isRoot == nodes[j].isRoot && r.nodes[j].idxs == nodes[j].idxs &&
            r.nodes[j].left == nodes[j].left && r.nodes[j].right == nodes[j].right)
  {
    if leaves != [] {
      var init, leaf := leaves[..|leaves| - 1], leaves[|leaves| - 1];
      assert InArena(nodes, init);
      ResplitKeeps(nodes, init, X, y, stump);
      var p := Resplit(nodes, init, X, y, stump);
      var n := p.nodes[leaf];
      var s := stump(X, y, n.idxs, n.treeNum, None);
      if s.split.Some? {
        ResplitLeafFacts(p.nodes, leaf, s);
        var r := Resplit(nodes, leaves, X, y, stump);
        assert r.nodes == ResplitLeaf(p.nodes, leaf, s) && r.frontier == p.frontier + [leaf];
      }
    }
  }

  /** Lines 101-123: accepting a root appends exactly one tree, numbers the
      root and both provisional children `len(trees_) - 1` and pushes one
      sentinel root over all samples; accepting any other node leaves the trees,
      the tree numbers and the arena size alone. Either way the provisional
      children become the committed ones and are pushed, left then right, and
      no other node changes. */
  lemma AcceptFacts(g: Grow, i: nat, n: nat)
    requires WellFormed(g.nodes) && i < |g.nodes| && g.nodes[i].leftTemp.Some? && g.nodes[i].rightTemp.Some?
    ensures var node, r := g.nodes[i], Accept(g, i, n);
      var lt, rt := node.leftTemp.value, node.rightTemp.value;
      && r.nodes[i].left == node.leftTemp && r.nodes[i].right == node.rightTemp
      && (node.isRoot ==>
            && r.trees == g.trees + [i]
            && r.frontier == g.frontier + [|g.nodes|, lt, rt]
            && |r.nodes| == |g.nodes| + 1 && r.nodes[|g.nodes|] == SentinelRoot(n)
            && r.nodes[i].treeNum == |r.trees| - 1 && r.nodes[lt].treeNum == |r.trees| - 1
            && r.nodes[rt].treeNum == |r.trees| - 1)
      && (!node.isRoot ==>
            && r.trees == g.trees && r.frontier == g.frontier + [lt, rt] && |r.nodes| == |g.nodes|
            && forall j :: 0 <= j < |g.nodes| ==> r.nodes[j].treeNum == g.nodes[j].treeNum)
      && (forall j :: 0 <= j < |g.nodes| && j != i && j != lt && j != rt ==> r.nodes[j] == g.nodes[j])
      && (forall j :: 0 <= j < |g.nodes| && j != i ==> r.nodes[j].left == g.nodes[j].left && r.nodes[j].right == g.nodes[j].right)
  {
    var node := g.nodes[i];
    var lt, rt := node.leftTemp.value, node.rightTemp.value;
    if node.isRoot {
      var t := |g.trees|;
      var s1 := SetTree(g.nodes, Some(i), t);
      var s2 := SetTree(s1, node.leftTemp, t);
      var s3 := SetTree(s2, node.rightTemp, t);
      assert Stamp(g.nodes, i, t) == s3;
      assert s3[rt].treeNum == t && s3[lt].treeNum == t && s3[i].treeNum == t;
    }
  }

  /** Accepting keeps every link pointing forward and every tree root and
      frontier entry inside the arena. */
  lemma AcceptWellFormed(g: Grow, i: nat, n: nat)
    requires WellFormed(g.nodes) && InArena(g.nodes, g.trees) && InArena(g.nodes, g.frontier)
    requires i < |g.nodes| && g.nodes[i].leftTemp.Some? && g.nodes[i].rightTemp.Some?
    ensures var r := Accept(g, i, n);
      WellFormed(r.nodes) && InArena(r.nodes, r.trees) && InArena(r.nodes, r.frontier) && |r.nodes| >= |g.nodes|
  {
    var node := g.nodes[i];
    var r := Accept(g, i, n);
    AcceptFacts(g, i, n);
    assert LinkOk(g.nodes, i, node.leftTemp) && LinkOk(g.nodes, i, node.rightTemp);
    forall j | 0 <= j < |r.nodes|
      ensures LinkOk(r.nodes, j, r.nodes[j].left) && LinkOk(r.nodes, j, r.nodes[j].right)
      ensures LinkOk(r.nodes, j, r.nodes[j].leftTemp) && LinkOk(r.nodes, j, r.nodes[j].rightTemp)
    {
      if j < |g.nodes| {
        assert LinkOk(g.nodes, j, g.nodes[j].leftTemp) && LinkOk(g.nodes, j, g.nodes[j].rightTemp);
        assert LinkOk(g.nodes, j, g.nodes[j].left) && LinkOk(g.nodes, j, g.nodes[j].right);
      }
    }
  }

  /** The candidates of `s`, in order, whose impurity reduction is not None: the
      filter at lines 163-164. */
  function WithSplit(nodes: seq<Node>, s: seq<nat>): (r: seq<nat>)
    ensures forall x :: x in r ==> x in s && x < |nodes| && nodes[x].impurityReduction.Some?
  {
    if s == [] then []
    else
      var x := s[|s| - 1];
      WithSplit(nodes, s[..|s| - 1]) + (if x < |nodes| && nodes[x].impurityReduction.Some? then [x] else [])
  }

  /** Candidate `c` holds exactly what its stump against the residuals reports. */
  predicate Consistent(nodes: seq<Node>, c: nat, X: Matrix, res: map<int, seq<real>>, stump: StumpFn,
                       maxFeatures: Option<string>)
  {
    c < |nodes| && nodes[c].treeNum in res &&
    var s := StumpOf(nodes[c], X, res, stump, maxFeatures);
    nodes[c].feature == s.feature && nodes[c].threshold == s.threshold &&
    nodes[c].impurityReduction == Reduction(s) &&
    (nodes[c].leftTemp.Some? <==> s.split.Some?) && (nodes[c].rightTemp.Some? <==> s.split.Some?) &&
    (s.split.Some? ==>
       && nodes[c].leftTemp.value < |nodes| && nodes[nodes[c].leftTemp.value] == ChildNode(s.split.value.left)
       && nodes[c].rightTemp.value < |nodes| && nodes[nodes[c].rightTemp.value] == ChildNode(s.split.value.right))
  }

  /** Past the first `|nodes|` positions of `r` sit only nodes without committed
      children, and the committed links of the first `|nodes|` are those of
      `nodes`. */
  predicate LinksKept(nodes: seq<Node>, r: seq<Node>)
  {
    && |r| >= |nodes|
    && (forall j :: 0 <= j < |nodes| ==> r[j].left == nodes[j].left && r[j].right == nodes[j].right)
    && (forall j :: |nodes| <= j < |r| ==> r[j].left.None? && r[j].right.None?)
  }

  /** Candidate `c` of `r` has two distinct provisional children, both at or
      past position `base`. */
  predicate PastAt(r: seq<Node>, c: nat, base: nat)
  {
    c < |r| && r[c].leftTemp.Some? && r[c].rightTemp.Some? && r[c].leftTemp != r[c].rightTemp &&
    base <= r[c].leftTemp.value < |r| && base <= r[c].rightTemp.value < |r|
  }

  /** Every candidate of `f` has its provisional children at or past `base`. */
  predicate TempsPast(r: seq<Node>, f: seq<nat>, base: nat)
  {
    forall x :: x in f ==> PastAt(r, x, base)
  }

  /** Recomputing appends the children of every refreshed candidate behind the
      old arena: the old links stay, the appended nodes have no committed
      child, and every candidate that got provisional children got them from
      the appended part. */
  lemma {:induction false} RecomputeFresh(nodes: seq<Node>, cands: seq<nat>, X: Matrix, res: map<int, seq<real>>,
                                          stump: StumpFn, maxFeatures: Option<string>)
    requires WellFormed(nodes) && InArena(nodes, cands)
    ensures var r := Recompute(nodes, cands, X, res, stump, maxFeatures);
      r.Some? ==>
        && LinksKept(nodes, r.value.nodes)
        && forall c :: c in cands && r.value.nodes[c].leftTemp.Some? ==> PastAt(r.value.nodes, c, |nodes|)
  {
    if cands != [] {
      var init, c := cands[..|cands| - 1], cands[|cands| - 1];
      assert InArena(nodes, init);
      RecomputeFresh(nodes, init, X, res, stump, maxFeatures);
      var p := Recompute(nodes, init, X, res, stump, maxFeatures);
      if p.Some? && p.value.nodes[c].treeNum in res {
        var s := StumpOf(p.value.nodes[c], X, res, stump, maxFeatures);
        var q := SetSplit(p.value.nodes, c, s);
        SetSplitPast(p.value.nodes, c, s);
        LinksKeptTrans(nodes, p.value.nodes, q);
        forall x | x in cands && q[x].leftTemp.Some? ensures PastAt(q, x, |nodes|) {
          if x != c {
            assert x in init && PastAt(p.value.nodes, x, |nodes|);
          }
        }
      }
    }
  }

  /** One split written by the stump appends two children without links and
      keeps every other node's provisional children. */
  lemma SetSplitPast(nodes: seq<Node>, i: nat, s: Stump)
    requires WellFormed(nodes) && i < |nodes|
    ensures var r := SetSplit(nodes, i, s);
      && LinksKept(nodes, r)
      && (r[i].leftTemp.Some? ==> PastAt(r, i, |nodes|))
      && forall x, base :: 0 <= x < |nodes| && x != i && PastAt(nodes, x, base) ==> PastAt(r, x, base)
  {
    SetSplitFacts(nodes, i, s);
  }

  /** Appending twice without touching links is appending once. */
  lemma LinksKeptTrans(a: seq<Node>, b: seq<Node>, c: seq<Node>)
    requires LinksKept(a, b) && LinksKept(b, c)
    ensures LinksKept(a, c)
  {
  }

  /** Recomputing rewrites only the five split attributes, and only of the
      candidates: tree numbers, root flags, sample masks and committed links
      of every existing node stay as they were. */
  lemma {:induction false} RecomputePreserves(nodes: seq<Node>, cands: seq<nat>, X: Matrix, res: map<int, seq<real>>,
                                              stump: StumpFn, maxFeatures: Option<string>)
    requires WellFormed(nodes) && InArena(nodes, cands)
    ensures var r := Recompute(nodes, cands, X, res, stump, maxFeatures);
      r.Some? ==> forall j :: 0 <= j < |nodes| ==>
        SplitOnly(nodes[j], r.value.nodes[j]) && (j !in cands ==> r.value.nodes[j] == nodes[j])
  {
    if cands != [] {
      var init, c := cands[..|cands| - 1], cands[|cands| - 1];
      assert InArena(nodes, init);
      RecomputePreserves(nodes, init, X, res, stump, maxFeatures);
      var p := Recompute(nodes, init, X, res, stump, maxFeatures);
      if p.Some? && p.value.nodes[c].treeNum in res {
        SetSplitFacts(p.value.nodes, c, StumpOf(p.value.nodes[c], X, res, stump, maxFeatures));
        assert forall j :: j in init ==> j in cands;
      }
    }
  }

  /** Some candidate misses its key exactly when one before the last does or the last does. */
  lemma MissingLast(nodes: seq<Node>, cands: seq<nat>, init: seq<nat>, res: map<int, seq<real>>)
    requires InArena(nodes, cands) && cands != [] && init == cands[..|cands| - 1]
    ensures (exists k :: 0 <= k < |cands| && nodes[cands[k]].treeNum !in res) <==>
            (exists k :: 0 <= k < |init| && nodes[init[k]].treeNum !in res) ||
            nodes[cands[|cands| - 1]].treeNum !in res
  {
    if exists k :: 0 <= k < |init| && nodes[init[k]].treeNum !in res {
      var k :| 0 <= k < |init| && nodes[init[k]].treeNum !in res;
      assert cands[k] == init[k];
    }
    if exists k :: 0 <= k < |cands| && nodes[cands[k]].treeNum !in res {
      var k :| 0 <= k < |cands| && nodes[cands[k]].treeNum !in res;
      if k < |init| { assert init[k] == cands[k]; }
    }
  }

  /** Recomputing fails (the KeyError at line 143) exactly when some candidate's
      tree number is neither an existing tree nor -1, that is, not a key of the
      residual dictionary. */
  lemma {:induction false} RecomputeError(nodes: seq<Node>, cands: seq<nat>, X: Matrix, res: map<int, seq<real>>,
                                          stump: StumpFn, maxFeatures: Option<string>)
    requires WellFormed(nodes) && InArena(nodes, cands)
    ensures Recompute(nodes, cands, X, res, stump, maxFeatures).None? <==>
            exists k :: 0 <= k < |cands| && nodes[cands[k]].treeNum !in res
  {
    if cands != [] {
      var init, c := cands[..|cands| - 1], cands[|cands| - 1];
      assert InArena(nodes, init);
      RecomputeError(nodes, init, X, res, stump, maxFeatures);
      var p := Recompute(nodes, init, X, res, stump, maxFeatures);
      MissingLast(nodes, cands, init, res);
      if p.Some? {
        RecomputePreserves(nodes, init, X, res, stump, maxFeatures);
        assert SplitOnly(nodes[c], p.value.nodes[c]);
      }
    }
  }

  /** After recomputing, every candidate holds what its stump reports. */
  lemma {:induction false} RecomputeConsistent(nodes: seq<Node>, cands: seq<nat>, X: Matrix, res: map<int, seq<real>>,
                                               stump: StumpFn, maxFeatures: Option<string>)
    requires WellFormed(nodes) && InArena(nodes, cands)
    ensures var r := Recompute(nodes, cands, X, res, stump, maxFeatures);
      r.Some? ==> forall c :: c in cands ==> Consistent(r.value.nodes, c, X, res, stump, maxFeatures)
  {
    if cands != [] {
      var init, c := cands[..|cands| - 1], cands[|cands| - 1];
      assert InArena(nodes, init);
      RecomputeConsistent(nodes, init, X, res, stump, maxFeatures);
      RecomputeFresh(nodes, init, X, res, stump, maxFeatures);
      var p := Recompute(nodes, init, X, res, stump, maxFeatures);
      if p.Some? && p.value.nodes[c].treeNum in res {
        var s := StumpOf(p.value.nodes[c], X, res, stump, maxFeatures);
        var q := SetSplit(p.value.nodes, c, s);
        SetSplitFacts(p.value.nodes, c, s);
        forall x | x in cands ensures Consistent(q, x, X, res, stump, maxFeatures) {
          if x != c {
            assert x in init;
            assert q[x] == p.value.nodes[x];
            assert Consistent(p.value.nodes, x, X, res, stump, maxFeatures);
            var n := p.value.nodes[x];
            if n.leftTemp.Some? {
              assert PastAt(p.value.nodes, x, |nodes|);
              assert q[n.leftTemp.value] == p.value.nodes[n.leftTemp.value];
              assert q[n.rightTemp.value] == p.value.nodes[n.rightTemp.value];
            }
          }
        }
      }
    }
  }

  /** Two arenas that agree on which candidates have a reduction keep the same ones. */
  lemma {:induction false} WithSplitSame(a: seq<Node>, b: seq<Node>, s: seq<nat>)
    requires forall x :: x in s ==> x < |a| && x < |b| && (a[x].impurityReduction.Some? <==> b[x].impurityReduction.Some?)
    ensures WithSplit(a, s) == WithSplit(b, s)
  {
    if s != [] {
      var init := s[..|s| - 1];
      forall x | x in init ensures x in s {
        var k :| 0 <= k < |init| && init[k] == x;
        assert s[k] == x;
      }
      WithSplitSame(a, b, init);
    }
  }

  /** The kept candidates are the ones, in order, whose recomputed reduction
      is not None. */
  lemma {:induction false} RecomputeOrder(nodes: seq<Node>, cands: seq<nat>, X: Matrix, res: map<int, seq<real>>,
                                          stump: StumpFn, maxFeatures: Option<string>)
    requires WellFormed(nodes) && InArena(nodes, cands)
    ensures var r := Recompute(nodes, cands, X, res, stump, maxFeatures);
      r.Some? ==> r.value.frontier == WithSplit(r.value.nodes, cands)
  {
    if cands != [] {
      var init, c := cands[..|cands| - 1], cands[|cands| - 1];
      assert InArena(nodes, init);
      RecomputeOrder(nodes, init, X, res, stump, maxFeatures);
      RecomputeConsistent(nodes, init, X, res, stump, maxFeatures);
      var p := Recompute(nodes, init, X, res, stump, maxFeatures);
      var r := Recompute(nodes, cands, X, res, stump, maxFeatures);
      if r.Some? {
        var s := StumpOf(p.value.nodes[c], X, res, stump, maxFeatures);
        var q := SetSplit(p.value.nodes, c, s);
        SetSplitFacts(p.value.nodes, c, s);
        assert r.value.nodes == q;
        forall x | x in init
          ensures x < |p.value.nodes| && x < |q| && (p.value.nodes[x].impurityReduction.Some? <==> q[x].impurityReduction.Some?)
        {
          assert Consistent(p.value.nodes, x, X, res, stump, maxFeatures);
          if x == c {
            assert p.value.nodes[c].idxs == q[c].idxs && p.value.nodes[c].treeNum == q[c].treeNum;
          }
        }
        WithSplitSame(p.value.nodes, q, init);
      }
    }
  }

  /** Lines 141-164: `potential_splits_new` is the candidates, in order, whose
      recomputed reduction is not None, and every one of them is ready to be
      popped. */
  lemma RecomputeKept(nodes: seq<Node>, cands: seq<nat>, X: Matrix, res: map<int, seq<real>>,
                      stump: StumpFn, maxFeatures: Option<string>)
    requires WellFormed(nodes) && InArena(nodes, cands)
    ensures var r := Recompute(nodes, cands, X, res, stump, maxFeatures);
      r.Some? ==> r.value.frontier == WithSplit(r.value.nodes, cands) && Ready(r.value.nodes, r.value.frontier)
  {
    RecomputeOrder(nodes, cands, X, res, stump, maxFeatures);
    RecomputeConsistent(nodes, cands, X, res, stump, maxFeatures);
    var r := Recompute(nodes, cands, X, res, stump, maxFeatures);
    if r.Some? {
      forall k | 0 <= k < |r.value.frontier|
        ensures r.value.frontier[k] < |r.value.nodes| && r.value.nodes[r.value.frontier[k]].impurityReduction.Some?
        ensures r.value.nodes[r.value.frontier[k]].leftTemp.Some? && r.value.nodes[r.value.frontier[k]].rightTemp.Some?
      {
        assert r.value.frontier[k] in WithSplit(r.value.nodes, cands);
        assert Consistent(r.value.nodes, r.value.frontier[k], X, res, stump, maxFeatures);
      }
    }
  }
}
