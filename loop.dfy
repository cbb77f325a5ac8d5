/** The greedy growth of `extend_trees` as a function of the state before it:
    the initial re-split of the old leaves (lines 67-86) followed by the `while`
    loop (lines 88-170), which pops the candidate with the largest impurity
    reduction, accepts its split, recomputes every candidate against the
    residuals of its tree and sorts the frontier again. */
module GrowthLoop {
  import opened FigsNodes
  import opened Leaves
  import opened Frontier
  import opened Residuals
  import opened Growth

  /** What the loop reads and never writes: the data, the two oracles, and the
      estimator's `max_features`, `min_impurity_decrease` and (already raised)
      `max_rules`. */
  datatype Env = Env(X: Matrix, y: seq<real>, stump: StumpFn, predict: PredictFn,
                     maxFeatures: Option<string>, minDecrease: real, maxRules: int)

  /** Why the growth loop stopped. */
  datatype Stop =
    | Exhausted                    // the frontier ran empty
    | BelowThreshold(key: real)    // the popped maximum is under `min_impurity_decrease`
    | BudgetReached                // `complexity_ >= max_rules` after an acceptance
    | Aborted                      // the recomputation raised the KeyError

  /** One accepted split: the node, the reduction it was popped with, and
      whether it was a root (and so started a new tree). */
  datatype Acceptance = Acceptance(node: nat, reduction: real, root: bool)

  /** The state the loop leaves: arena, trees and frontier, `complexity_`, the
      accepted splits in order, and the reason it stopped. */
  datatype End = End(g: Grow, complexity: int, accepted: seq<Acceptance>, stop: Stop)

  /** `y_residuals_per_tree` for the trees of `trees` (lines 126-138). */
  function Targets(e: Env, nodes: seq<Node>, trees: seq<nat>): (res: map<int, seq<real>>)
    requires |e.y| == |e.X|
  {
    ResidualMap(e.y, Predictions(e.predict, nodes, trees, e.X), |trees|)
  }

  /** A run preceded by the acceptances `acc`. */
  function Prefixed(acc: seq<Acceptance>, r: End): (p: End)
    ensures p.g == r.g && p.complexity == r.complexity && p.stop == r.stop
    ensures |p.accepted| == |acc| + |r.accepted|
    ensures p.accepted[..|acc|] == acc && p.accepted[|acc|..] == r.accepted
    ensures acc == [] ==> p == r
  {
    End(r.g, r.complexity, acc + r.accepted, r.stop)
  }

  /** The frontier's top, `potential_splits[-1]`. */
  function Top(g: Grow): nat
    requires g.frontier != []
  {
    g.frontier[|g.frontier| - 1]
  }

  /** The state after `potential_splits.pop()`. */
  function Popped(g: Grow): (p: Grow)
    requires g.frontier != []
    ensures p.nodes == g.nodes && p.trees == g.trees && |p.frontier| == |g.frontier| - 1
  {
    Grow(g.nodes, g.trees, g.frontier[..|g.frontier| - 1])
  }

  /** Lines 98-167 once the top of a non-empty frontier clears the threshold:
      the split is accepted, the residuals are recomputed, every candidate is
      recomputed against them, and the kept ones are sorted; None on the
      KeyError. A root appends one tree and any other node none. */
  function After(e: Env, g: Grow): (n: Option<Grow>)
    requires |e.y| == |e.X| && WellFormed(g.nodes) && InArena(g.nodes, g.trees) && Ready(g.nodes, g.frontier)
    requires g.frontier != []
    ensures n.Some? ==> WellFormed(n.value.nodes) && InArena(n.value.nodes, n.value.trees) && Ready(n.value.nodes, n.value.frontier)
  {
    var i := Top(g);
    AcceptWellFormed(Popped(g), i, |e.X|);
    var a := Accept(Popped(g), i, |e.X|);
    var rc := Recompute(a.nodes, a.frontier, e.X, Targets(e, a.nodes, a.trees), e.stump, e.maxFeatures);
    if rc.None? then None
    else
      RecomputeKept(a.nodes, a.frontier, e.X, Targets(e, a.nodes, a.trees), e.stump, e.maxFeatures);
      var f := rc.value;
      ReadySorted(f.nodes, f.frontier);
      Some(Grow(f.nodes, a.trees, SortByReduction(f.nodes, f.frontier)))
  }

  /** After an acceptance the frontier is sorted again, so the next pop is a
      maximum; the arena only grows; and a root appends one tree while any
      other node appends none. */
  lemma AfterFacts(e: Env, g: Grow)
    requires |e.y| == |e.X| && WellFormed(g.nodes) && InArena(g.nodes, g.trees) && Ready(g.nodes, g.frontier)
    requires g.frontier != []
    ensures var n := After(e, g);
      n.Some? ==>
        && SortedAsc(n.value.nodes, n.value.frontier) && |n.value.nodes| >= |g.nodes|
        && n.value.trees == if g.nodes[Top(g)].isRoot then g.trees + [Top(g)] else g.trees
  {
    var i := Top(g);
    AcceptWellFormed(Popped(g), i, |e.X|);
    AcceptFacts(Popped(g), i, |e.X|);
    var a := Accept(Popped(g), i, |e.X|);
    var rc := Recompute(a.nodes, a.frontier, e.X, Targets(e, a.nodes, a.trees), e.stump, e.maxFeatures);
    if rc.Some? {
      SortAscending(rc.value.nodes, rc.value.frontier);
    }
  }

  /** Lines 88-170 from the frontier `g.frontier` (sorted ascending) with
      `complexity_` at `complexity`. On the KeyError the state is the one
      right after the acceptance. */
  function Loop(e: Env, g: Grow, complexity: int): (r: End)
    requires |e.y| == |e.X| && WellFormed(g.nodes) && InArena(g.nodes, g.trees) && Ready(g.nodes, g.frontier)
    ensures WellFormed(r.g.nodes) && InArena(r.g.nodes, r.g.trees) && |r.g.nodes| >= |g.nodes|
    decreases if complexity < e.maxRules then e.maxRules - complexity else 0
  {
    if g.frontier == [] then End(g, complexity, [], Exhausted)
    else if Key(g.nodes, Top(g)) < e.minDecrease then End(Popped(g), complexity, [], BelowThreshold(Key(g.nodes, Top(g))))
    else
      var acc := Acceptance(Top(g), Key(g.nodes, Top(g)), g.nodes[Top(g)].isRoot);
      AfterFacts(e, g);
      var n := After(e, g);
      if n.None? then
        AcceptWellFormed(Popped(g), Top(g), |e.X|);
        End(Accept(Popped(g), Top(g), |e.X|), complexity + 1, [acc], Aborted)
      else if complexity + 1 >= e.maxRules then End(n.value, complexity + 1, [acc], BudgetReached)
      else Prefixed([acc], Loop(e, n.value, complexity + 1))
  }

  /** One iteration of the loop whose top clears the threshold: the first
      acceptance is the top, and the run goes on from `After` exactly when the
      recomputation succeeds and the budget is not yet reached. */
  lemma LoopUnroll(e: Env, g: Grow, complexity: int)
    requires |e.y| == |e.X| && WellFormed(g.nodes) && InArena(g.nodes, g.trees) && Ready(g.nodes, g.frontier)
    requires g.frontier != [] && Key(g.nodes, Top(g)) >= e.minDecrease
    ensures var r, n := Loop(e, g, complexity), After(e, g);
      && |r.accepted| > 0 && r.accepted[0] == Acceptance(Top(g), Key(g.nodes, Top(g)), g.nodes[Top(g)].isRoot)
      && (n.None? ==> r.g == Accept(Popped(g), Top(g), |e.X|) && r.accepted == [r.accepted[0]] && r.stop == Aborted)
      && (n.Some? && complexity + 1 >= e.maxRules ==> r.g == n.value && r.accepted == [r.accepted[0]] && r.stop == BudgetReached)
      && (n.Some? && complexity + 1 < e.maxRules ==> r == Prefixed([r.accepted[0]], Loop(e, n.value, complexity + 1)))
  {
  }

  /** A run that has reached `g` after the acceptances `acc`, and whose top
      is under the threshold, stops there with the top popped. */
  lemma RunBelow(e: Env, g: Grow, complexity: int, acc: seq<Acceptance>, goal: End)
    requires |e.y| == |e.X| && WellFormed(g.nodes) && InArena(g.nodes, g.trees) && Ready(g.nodes, g.frontier)
    requires g.frontier != [] && Key(g.nodes, Top(g)) < e.minDecrease
    requires Prefixed(acc, Loop(e, g, complexity)) == goal
    ensures goal.g == Popped(g) && goal.complexity == complexity && goal.stop != Aborted
  {
  }

  /** A run that has reached `g` after the acceptances `acc` with an empty
      frontier stops there. */
  lemma RunExhausted(e: Env, g: Grow, complexity: int, acc: seq<Acceptance>, goal: End)
    requires |e.y| == |e.X| && WellFormed(g.nodes) && InArena(g.nodes, g.trees) && Ready(g.nodes, g.frontier)
    requires g.frontier == [] && Prefixed(acc, Loop(e, g, complexity)) == goal
    ensures goal.g == g && goal.complexity == complexity && goal.stop == Exhausted
  {
  }

  /** A run that has reached `g` after the acceptances `acc`, and whose top
      clears the threshold, accepts the top; it then ends on the KeyError or
      on the budget, or goes on from `After` with one more acceptance. */
  lemma RunAccept(e: Env, g: Grow, complexity: int, acc: seq<Acceptance>, goal: End)
    requires |e.y| == |e.X| && WellFormed(g.nodes) && InArena(g.nodes, g.trees) && Ready(g.nodes, g.frontier)
    requires g.frontier != [] && Key(g.nodes, Top(g)) >= e.minDecrease
    requires Prefixed(acc, Loop(e, g, complexity)) == goal
    ensures var n, a := After(e, g), Acceptance(Top(g), Key(g.nodes, Top(g)), g.nodes[Top(g)].isRoot);
      && (n.None? ==> goal.g == Accept(Popped(g), Top(g), |e.X|) && goal.complexity == complexity + 1 && goal.stop == Aborted)
      && (n.Some? && complexity + 1 >= e.maxRules ==>
            goal.g == n.value && goal.complexity == complexity + 1 && goal.stop != Aborted)
      && (n.Some? && complexity + 1 < e.maxRules ==> Prefixed(acc + [a], Loop(e, n.value, complexity + 1)) == goal)
  {
    LoopUnroll(e, g, complexity);
    var n := After(e, g);
    if n.Some? && complexity + 1 < e.maxRules {
      var a := Acceptance(Top(g), Key(g.nodes, Top(g)), g.nodes[Top(g)].isRoot);
      var r' := Loop(e, n.value, complexity + 1);
      assert acc + ([a] + r'.accepted) == (acc + [a]) + r'.accepted;
    }
  }

  /** Where one pass of the loop leaves a run towards `goal` that is now at
      `g` with `complexity_` at `complexity` after the acceptances `acc`: on
      the KeyError `goal` holds the arena and trees; once `finished` the run
      is over at `g`; otherwise the rest of the run goes on from `g`. */
  ghost predicate Landed(e: Env, goal: End, acc: seq<Acceptance>, g: Grow, complexity: int,
                         finished: bool, aborted: bool)
  {
    && (aborted ==> goal.g.nodes == g.nodes && goal.g.trees == g.trees && goal.complexity == complexity &&
                    goal.stop == Aborted)
    && (!aborted && finished ==> goal.g == g && goal.complexity == complexity && goal.stop != Aborted)
    && (!aborted && !finished ==>
          && complexity < e.maxRules
          && |e.y| == |e.X| && WellFormed(g.nodes) && InArena(g.nodes, g.trees) && Ready(g.nodes, g.frontier)
          && Prefixed(acc, Loop(e, g, complexity)) == goal)
  }

  /** `RunAccept` read off the state `(nodes, trees)` and the optional frontier
      `next` that agree with `After`: no `next` is the KeyError, otherwise the
      run ends on the budget or goes on from `next`. */
  lemma AcceptGoal(e: Env, g: Grow, complexity: int, acc: seq<Acceptance>, goal: End,
                   nodes: seq<Node>, trees: seq<nat>, next: Option<seq<nat>>,
                   frontier': seq<nat>, complexity': int, acc': seq<Acceptance>, finished: bool, aborted: bool)
    requires |e.y| == |e.X| && WellFormed(g.nodes) && InArena(g.nodes, g.trees) && Ready(g.nodes, g.frontier)
    requires g.frontier != [] && Key(g.nodes, Top(g)) >= e.minDecrease
    requires Prefixed(acc, Loop(e, g, complexity)) == goal
    requires next.None? <==> After(e, g).None?
    requires next.None? ==> Grow(nodes, trees, Accept(Popped(g), Top(g), |e.X|).frontier) == Accept(Popped(g), Top(g), |e.X|)
    requires next.Some? ==> After(e, g).value == Grow(nodes, trees, next.value)
    requires aborted == next.None? && frontier' == (if aborted then [] else next.value)
    requires complexity' == complexity + 1 && finished == (!aborted && complexity' >= e.maxRules)
    requires acc' == acc + [Acceptance(Top(g), Key(g.nodes, Top(g)), g.nodes[Top(g)].isRoot)]
    ensures !aborted ==> Ready(nodes, frontier')
    ensures Landed(e, goal, acc', Grow(nodes, trees, frontier'), complexity', finished, aborted)
  {
    RunAccept(e, g, complexity, acc, goal);
  }

  /** Lines 90-98 and 168-170: each acceptance raises `complexity_` by exactly
      one; the loop stops right after the acceptance that brings `complexity_`
      to `max_rules` and never before, unless the frontier runs out, the
      threshold stops it, or the recomputation fails. */
  lemma {:induction false} LoopBudget(e: Env, g: Grow, complexity: int)
    requires |e.y| == |e.X| && WellFormed(g.nodes) && InArena(g.nodes, g.trees) && Ready(g.nodes, g.frontier)
    ensures var r := Loop(e, g, complexity);
      && r.complexity == complexity + |r.accepted|
      && (|r.accepted| >= 2 ==> r.complexity <= e.maxRules)
      && (r.stop == BudgetReached ==> |r.accepted| > 0 && r.complexity >= e.maxRules)
      && (r.stop == Aborted ==> |r.accepted| > 0)
      && ((r.stop == Exhausted || r.stop.BelowThreshold?) && |r.accepted| > 0 ==> r.complexity < e.maxRules)
    decreases if complexity < e.maxRules then e.maxRules - complexity else 0
  {
    if g.frontier != [] && Key(g.nodes, Top(g)) >= e.minDecrease {
      LoopUnroll(e, g, complexity);
      var n := After(e, g);
      if n.Some? && complexity + 1 < e.maxRules {
        LoopBudget(e, n.value, complexity + 1);
      }
    }
  }

  /** Lines 90-95: every accepted split clears `min_impurity_decrease`; a stop
      on the threshold pops a reduction under it that is the largest on the
      frontier, and a run that exhausts the frontier leaves it empty. */
  lemma {:induction false} LoopThreshold(e: Env, g: Grow, complexity: int)
    requires |e.y| == |e.X| && WellFormed(g.nodes) && InArena(g.nodes, g.trees) && Ready(g.nodes, g.frontier)
    requires SortedAsc(g.nodes, g.frontier)
    ensures ThresholdKept(e, Loop(e, g, complexity))
    decreases if complexity < e.maxRules then e.maxRules - complexity else 0
  {
    if g.frontier == [] {
      assert ThresholdKept(e, Loop(e, g, complexity));
    } else if Key(g.nodes, Top(g)) < e.minDecrease {
      ThresholdBelow(e, g, complexity);
    } else if After(e, g).Some? && complexity + 1 < e.maxRules {
      AfterFacts(e, g);
      LoopThreshold(e, After(e, g).value, complexity + 1);
      ThresholdStep(e, g, complexity);
    } else {
      ThresholdLast(e, g, complexity);
    }
  }

  /** What `LoopThreshold` states of a run `r`: every acceptance clears the
      threshold, a stop on the threshold pops a key under it and at least every
      key left behind, and an exhausted run leaves the frontier empty. */
  ghost predicate ThresholdKept(e: Env, r: End)
  {
    && (forall k :: 0 <= k < |r.accepted| ==> r.accepted[k].reduction >= e.minDecrease)
    && (r.stop.BelowThreshold? ==>
          r.stop.key < e.minDecrease && forall x :: x in r.g.frontier ==> Key(r.g.nodes, x) <= r.stop.key)
    && (r.stop == Exhausted ==> r.g.frontier == [])
  }

  /** The last step of `LoopThreshold`: an acceptance that aborts or reaches
      the budget ends the run on it. */
  lemma ThresholdLast(e: Env, g: Grow, complexity: int)
    requires |e.y| == |e.X| && WellFormed(g.nodes) && InArena(g.nodes, g.trees) && Ready(g.nodes, g.frontier)
    requires g.frontier != [] && Key(g.nodes, Top(g)) >= e.minDecrease
    requires After(e, g).None? || complexity + 1 >= e.maxRules
    ensures ThresholdKept(e, Loop(e, g, complexity))
  {
    LoopUnroll(e, g, complexity);
  }

  /** The stop of `LoopThreshold` on the top of a sorted frontier: its key is
      under the threshold and at least every key left behind. */
  lemma ThresholdBelow(e: Env, g: Grow, complexity: int)
    requires |e.y| == |e.X| && WellFormed(g.nodes) && InArena(g.nodes, g.trees) && Ready(g.nodes, g.frontier)
    requires SortedAsc(g.nodes, g.frontier) && g.frontier != [] && Key(g.nodes, Top(g)) < e.minDecrease
    ensures var r := Loop(e, g, complexity);
      && r.accepted == [] && r.stop.BelowThreshold? && r.stop.key < e.minDecrease
      && forall x :: x in r.g.frontier ==> Key(r.g.nodes, x) <= r.stop.key
    ensures ThresholdKept(e, Loop(e, g, complexity))
  {
    forall x | x in Popped(g).frontier ensures Key(g.nodes, x) <= Key(g.nodes, Top(g)) {
      var k :| 0 <= k < |Popped(g).frontier| && Popped(g).frontier[k] == x;
      LastIsMax(g.nodes, g.frontier, k);
    }
  }

  /** The step of `LoopThreshold` through an accepted split: the acceptances
      are the top's, which clears the threshold, and those of the rest of the
      run, whose stop is the run's own. */
  lemma ThresholdStep(e: Env, g: Grow, complexity: int)
    requires |e.y| == |e.X| && WellFormed(g.nodes) && InArena(g.nodes, g.trees) && Ready(g.nodes, g.frontier)
    requires g.frontier != [] && Key(g.nodes, Top(g)) >= e.minDecrease
    requires After(e, g).Some? && complexity + 1 < e.maxRules
    requires ThresholdKept(e, Loop(e, After(e, g).value, complexity + 1))
    ensures ThresholdKept(e, Loop(e, g, complexity))
  {
    LoopUnroll(e, g, complexity);
    var r, r' := Loop(e, g, complexity), Loop(e, After(e, g).value, complexity + 1);
    forall k | 0 <= k < |r.accepted| ensures r.accepted[k].reduction >= e.minDecrease {
      if k > 0 { assert r.accepted[k] == r'.accepted[k - 1]; }
    }
  }

  /** Line 90: every pop takes a candidate of largest impurity reduction. The
      first acceptance is the top of the sorted frontier, whose key is at least
      every key on it; the acceptances after it are those of the loop from
      `After`, whose frontier is sorted again (`AfterFacts`). */
  lemma LoopPopsMax(e: Env, g: Grow, complexity: int)
    requires |e.y| == |e.X| && WellFormed(g.nodes) && InArena(g.nodes, g.trees) && Ready(g.nodes, g.frontier)
    requires SortedAsc(g.nodes, g.frontier) && g.frontier != [] && Key(g.nodes, Top(g)) >= e.minDecrease
    ensures var r := Loop(e, g, complexity);
      && |r.accepted| > 0 && r.accepted[0].node == Top(g)
      && (forall x :: x in g.frontier ==> Key(g.nodes, x) <= r.accepted[0].reduction)
      && (After(e, g).Some? && complexity + 1 < e.maxRules ==>
            r.accepted[1..] == Loop(e, After(e, g).value, complexity + 1).accepted)
  {
    LoopUnroll(e, g, complexity);
    forall x | x in g.frontier ensures Key(g.nodes, x) <= Key(g.nodes, Top(g)) {
      var k :| 0 <= k < |g.frontier| && g.frontier[k] == x;
      LastIsMax(g.nodes, g.frontier, k);
    }
  }

  /** The nodes of the accepted roots, in order of acceptance. */
  function NewRoots(accepted: seq<Acceptance>): (r: seq<nat>)
    ensures |r| <= |accepted|
  {
    if accepted == [] then []
    else (if accepted[0].root then [accepted[0].node] else []) + NewRoots(accepted[1..])
  }

  /** The trees after an acceptance `a` that ends the run. */
  lemma TreesLast(prev: seq<nat>, a: Acceptance, r: End)
    requires r.accepted == [a] && r.g.trees == prev + (if a.root then [a.node] else [])
    ensures r.g.trees == prev + NewRoots(r.accepted)
  {
    assert r.accepted[1..] == [];
  }

  /** The trees after an acceptance `a` followed by the run `r'`. */
  lemma TreesStep(prev: seq<nat>, a: Acceptance, r: End, r': End)
    requires r == Prefixed([a], r')
    requires r'.g.trees == (prev + (if a.root then [a.node] else [])) + NewRoots(r'.accepted)
    ensures r.g.trees == prev + NewRoots(r.accepted)
  {
    assert r.accepted[1..] == r'.accepted;
    ConcatAssoc(prev, if a.root then [a.node] else [], NewRoots(r'.accepted));
  }

  /** Lines 101-104: `trees_` after the loop is the old trees followed by the
      roots among the accepted splits, in the order they were accepted;
      accepting any other node adds no tree. */
  lemma {:induction false} LoopTrees(e: Env, g: Grow, complexity: int)
    requires |e.y| == |e.X| && WellFormed(g.nodes) && InArena(g.nodes, g.trees) && Ready(g.nodes, g.frontier)
    ensures var r := Loop(e, g, complexity); r.g.trees == g.trees + NewRoots(r.accepted)
    decreases if complexity < e.maxRules then e.maxRules - complexity else 0, 1
  {
    if g.frontier != [] && Key(g.nodes, Top(g)) >= e.minDecrease {
      if After(e, g).Some? && complexity + 1 < e.maxRules {
        LoopTreesOn(e, g, complexity);
      } else {
        LoopUnroll(e, g, complexity);
        var r := Loop(e, g, complexity);
        TreesLast(g.trees, r.accepted[0], r);
      }
    }
  }

  /** `LoopTrees` when the loop goes on after the first acceptance. */
  lemma {:induction false} LoopTreesOn(e: Env, g: Grow, complexity: int)
    requires |e.y| == |e.X| && WellFormed(g.nodes) && InArena(g.nodes, g.trees) && Ready(g.nodes, g.frontier)
    requires g.frontier != [] && Key(g.nodes, Top(g)) >= e.minDecrease
    requires After(e, g).Some? && complexity + 1 < e.maxRules
    ensures var r := Loop(e, g, complexity); r.g.trees == g.trees + NewRoots(r.accepted)
    decreases if complexity < e.maxRules then e.maxRules - complexity else 0, 0
  {
    var n := After(e, g).value;
    var a := Acceptance(Top(g), Key(g.nodes, Top(g)), g.nodes[Top(g)].isRoot);
    var r, r' := Loop(e, g, complexity), Loop(e, n, complexity + 1);
    assert r == Prefixed([a], r');
    LoopTrees(e, n, complexity + 1);
    assert n.trees == g.trees + (if a.root then [a.node] else []);
    TreesStep(g.trees, a, r, r');
  }

  /** The leaves of every old tree, in the order of `trees_`, inside the arena. */
  lemma AllLeavesInArena(nodes: seq<Node>, trees: seq<nat>)
    requires WellFormed(nodes) && InArena(nodes, trees)
    ensures InArena(nodes, AllLeaves(nodes, trees))
  {
    var l := AllLeaves(nodes, trees);
    assert forall k :: 0 <= k < |l| ==> l[k] in l;
  }

  /** The first frontier of the loop: every old leaf re-split against `y` with
      every feature allowed, the ones with a split sorted by reduction. */
  function Start(e: Env, nodes: seq<Node>, trees: seq<nat>): (g: Grow)
    requires WellFormed(nodes) && InArena(nodes, trees)
    ensures WellFormed(g.nodes) && InArena(g.nodes, g.trees) && Ready(g.nodes, g.frontier)
    ensures |g.nodes| >= |nodes| && g.trees == trees
  {
    var leaves := AllLeaves(nodes, trees);
    AllLeavesInArena(nodes, trees);
    var f := Resplit(nodes, leaves, e.X, e.y, e.stump);
    ResplitFrontier(nodes, leaves, e.X, e.y, e.stump);
    ReadySorted(f.nodes, f.frontier);
    Grow(f.nodes, trees, SortByReduction(f.nodes, f.frontier))
  }

  /** Lines 60-170: the whole growth, from the old arena and trees. */
  function Extension(e: Env, nodes: seq<Node>, trees: seq<nat>, complexity: int): (r: End)
    requires |e.y| == |e.X| && WellFormed(nodes) && InArena(nodes, trees)
    ensures WellFormed(r.g.nodes) && InArena(r.g.nodes, r.g.trees) && |r.g.nodes| >= |nodes|
  {
    Loop(e, Start(e, nodes, trees), complexity)
  }
}
