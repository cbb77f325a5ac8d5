/** The per-tree prediction and residual dictionaries of the growth loop. Keys
    0 .. len(trees_)-1 name the existing trees; key -1 names the tree that the
    sentinel root would start. */
module Residuals {
  import opened FigsNodes

  /** `_predict_tree(root, X)`: one prediction per row of `X`. */
  function PredictTree(predict: PredictFn, nodes: seq<Node>, root: nat, X: Matrix): (p: seq<real>)
    ensures |p| == |X|
  {
    seq(|X|, k requires 0 <= k < |X| => predict(nodes, root, X[k]))
  }

  /** `np.zeros(n)`. */
  function Zeros(n: nat): (z: seq<real>)
    ensures |z| == n && forall k :: 0 <= k < n ==> z[k] == 0.0
  {
    seq(n, _ => 0.0)
  }

  /** Every existing tree has a prediction vector of length `len`. */
  predicate PredsFor(preds: map<int, seq<real>>, numTrees: nat, len: nat)
  {
    forall o :: 0 <= o < numTrees ==> o in preds && |preds[o]| == len
  }

  /** The sum, at sample `k`, of the predictions of trees 0 .. n-1 other than `t`. */
  function OthersSum(preds: map<int, seq<real>>, n: nat, t: int, k: nat): real
    requires forall o :: 0 <= o < n ==> o in preds && k < |preds[o]|
  {
    if n == 0 then 0.0
    else OthersSum(preds, n - 1, t, k) + (if n - 1 == t then 0.0 else preds[n - 1][k])
  }

  /** The sum, at sample `k`, of the predictions of trees 0 .. n-1. */
  function TotalSum(preds: map<int, seq<real>>, n: nat, k: nat): real
    requires forall o :: 0 <= o < n ==> o in preds && k < |preds[o]|
  {
    if n == 0 then 0.0 else TotalSum(preds, n - 1, k) + preds[n - 1][k]
  }

  /** The residual target of tree `t` at sample `k`. */
  function Residual(y: seq<real>, preds: map<int, seq<real>>, n: nat, t: int, k: nat): real
    requires k < |y| && PredsFor(preds, n, |y|)
  {
    y[k] - OthersSum(preds, n, t, k)
  }

  /** The dictionary `y_predictions_per_tree` after lines 126-128. */
  function Predictions(predict: PredictFn, nodes: seq<Node>, trees: seq<nat>, X: Matrix): (p: map<int, seq<real>>)
    ensures PredsFor(p, |trees|, |X|)
  {
    map t | -1 <= t < |trees| :: if t < 0 then Zeros(|X|) else PredictTree(predict, nodes, trees[t], X)
  }

  /** The prediction dictionary has exactly the keys -1 .. len(trees_)-1: zeros
      under -1 and under `t` the prediction of tree `t` on every row of `X`. */
  lemma PredictionsKeys(predict: PredictFn, nodes: seq<Node>, trees: seq<nat>, X: Matrix)
    ensures var p := Predictions(predict, nodes, trees, X);
      && (forall t :: t in p <==> -1 <= t < |trees|)
      && p[-1] == Zeros(|X|)
      && forall t, k :: 0 <= t < |trees| && 0 <= k < |X| ==> p[t][k] == predict(nodes, trees[t], X[k])
  {
  }

  /** The dictionary `y_residuals_per_tree` after lines 132-138. */
  function ResidualMap(y: seq<real>, preds: map<int, seq<real>>, n: nat): (res: map<int, seq<real>>)
    requires PredsFor(preds, n, |y|)
  {
    map t | -1 <= t < n :: ResidualOf(y, preds, n, t)
  }

  /** The residual dictionary has exactly the keys -1 .. n-1, each a vector of
      one entry per sample. */
  lemma ResidualMapKeys(y: seq<real>, preds: map<int, seq<real>>, n: nat)
    requires PredsFor(preds, n, |y|)
    ensures var res := ResidualMap(y, preds, n);
      && (forall t :: t in res <==> -1 <= t < n)
      && (forall t :: t in res ==> |res[t]| == |y|)
  {
  }

  /** The residual vector of tree `t`. */
  function ResidualOf(y: seq<real>, preds: map<int, seq<real>>, n: nat, t: int): (r: seq<real>)
    requires PredsFor(preds, n, |y|)
    ensures |r| == |y|
  {
    seq(|y|, k requires 0 <= k < |y| => Residual(y, preds, n, t, k))
  }

  /** Lines 126-128: the prediction of every tree, and zeros under key -1. */
  method ComputePredictions(predict: PredictFn, nodes: seq<Node>, trees: seq<nat>, X: Matrix)
    returns (preds: map<int, seq<real>>)
    ensures forall t :: t in preds <==> -1 <= t < |trees|
    ensures PredsFor(preds, |trees|, |X|)
    ensures forall t :: 0 <= t < |trees| ==> preds[t] == PredictTree(predict, nodes, trees[t], X)
    ensures preds[-1] == Zeros(|X|)
    ensures preds == Predictions(predict, nodes, trees, X)
  {
    preds := map[];
    var t := 0;
    while t < |trees|
      invariant 0 <= t <= |trees|
      invariant forall o :: o in preds <==> 0 <= o < t
      invariant forall o :: 0 <= o < t ==> preds[o] == PredictTree(predict, nodes, trees[o], X)
    {
      preds := preds[t := PredictTree(predict, nodes, trees[t], X)];
      t := t + 1;
    }
    preds := preds[-1 := Zeros(|X|)];
    assert forall t :: t in preds ==> preds[t] == Predictions(predict, nodes, trees, X)[t];
  }

  /** Lines 132-138: for every tree index and for -1, a copy of `y` from which
      the prediction of every other existing tree is subtracted. */
  method ComputeResiduals(y: seq<real>, preds: map<int, seq<real>>, numTrees: nat)
    returns (res: map<int, seq<real>>)
    requires PredsFor(preds, numTrees, |y|)
    ensures forall t :: t in res <==> -1 <= t < numTrees
    ensures forall t :: t in res ==> |res[t]| == |y| &&
                                     forall k :: 0 <= k < |y| ==> res[t][k] == Residual(y, preds, numTrees, t, k)
    ensures res == ResidualMap(y, preds, numTrees)
  {
    var keys := seq(numTrees, o => o) + [-1];
    res := map[];
    var i := 0;
    while i < |keys|
      invariant 0 <= i <= |keys|
      invariant forall t :: t in res <==> t in keys[..i]
      invariant forall t :: t in res ==> res[t] == ResidualOf(y, preds, numTrees, t)
    {
      var t := keys[i];
      var r := ResidualVector(y, preds, numTrees, t);
      res := res[t := r];
      assert keys[..i + 1] == keys[..i] + [t];
      i := i + 1;
    }
    assert keys[..i] == keys;
    forall t | -1 <= t < numTrees ensures t in keys {
      if t == -1 { assert keys[numTrees] == t; } else { assert keys[t] == t; }
    }
  }

  /** Lines 134-138 for one key `t`: a copy of `y` from which the prediction of
      every existing tree other than `t` is subtracted, one tree at a time. */
  method ResidualVector(y: seq<real>, preds: map<int, seq<real>>, numTrees: nat, t: int) returns (r: seq<real>)
    requires PredsFor(preds, numTrees, |y|)
    ensures |r| == |y| && forall k :: 0 <= k < |y| ==> r[k] == Residual(y, preds, numTrees, t, k)
  {
    r := y;
    var o := 0;
    while o < numTrees
      invariant 0 <= o <= numTrees
      invariant |r| == |y|
      invariant forall k :: 0 <= k < |y| ==> r[k] == y[k] - OthersSum(preds, o, t, k)
    {
      if o != t {
        var p := preds[o];
        r := seq(|r|, k requires 0 <= k < |r| => r[k] - p[k]);
      }
      o := o + 1;
    }
  }

  /** Tree numbers outside 0 .. n-1 exclude no prediction. */
  lemma {:induction false} OthersSumOutside(preds: map<int, seq<real>>, n: nat, t: int, k: nat)
    requires forall o :: 0 <= o < n ==> o in preds && k < |preds[o]|
    requires t < 0 || t >= n
    ensures OthersSum(preds, n, t, k) == TotalSum(preds, n, k)
  {
    if n > 0 { OthersSumOutside(preds, n - 1, t, k); }
  }

  /** An existing tree's own prediction is left out exactly once. */
  lemma {:induction false} OthersSumOwn(preds: map<int, seq<real>>, n: nat, t: int, k: nat)
    requires forall o :: 0 <= o < n ==> o in preds && k < |preds[o]|
    requires 0 <= t < n
    ensures OthersSum(preds, n, t, k) + preds[t][k] == TotalSum(preds, n, k)
  {
    if n - 1 == t {
      OthersSumOutside(preds, n - 1, t, k);
    } else {
      OthersSumOwn(preds, n - 1, t, k);
    }
  }

  /** Additivity: each tree's residual is what the whole ensemble leaves
      unexplained plus that tree's own prediction. */
  lemma ResidualAdditive(y: seq<real>, preds: map<int, seq<real>>, n: nat, t: int, k: nat)
    requires k < |y| && PredsFor(preds, n, |y|) && 0 <= t < n
    ensures Residual(y, preds, n, t, k) == Residual(y, preds, n, -1, k) + preds[t][k]
  {
    ResidualTotal(y, preds, n, t, k);
    ResidualTotal(y, preds, n, -1, k);
  }

  /** The residual of a tree outside 0 .. n-1 (the sentinel key -1) is `y` minus
      the whole ensemble's prediction; an existing tree gets its own prediction
      back on top of that. */
  lemma ResidualTotal(y: seq<real>, preds: map<int, seq<real>>, n: nat, t: int, k: nat)
    requires k < |y| && PredsFor(preds, n, |y|)
    ensures (t < 0 || t >= n) ==> Residual(y, preds, n, t, k) == y[k] - TotalSum(preds, n, k)
    ensures 0 <= t < n ==> Residual(y, preds, n, t, k) == y[k] - TotalSum(preds, n, k) + preds[t][k]
  {
    if 0 <= t < n {
      OthersSumOwn(preds, n, t, k);
    } else {
      OthersSumOutside(preds, n, t, k);
    }
  }
}
