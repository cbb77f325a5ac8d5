/** The figs Node record, the results of the stump constructor, and the arena
    in which the nodes of a D-FIGS ensemble live.

    A figs Node is a mutable object that is shared by reference: the same object
    is a tree's child, a tree root, and an element of the frontier list at once.
    The model keeps every node in one sequence (the arena) and writes every
    reference as a position in it, so that an in-place attribute update is an
    update of one arena element. */
module FigsNodes {

  datatype Option<T> = None | Some(value: T)

  /** A feature matrix: one row per sample; a missing (NaN) cell is None. */
  type Matrix = seq<seq<Option<real>>>

  /** Per-class sample counts stored as `value_sklearn`: [#label 0, #label 1]. */
  datatype Counts = Counts(neg: nat, pos: nat)

  /** One figs Node, with every attribute the D-FIGS code reads or writes.
      `idxs` is the sample mask the stump constructor works on; `idx` is the
      separately named list of sample indices that `add_new_phase` rewrites
      (None: the attribute was never set on this object). Links are arena
      positions. */
  datatype Node = Node(
    isRoot: bool,
    treeNum: int,
    idxs: seq<bool>,
    idx: Option<seq<nat>>,
    value: Option<real>,
    feature: Option<nat>,
    threshold: Option<real>,
    impurity: Option<real>,
    impurityReduction: Option<real>,
    leftTemp: Option<nat>,
    rightTemp: Option<nat>,
    left: Option<nat>,
    right: Option<nat>,
    nodeId: Option<nat>,
    valueSklearn: Option<Counts>)

  /** A provisional child built by the stump constructor. */
  datatype Child = Child(idxs: seq<bool>, value: real, impurity: real, treeNum: int)

  /** The part of a stump result that exists only when a split was found:
      a non-None impurity reduction always comes with both children. */
  datatype Split = Split(reduction: real, left: Child, right: Child)

  /** What `_construct_node_with_stump` returns. */
  datatype Stump = Stump(
    treeNum: int,
    idxs: seq<bool>,
    feature: Option<nat>,
    threshold: Option<real>,
    impurity: real,
    split: Option<Split>)

  /** The stump constructor: (X, y, idxs, tree_num, max_features) to a stump. */
  type StumpFn = (Matrix, seq<real>, seq<bool>, int, Option<string>) -> Stump

  /** The tree predictor, one row at a time: (arena, root, row) to a prediction. */
  type PredictFn = (seq<Node>, nat, seq<Option<real>>) -> real

  /** The reduction a stump reports, None when it found no split. */
  function Reduction(s: Stump): (r: Option<real>)
    ensures r.Some? <==> s.split.Some?
  {
    if s.split.Some? then Some(s.split.value.reduction) else None
  }

  /** The figs constructor applied to a provisional child. */
  function ChildNode(c: Child): (n: Node)
    ensures n.left.None? && n.right.None? && n.leftTemp.None? && n.rightTemp.None?
    ensures n.impurityReduction.None? && !n.isRoot
    ensures n.treeNum == c.treeNum && n.idxs == c.idxs
  {
    Node(false, c.treeNum, c.idxs, None, Some(c.value), None, None, Some(c.impurity),
         None, None, None, None, None, None, None)
  }

  /** `Node(is_root=True, idxs=np.ones(n, dtype=bool), tree_num=-1)`. */
  function SentinelRoot(n: nat): (s: Node)
    ensures s.isRoot && s.treeNum == -1 && |s.idxs| == n
    ensures forall k :: 0 <= k < n ==> s.idxs[k]
    ensures s.left.None? && s.right.None? && s.leftTemp.None? && s.rightTemp.None?
    ensures s.impurityReduction.None?
  {
    Node(true, -1, seq(n, _ => true), None, None, None, None, None,
         None, None, None, None, None, None, None)
  }

  /** A link of node `i` is absent or points to a later arena position. */
  predicate LinkOk(nodes: seq<Node>, i: nat, c: Option<nat>)
  {
    c.None? || (i < c.value < |nodes|)
  }

  /** Every committed and provisional link points forward in the arena,
      so following links always ends (no cycles). */
  predicate WellFormed(nodes: seq<Node>)
  {
    forall i :: 0 <= i < |nodes| ==>
      LinkOk(nodes, i, nodes[i].left) && LinkOk(nodes, i, nodes[i].right) &&
      LinkOk(nodes, i, nodes[i].leftTemp) && LinkOk(nodes, i, nodes[i].rightTemp)
  }

  /** A node is a leaf when it has neither a committed left nor right child. */
  predicate IsLeaf(n: Node)
  {
    n.left.None? && n.right.None?
  }

  /** The key the frontier is sorted by: the node's impurity reduction. Every
      candidate on a frontier that is sorted has one; elsewhere the key is 0. */
  function Key(nodes: seq<Node>, i: nat): real
  {
    if i < |nodes| && nodes[i].impurityReduction.Some? then nodes[i].impurityReduction.value else 0.0
  }

  /** A frontier of candidates, each with a reduction and both provisional children. */
  predicate Ready(nodes: seq<Node>, f: seq<nat>)
  {
    forall k :: 0 <= k < |f| ==>
      f[k] < |nodes| && nodes[f[k]].impurityReduction.Some? &&
      nodes[f[k]].leftTemp.Some? && nodes[f[k]].rightTemp.Some?
  }
}
