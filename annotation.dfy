/** The annotation pass (`_annotate_node`): the marks it leaves on a tree,
    given as a map from arena position to (node id, label counts), and what
    those marks are in a tree-shaped arena. */
module Annotation {
  import opened FigsNodes
  import opened Leaves

  /** `iter(range(0, int(1e06)))` yields this many ids; the next `next` raises. */
  const NodeIdLimit: nat := 1000000

  /** What the pass writes on one node: `node_id` and `value_sklearn`. */
  datatype Mark = Mark(id: nat, counts: Counts)

  predicate RowsIn(rows: seq<nat>, n: nat)
  {
    forall k :: 0 <= k < |rows| ==> rows[k] < n
  }

  /** How many of the rows carry label `v`: `value_counts()[v]`, or 0 when the
      label is absent (the KeyError branch). */
  function CountLabel(y: seq<real>, rows: seq<nat>, v: real): nat
    requires RowsIn(rows, |y|)
  {
    if rows == [] then 0 else (if y[rows[0]] == v then 1 else 0) + CountLabel(y, rows[1..], v)
  }

  /** `value_sklearn = [neg_count, pos_count]`. */
  function CountLabels(y: seq<real>, rows: seq<nat>): (r: Counts)
    requires RowsIn(rows, |y|)
    ensures r.neg + r.pos <= |rows|
  {
    LabelsBounded(y, rows);
    Counts(CountLabel(y, rows, 0.0), CountLabel(y, rows, 1.0))
  }

  /** A row carries at most one of the two labels. */
  lemma {:induction false} LabelsBounded(y: seq<real>, rows: seq<nat>)
    requires RowsIn(rows, |y|)
    ensures CountLabel(y, rows, 0.0) + CountLabel(y, rows, 1.0) <= |rows|
  {
    if rows != [] { LabelsBounded(y, rows[1..]); }
  }

  /** `X[:, node.feature] <= node.threshold` for one row. A NaN cell compares
      False, so its row goes right; so does every row at a node without a
      feature or threshold, or whose feature is past the end of the row. */
  predicate GoesLeft(row: seq<Option<real>>, n: Node): (b: bool)
    ensures b ==> n.feature.Some? && n.feature.value < |row| && row[n.feature.value].Some?
  {
    n.feature.Some? && n.threshold.Some? && n.feature.value < |row| &&
    row[n.feature.value].Some? && row[n.feature.value].value <= n.threshold.value
  }

  /** The rows, in order, passed to the left child: `X[idxs_left]`. */
  function LeftRows(X: Matrix, rows: seq<nat>, n: Node): (r: seq<nat>)
    requires RowsIn(rows, |X|)
    ensures RowsIn(r, |X|)
    ensures forall k :: 0 <= k < |r| ==> GoesLeft(X[r[k]], n)
  {
    if rows == [] then []
    else (if GoesLeft(X[rows[0]], n) then [rows[0]] else []) + LeftRows(X, rows[1..], n)
  }

  /** The rows, in order, passed to the right child: `X[~idxs_left]`. */
  function RightRows(X: Matrix, rows: seq<nat>, n: Node): (r: seq<nat>)
    requires RowsIn(rows, |X|)
    ensures RowsIn(r, |X|)
    ensures forall k :: 0 <= k < |r| ==> !GoesLeft(X[r[k]], n)
  {
    if rows == [] then []
    else (if GoesLeft(X[rows[0]], n) then [] else [rows[0]]) + RightRows(X, rows[1..], n)
  }

  /** The number of `next(node_counter)` calls the pass makes below `node`. */
  function Visits(nodes: seq<Node>, node: Option<nat>): nat
    requires WellFormed(nodes) && (node.Some? ==> node.value < |nodes|)
  {
    if node.None? then 0 else Size(nodes, node.value)
  }

  /** The nodes reached from `node`, in the order the pass reaches them. */
  ghost function Preorder(nodes: seq<Node>, node: Option<nat>): (p: seq<nat>)
    requires WellFormed(nodes) && (node.Some? ==> node.value < |nodes|)
    ensures |p| == Visits(nodes, node)
    decreases if node.None? then 0 else |nodes| - node.value + 1
  {
    if node.None? then []
    else [node.value] + Preorder(nodes, nodes[node.value].left) + Preorder(nodes, nodes[node.value].right)
  }

  /** What one run of the pass leaves: the marks it wrote and the counter value
      the next `next(node_counter)` would return. */
  datatype Pass = Pass(marks: map<nat, Mark>, next: nat)

  /** The marks `_annotate_node(node, X[rows], y[rows])` writes when the counter
      stands at `c`: the node itself first, then its left subtree, then its right
      subtree, which continues the counter where the left one stopped; a later
      mark of the same node replaces an earlier one. */
  function Ann(nodes: seq<Node>, node: Option<nat>, X: Matrix, y: seq<real>, rows: seq<nat>, c: nat): (p: Pass)
    requires WellFormed(nodes) && (node.Some? ==> node.value < |nodes|)
    requires |X| == |y| && RowsIn(rows, |X|)
    ensures p.next >= c
    decreases if node.None? then 0 else |nodes| - node.value + 1
  {
    if node.None? then Pass(map[], c)
    else
      var n := nodes[node.value];
      var l := Ann(nodes, n.left, X, y, LeftRows(X, rows, n), c + 1);
      var r := Ann(nodes, n.right, X, y, RightRows(X, rows, n), l.next);
      Pass(map[node.value := Mark(c, CountLabels(y, rows))] + l.marks + r.marks, r.next)
  }

  /** The arena with the marks of `a` written on its nodes. */
  function Annotated(nodes: seq<Node>, a: map<nat, Mark>): (r: seq<Node>)
    ensures |r| == |nodes|
    ensures forall j :: 0 <= j < |nodes| && j in a ==>
      r[j] == nodes[j].(nodeId := Some(a[j].id), valueSklearn := Some(a[j].counts))
    ensures forall j :: 0 <= j < |nodes| && j !in a ==> r[j] == nodes[j]
  {
    seq(|nodes|, j requires 0 <= j < |nodes| =>
      if j in a then nodes[j].(nodeId := Some(a[j].id), valueSklearn := Some(a[j].counts)) else nodes[j])
  }

  /** A node with both annotation attributes cleared. */
  function Unmarked(n: Node): Node
  {
    n.(nodeId := None, valueSklearn := None)
  }

  /** Two nodes that differ at most in their annotation attributes. */
  predicate SameShape(n: Node, m: Node)
  {
    Unmarked(n) == Unmarked(m)
  }

  /** `b` is `a` with at most the two annotation attributes changed. */
  predicate OnlyAnnotated(a: seq<Node>, b: seq<Node>)
  {
    |a| == |b| && forall j {:trigger SameShape(a[j], b[j])} :: 0 <= j < |a| ==> SameShape(a[j], b[j])
  }

  lemma UnmarkedKeeps(n: Node, m: Node)
    requires SameShape(n, m)
    ensures n.left == m.left && n.right == m.right && n.leftTemp == m.leftTemp && n.rightTemp == m.rightTemp
    ensures n.feature == m.feature && n.threshold == m.threshold
  {
    assert Unmarked(n).left == n.left && Unmarked(m).left == m.left;
  }

  /** Writing marks produces an arena that differs only in the marks. */
  lemma AnnotatedOnly(nodes: seq<Node>, a: map<nat, Mark>)
    ensures OnlyAnnotated(nodes, Annotated(nodes, a))
  {
  }

  /** Marks keep every link. */
  lemma OnlyAnnotatedWellFormed(nodes: seq<Node>, nodes': seq<Node>)
    requires WellFormed(nodes) && OnlyAnnotated(nodes, nodes')
    ensures WellFormed(nodes')
  {
    forall i | 0 <= i < |nodes'|
      ensures LinkOk(nodes', i, nodes'[i].left) && LinkOk(nodes', i, nodes'[i].right)
      ensures LinkOk(nodes', i, nodes'[i].leftTemp) && LinkOk(nodes', i, nodes'[i].rightTemp)
    {
      UnmarkedKeeps(nodes[i], nodes'[i]);
    }
  }

  /** Marking twice in a row leaves the later marks. */
  lemma AnnotatedTwice(nodes: seq<Node>, a: map<nat, Mark>, b: map<nat, Mark>)
    ensures Annotated(Annotated(nodes, a), b) == Annotated(nodes, a + b)
  {
  }

  lemma {:induction false} LeftRightDependOnSplitOnly(X: Matrix, rows: seq<nat>, n: Node, n': Node)
    requires RowsIn(rows, |X|) && n.feature == n'.feature && n.threshold == n'.threshold
    ensures LeftRows(X, rows, n) == LeftRows(X, rows, n') && RightRows(X, rows, n) == RightRows(X, rows, n')
  {
    if rows != [] { LeftRightDependOnSplitOnly(X, rows[1..], n, n'); }
  }

  /** Annotation changes nothing the pass reads, so a pass over an annotated
      arena sees the same tree and writes the same marks. */
  lemma {:induction false} AnnUnchanged(nodes: seq<Node>, nodes': seq<Node>, node: Option<nat>,
                                      X: Matrix, y: seq<real>, rows: seq<nat>, c: nat)
    requires WellFormed(nodes) && WellFormed(nodes') && OnlyAnnotated(nodes, nodes')
    requires node.Some? ==> node.value < |nodes|
    requires |X| == |y| && RowsIn(rows, |X|)
    ensures Ann(nodes', node, X, y, rows, c) == Ann(nodes, node, X, y, rows, c)
    decreases if node.None? then 0 else |nodes| - node.value + 1
  {
    if node.Some? {
      var n, n' := nodes[node.value], nodes'[node.value];
      UnmarkedKeeps(n, n');
      LeftRightDependOnSplitOnly(X, rows, n, n');
      var l := Ann(nodes, n.left, X, y, LeftRows(X, rows, n), c + 1);
      AnnUnchanged(nodes, nodes', n.left, X, y, LeftRows(X, rows, n), c + 1);
      AnnUnchanged(nodes, nodes', n.right, X, y, RightRows(X, rows, n), l.next);
    }
  }

  /** Running the pass a second time on an annotated tree reproduces exactly the
      same node ids and counts, and writing them again changes nothing. */
  lemma AnnotationIdempotent(nodes: seq<Node>, root: nat, X: Matrix, y: seq<real>, rows: seq<nat>)
    requires WellFormed(nodes) && root < |nodes| && |X| == |y| && RowsIn(rows, |X|)
    ensures WellFormed(Annotated(nodes, Ann(nodes, Some(root), X, y, rows, 0).marks))
    ensures var a := Ann(nodes, Some(root), X, y, rows, 0);
            Ann(Annotated(nodes, a.marks), Some(root), X, y, rows, 0) == a &&
            Annotated(Annotated(nodes, a.marks), a.marks) == Annotated(nodes, a.marks)
  {
    var a := Ann(nodes, Some(root), X, y, rows, 0).marks;
    AnnotatedOnly(nodes, a);
    OnlyAnnotatedWellFormed(nodes, Annotated(nodes, a));
    AnnUnchanged(nodes, Annotated(nodes, a), Some(root), X, y, rows, 0);
    AnnotatedTwice(nodes, a, a);
  }

  /** The pass calls `next(node_counter)` once per node it reaches. */
  lemma {:induction false} AnnNext(nodes: seq<Node>, node: Option<nat>, X: Matrix, y: seq<real>, rows: seq<nat>, c: nat)
    requires WellFormed(nodes) && (node.Some? ==> node.value < |nodes|)
    requires |X| == |y| && RowsIn(rows, |X|)
    ensures Ann(nodes, node, X, y, rows, c).next == c + Visits(nodes, node)
    decreases if node.None? then 0 else |nodes| - node.value + 1
  {
    if node.Some? {
      var n := nodes[node.value];
      var l := Ann(nodes, n.left, X, y, LeftRows(X, rows, n), c + 1);
      AnnNext(nodes, n.left, X, y, LeftRows(X, rows, n), c + 1);
      AnnNext(nodes, n.right, X, y, RightRows(X, rows, n), l.next);
    }
  }

  /** The pass marks exactly the nodes of the tree. */
  lemma {:induction false} AnnCoversTree(nodes: seq<Node>, node: Option<nat>, X: Matrix, y: seq<real>,
                                         rows: seq<nat>, c: nat, j: nat)
    requires WellFormed(nodes) && (node.Some? ==> node.value < |nodes|)
    requires |X| == |y| && RowsIn(rows, |X|)
    ensures j in Ann(nodes, node, X, y, rows, c).marks <==> node.Some? && j in Subtree(nodes, node.value)
    decreases if node.None? then 0 else |nodes| - node.value + 1
  {
    if node.Some? {
      var n := nodes[node.value];
      var l := Ann(nodes, n.left, X, y, LeftRows(X, rows, n), c + 1);
      AnnCoversTree(nodes, n.left, X, y, LeftRows(X, rows, n), c + 1, j);
      AnnCoversTree(nodes, n.right, X, y, RightRows(X, rows, n), l.next, j);
    }
  }

  /** The root of the pass is marked with the first counter value and the
      label counts of all the rows it receives. */
  lemma AnnRoot(nodes: seq<Node>, i: nat, X: Matrix, y: seq<real>, rows: seq<nat>, c: nat)
    requires WellFormed(nodes) && i < |nodes|
    requires |X| == |y| && RowsIn(rows, |X|)
    ensures i in Ann(nodes, Some(i), X, y, rows, c).marks
    ensures Ann(nodes, Some(i), X, y, rows, c).marks[i] == Mark(c, CountLabels(y, rows))
  {
    var n := nodes[i];
    var l := Ann(nodes, n.left, X, y, LeftRows(X, rows, n), c + 1);
    var r := Ann(nodes, n.right, X, y, RightRows(X, rows, n), l.next);
    AnnCoversTree(nodes, n.left, X, y, LeftRows(X, rows, n), c + 1, i);
    AnnCoversTree(nodes, n.right, X, y, RightRows(X, rows, n), l.next, i);
  }

  /** The marks of the left subtree survive the right subtree's pass, because
      in a tree-shaped arena the right subtree does not reach them. */
  lemma LeftMarksKept(nodes: seq<Node>, i: nat, X: Matrix, y: seq<real>, rows: seq<nat>, c: nat, j: nat)
    requires WellFormed(nodes) && TreeShaped(nodes) && i < |nodes|
    requires |X| == |y| && RowsIn(rows, |X|)
    requires j in Ann(nodes, nodes[i].left, X, y, LeftRows(X, rows, nodes[i]), c + 1).marks
    ensures j in Ann(nodes, Some(i), X, y, rows, c).marks
    ensures Ann(nodes, Some(i), X, y, rows, c).marks[j] ==
            Ann(nodes, nodes[i].left, X, y, LeftRows(X, rows, nodes[i]), c + 1).marks[j]
  {
    var n := nodes[i];
    var l := Ann(nodes, n.left, X, y, LeftRows(X, rows, n), c + 1);
    var r := Ann(nodes, n.right, X, y, RightRows(X, rows, n), l.next);
    AnnCoversTree(nodes, n.left, X, y, LeftRows(X, rows, n), c + 1, j);
    AnnCoversTree(nodes, n.right, X, y, RightRows(X, rows, n), l.next, j);
    if j in r.marks {
      SubtreesDisjoint(nodes, i, j);
    }
  }

  /** The k-th node the pass reaches. */
  lemma {:induction false} AnnIsPreorder(nodes: seq<Node>, node: Option<nat>, X: Matrix, y: seq<real>,
                                         rows: seq<nat>, c: nat, k: nat)
    requires WellFormed(nodes) && TreeShaped(nodes) && (node.Some? ==> node.value < |nodes|)
    requires |X| == |y| && RowsIn(rows, |X|)
    requires k < |Preorder(nodes, node)|
    ensures Preorder(nodes, node)[k] in Ann(nodes, node, X, y, rows, c).marks
    ensures Ann(nodes, node, X, y, rows, c).marks[Preorder(nodes, node)[k]].id == c + k
    decreases if node.None? then 0 else |nodes| - node.value + 1
  {
    var i := node.value;
    var n := nodes[i];
    var pl, pr := Preorder(nodes, n.left), Preorder(nodes, n.right);
    var p := Preorder(nodes, node);
    assert p == [i] + pl + pr;
    if k == 0 {
      AnnRoot(nodes, i, X, y, rows, c);
    } else if k <= |pl| {
      assert p[k] == pl[k - 1];
      AnnIsPreorder(nodes, n.left, X, y, LeftRows(X, rows, n), c + 1, k - 1);
      LeftMarksKept(nodes, i, X, y, rows, c, pl[k - 1]);
    } else {
      assert p[k] == pr[k - 1 - |pl|];
      var l := Ann(nodes, n.left, X, y, LeftRows(X, rows, n), c + 1);
      AnnNext(nodes, n.left, X, y, LeftRows(X, rows, n), c + 1);
      AnnIsPreorder(nodes, n.right, X, y, RightRows(X, rows, n), l.next, k - 1 - |pl|);
    }
  }

  /** Left children receive the rows at or under the threshold and right
      children the rest (the contracts of `LeftRows` and `RightRows`); together
      they are the node's rows, each as often as before. */
  lemma {:induction false} RowsPartition(X: Matrix, rows: seq<nat>, n: Node)
    requires RowsIn(rows, |X|)
    ensures multiset(LeftRows(X, rows, n)) + multiset(RightRows(X, rows, n)) == multiset(rows)
  {
    if rows != [] {
      var rest := rows[1..];
      RowsPartition(X, rest, n);
      assert multiset(rows) == multiset{rows[0]} + multiset(rest) by { assert rows == [rows[0]] + rest; }
      var l', r' := LeftRows(X, rest, n), RightRows(X, rest, n);
      if GoesLeft(X[rows[0]], n) {
        assert multiset(LeftRows(X, rows, n)) == multiset{rows[0]} + multiset(l') by {
          assert LeftRows(X, rows, n) == [rows[0]] + l';
        }
        assert RightRows(X, rows, n) == r';
      } else {
        assert multiset(RightRows(X, rows, n)) == multiset{rows[0]} + multiset(r') by {
          assert RightRows(X, rows, n) == [rows[0]] + r';
        }
        assert LeftRows(X, rows, n) == l';
      }
    }
  }

  /** The count of a label at a node is the sum of the counts its children
      receive. */
  lemma {:induction false} CountsSplit(X: Matrix, y: seq<real>, rows: seq<nat>, n: Node, v: real)
    requires |X| == |y| && RowsIn(rows, |X|)
    ensures CountLabel(y, rows, v) == CountLabel(y, LeftRows(X, rows, n), v) + CountLabel(y, RightRows(X, rows, n), v)
  {
    if rows != [] {
      var rest := rows[1..];
      CountsSplit(X, y, rest, n, v);
      var l', r' := LeftRows(X, rest, n), RightRows(X, rest, n);
      var one := if y[rows[0]] == v then 1 else 0;
      assert CountLabel(y, rows, v) == one + CountLabel(y, rest, v);
      if GoesLeft(X[rows[0]], n) {
        assert CountLabel(y, LeftRows(X, rows, n), v) == one + CountLabel(y, l', v) by {
          var l := [rows[0]] + l';
          assert LeftRows(X, rows, n) == l;
          assert l[0] == rows[0] && l[1..] == l';
        }
        assert RightRows(X, rows, n) == r';
      } else {
        assert CountLabel(y, RightRows(X, rows, n), v) == one + CountLabel(y, r', v) by {
          var r := [rows[0]] + r';
          assert RightRows(X, rows, n) == r;
          assert r[0] == rows[0] && r[1..] == r';
        }
        assert LeftRows(X, rows, n) == l';
      }
    }
  }
}
