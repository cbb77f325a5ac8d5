/** Leaf collection (`get_leaves`): the reference definition of the order in
    which the explicit-stack traversal emits leaves, and what that sequence
    contains. */
module Leaves {
  import opened FigsNodes

  /** The nodes reachable from `i` through committed links, `i` included. */
  ghost function Subtree(nodes: seq<Node>, i: nat): (r: set<nat>)
    requires WellFormed(nodes) && i < |nodes|
    ensures i in r && forall j :: j in r ==> i <= j < |nodes|
    decreases |nodes| - i
  {
    {i}
    + (if nodes[i].left.Some? then Subtree(nodes, nodes[i].left.value) else {})
    + (if nodes[i].right.Some? then Subtree(nodes, nodes[i].right.value) else {})
  }

  /** The number of nodes a traversal from `i` visits (with repetitions, should
      two links meet). */
  function Size(nodes: seq<Node>, i: nat): (n: nat)
    requires WellFormed(nodes) && i < |nodes|
    ensures n >= 1
    decreases |nodes| - i
  {
    1
    + (if nodes[i].left.Some? then Size(nodes, nodes[i].left.value) else 0)
    + (if nodes[i].right.Some? then Size(nodes, nodes[i].right.value) else 0)
  }

  /** Leaves of the tree at `i` in the order the stack traversal emits them:
      the right subtree's leaves come before the left subtree's, because the
      right child is pushed last and therefore popped first. */
  function Collect(nodes: seq<Node>, i: nat): (r: seq<nat>)
    requires WellFormed(nodes) && i < |nodes|
    ensures forall j :: j in r ==> i <= j < |nodes|
    decreases |nodes| - i
  {
    if IsLeaf(nodes[i]) then [i]
    else
      (if nodes[i].right.Some? then Collect(nodes, nodes[i].right.value) else [])
      + (if nodes[i].left.Some? then Collect(nodes, nodes[i].left.value) else [])
  }

  /** What the stack still owes: the leaves of every stacked node, top first. */
  function Pending(nodes: seq<Node>, stack: seq<nat>): seq<nat>
    requires WellFormed(nodes) && forall k :: 0 <= k < |stack| ==> stack[k] < |nodes|
  {
    if stack == [] then []
    else Collect(nodes, stack[|stack| - 1]) + Pending(nodes, stack[..|stack| - 1])
  }

  /** The total traversal work left on the stack. */
  function StackSize(nodes: seq<Node>, stack: seq<nat>): nat
    requires WellFormed(nodes) && forall k :: 0 <= k < |stack| ==> stack[k] < |nodes|
  {
    if stack == [] then 0
    else Size(nodes, stack[|stack| - 1]) + StackSize(nodes, stack[..|stack| - 1])
  }

  /** The stack after `curr` is popped from `s` and its children pushed, left first. */
  function Pushed(n: Node, s: seq<nat>): (r: seq<nat>)
  {
    s + (if n.left.Some? then [n.left.value] else []) + (if n.right.Some? then [n.right.value] else [])
  }

  /** Pushing `x` puts its leaves and its work at the top of the stack. */
  lemma PendingPush(nodes: seq<Node>, s: seq<nat>, x: nat)
    requires WellFormed(nodes) && x < |nodes| && forall k :: 0 <= k < |s| ==> s[k] < |nodes|
    ensures forall k :: 0 <= k < |s + [x]| ==> (s + [x])[k] < |nodes|
    ensures Pending(nodes, s + [x]) == Collect(nodes, x) + Pending(nodes, s)
    ensures StackSize(nodes, s + [x]) == Size(nodes, x) + StackSize(nodes, s)
  {
    assert (s + [x])[..|s|] == s;
  }

  /** Popping a node with both children pushes the left, then the right. */
  lemma PopBoth(nodes: seq<Node>, s: seq<nat>, i: nat)
    requires WellFormed(nodes) && i < |nodes| && forall k :: 0 <= k < |s| ==> s[k] < |nodes|
    requires nodes[i].left.Some? && nodes[i].right.Some?
    ensures forall k :: 0 <= k < |Pushed(nodes[i], s)| ==> Pushed(nodes[i], s)[k] < |nodes|
    ensures Pending(nodes, Pushed(nodes[i], s)) == Collect(nodes, i) + Pending(nodes, s)
    ensures StackSize(nodes, Pushed(nodes[i], s)) < Size(nodes, i) + StackSize(nodes, s)
  {
    var l, r := nodes[i].left.value, nodes[i].right.value;
    assert Pushed(nodes[i], s) == s + [l] + [r];
    PendingPush(nodes, s, l);
    PendingPush(nodes, s + [l], r);
    var P := Pending(nodes, s);
    assert Collect(nodes, r) + (Collect(nodes, l) + P) == Collect(nodes, r) + Collect(nodes, l) + P;
  }

  /** Popping a node with one child pushes that child. */
  lemma PopOne(nodes: seq<Node>, s: seq<nat>, i: nat, c: nat)
    requires WellFormed(nodes) && i < |nodes| && forall k :: 0 <= k < |s| ==> s[k] < |nodes|
    requires (nodes[i].left == Some(c) && nodes[i].right.None?) || (nodes[i].left.None? && nodes[i].right == Some(c))
    ensures forall k :: 0 <= k < |Pushed(nodes[i], s)| ==> Pushed(nodes[i], s)[k] < |nodes|
    ensures Pending(nodes, Pushed(nodes[i], s)) == Collect(nodes, i) + Pending(nodes, s)
    ensures StackSize(nodes, Pushed(nodes[i], s)) < Size(nodes, i) + StackSize(nodes, s)
  {
    assert Pushed(nodes[i], s) == s + [c];
    PendingPush(nodes, s, c);
  }

  /** One step of the traversal: popping the top `i` of `s` and pushing its
      children leaves the owed leaves the same once `i` itself is emitted if
      it is a leaf, and strictly lowers the work left. */
  lemma PopStep(nodes: seq<Node>, s: seq<nat>)
    requires WellFormed(nodes) && |s| > 0 && forall k :: 0 <= k < |s| ==> s[k] < |nodes|
    ensures var i, rest := s[|s| - 1], s[..|s| - 1];
      && (forall k :: 0 <= k < |Pushed(nodes[i], rest)| ==> Pushed(nodes[i], rest)[k] < |nodes|)
      && (if IsLeaf(nodes[i]) then [i] else []) + Pending(nodes, Pushed(nodes[i], rest)) == Pending(nodes, s)
      && StackSize(nodes, Pushed(nodes[i], rest)) < StackSize(nodes, s)
  {
    var i, rest := s[|s| - 1], s[..|s| - 1];
    var n := nodes[i];
    if n.left.Some? && n.right.Some? {
      PopBoth(nodes, rest, i);
    } else if n.left.Some? {
      PopOne(nodes, rest, i, n.left.value);
    } else if n.right.Some? {
      PopOne(nodes, rest, i, n.right.value);
    } else {
      assert Pushed(n, rest) == rest;
    }
  }

  /** The loop invariant of `get_leaves` survives one iteration: the leaves
      emitted so far followed by those the stack owes are the tree's leaves. */
  lemma StackStep(nodes: seq<Node>, root: nat, popped: seq<nat>, emitted: seq<nat>, s1: seq<nat>, s2: seq<nat>)
    requires WellFormed(nodes) && root < |nodes| && |popped| > 0
    requires forall k :: 0 <= k < |popped| ==> popped[k] < |nodes|
    requires emitted + Pending(nodes, popped) == Collect(nodes, root)
    requires s1 == Pushed(nodes[popped[|popped| - 1]], popped[..|popped| - 1])
    requires s2 == emitted + (if IsLeaf(nodes[popped[|popped| - 1]]) then [popped[|popped| - 1]] else [])
    ensures forall k :: 0 <= k < |s1| ==> s1[k] < |nodes|
    ensures s2 + Pending(nodes, s1) == Collect(nodes, root)
    ensures StackSize(nodes, s1) < StackSize(nodes, popped)
  {
    PopStep(nodes, popped);
    var out := if IsLeaf(nodes[popped[|popped| - 1]]) then [popped[|popped| - 1]] else [];
    ConcatAssoc(emitted, out, Pending(nodes, s1));
  }

  lemma ConcatAssoc(a: seq<nat>, b: seq<nat>, c: seq<nat>)
    ensures a + b + c == a + (b + c)
  {
  }

  /** The leaves of every tree in `roots`, tree by tree (`all_leaves += ...`). */
  function AllLeaves(nodes: seq<Node>, roots: seq<nat>): (r: seq<nat>)
    requires WellFormed(nodes) && forall t :: 0 <= t < |roots| ==> roots[t] < |nodes|
    ensures forall j :: j in r ==> j < |nodes|
  {
    if roots == [] then []
    else AllLeaves(nodes, roots[..|roots| - 1]) + Collect(nodes, roots[|roots| - 1])
  }

  /** `j` is a committed child of `p`. */
  predicate ChildOf(nodes: seq<Node>, p: nat, j: nat)
    requires p < |nodes|
  {
    nodes[p].left == Some(j) || nodes[p].right == Some(j)
  }

  /** Single ownership: no node has two parents and no node has the same child
      on both sides. */
  ghost predicate TreeShaped(nodes: seq<Node>)
  {
    && (forall p, q, j :: 0 <= p < |nodes| && 0 <= q < |nodes| && ChildOf(nodes, p, j) && ChildOf(nodes, q, j) ==> p == q)
    && (forall p :: 0 <= p < |nodes| && nodes[p].left.Some? ==> nodes[p].left != nodes[p].right)
  }

  predicate NoDuplicates(s: seq<nat>)
  {
    forall a, b :: 0 <= a < b < |s| ==> s[a] != s[b]
  }

  /** A node below `i` has its parent below `i` too. */
  lemma {:induction false} ParentInSubtree(nodes: seq<Node>, i: nat, j: nat) returns (p: nat)
    requires WellFormed(nodes) && i < |nodes| && j in Subtree(nodes, i) && j != i
    ensures p < |nodes| && p in Subtree(nodes, i) && ChildOf(nodes, p, j) && p < j
    decreases |nodes| - i
  {
    var n := nodes[i];
    if n.left.Some? && j in Subtree(nodes, n.left.value) {
      if j == n.left.value { p := i; } else { p := ParentInSubtree(nodes, n.left.value, j); }
    } else {
      assert n.right.Some? && j in Subtree(nodes, n.right.value);
      if j == n.right.value { p := i; } else { p := ParentInSubtree(nodes, n.right.value, j); }
    }
  }

  /** In a tree-shaped arena the two subtrees of a node share no node. */
  lemma {:induction false} SubtreesDisjoint(nodes: seq<Node>, i: nat, j: nat)
    requires WellFormed(nodes) && TreeShaped(nodes) && i < |nodes|
    requires nodes[i].left.Some? && nodes[i].right.Some?
    ensures j !in Subtree(nodes, nodes[i].left.value) || j !in Subtree(nodes, nodes[i].right.value)
    decreases j
  {
    var l, r := nodes[i].left.value, nodes[i].right.value;
    if j in Subtree(nodes, l) && j in Subtree(nodes, r) {
      assert l != r;
      if j == l {
        var p := ParentInSubtree(nodes, r, j);
        assert ChildOf(nodes, i, j);
      } else if j == r {
        var p := ParentInSubtree(nodes, l, j);
        assert ChildOf(nodes, i, j);
      } else {
        var p := ParentInSubtree(nodes, l, j);
        var q := ParentInSubtree(nodes, r, j);
        assert p == q;
        SubtreesDisjoint(nodes, i, p);
      }
    }
  }

  /** `get_leaves` emits exactly the leaves of the tree: a node is in the result
      if and only if it is reachable from the root and has neither child. An
      internal node with only a left child is therefore never emitted. */
  lemma {:induction false} CollectIsLeaves(nodes: seq<Node>, i: nat, j: nat)
    requires WellFormed(nodes) && i < |nodes|
    ensures j in Collect(nodes, i) <==> j in Subtree(nodes, i) && IsLeaf(nodes[j])
    decreases |nodes| - i
  {
    var n := nodes[i];
    if !IsLeaf(n) {
      if n.left.Some? { CollectIsLeaves(nodes, n.left.value, j); }
      if n.right.Some? { CollectIsLeaves(nodes, n.right.value, j); }
      if j in Subtree(nodes, i) && IsLeaf(nodes[j]) {
        assert j != i;
      }
    }
  }

  /** In a tree-shaped arena `get_leaves` emits each leaf once. */
  lemma {:induction false} CollectNoDuplicates(nodes: seq<Node>, i: nat)
    requires WellFormed(nodes) && TreeShaped(nodes) && i < |nodes|
    ensures NoDuplicates(Collect(nodes, i))
    decreases |nodes| - i
  {
    var n := nodes[i];
    if !IsLeaf(n) {
      var rs := if n.right.Some? then Collect(nodes, n.right.value) else [];
      var ls := if n.left.Some? then Collect(nodes, n.left.value) else [];
      if n.right.Some? { CollectNoDuplicates(nodes, n.right.value); }
      if n.left.Some? { CollectNoDuplicates(nodes, n.left.value); }
      assert Collect(nodes, i) == rs + ls;
      forall a, b | 0 <= a < |rs| && 0 <= b < |ls| ensures rs[a] != ls[b] {
        if n.right.Some? && n.left.Some? {
          assert rs[a] in rs && ls[b] in ls;
          CollectIsLeaves(nodes, n.right.value, rs[a]);
          CollectIsLeaves(nodes, n.left.value, ls[b]);
          SubtreesDisjoint(nodes, i, rs[a]);
        }
      }
    }
  }
}
