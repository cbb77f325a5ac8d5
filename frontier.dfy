/** The ordering of the frontier: `sorted(potential_splits, key=lambda x:
    x.impurity_reduction)`. Python's `sorted` is a stable sort, modelled here as
    an insertion sort that places each element after every earlier element whose
    key is not larger. */
module Frontier {
  import opened FigsNodes

  predicate SortedAsc(nodes: seq<Node>, s: seq<nat>)
  {
    forall a, b :: 0 <= a < b < |s| ==> Key(nodes, s[a]) <= Key(nodes, s[b])
  }

  /** Insert `x` into a sorted `s` after every element whose key is at most its own. */
  function Insert(nodes: seq<Node>, x: nat, s: seq<nat>): (r: seq<nat>)
    ensures multiset(r) == multiset(s) + multiset{x}
  {
    if s == [] then [x]
    else if Key(nodes, s[|s| - 1]) <= Key(nodes, x) then s + [x]
    else
      assert s == s[..|s| - 1] + [s[|s| - 1]];
      Insert(nodes, x, s[..|s| - 1]) + [s[|s| - 1]]
  }

  /** The frontier in ascending order of impurity reduction. */
  function SortByReduction(nodes: seq<Node>, s: seq<nat>): (r: seq<nat>)
    ensures multiset(r) == multiset(s)
  {
    if s == [] then []
    else
      assert s == s[..|s| - 1] + [s[|s| - 1]];
      Insert(nodes, s[|s| - 1], SortByReduction(nodes, s[..|s| - 1]))
  }

  /** The candidates of `s` whose key is `v`, in their order in `s`. */
  function WithKey(nodes: seq<Node>, s: seq<nat>, v: real): seq<nat>
  {
    if s == [] then []
    else WithKey(nodes, s[..|s| - 1], v) + (if Key(nodes, s[|s| - 1]) == v then [s[|s| - 1]] else [])
  }

  /** Inserting keeps every key under a common bound. */
  lemma {:induction false} InsertBounded(nodes: seq<Node>, x: nat, s: seq<nat>, m: real)
    requires Key(nodes, x) <= m
    requires forall k :: 0 <= k < |s| ==> Key(nodes, s[k]) <= m
    ensures forall k :: 0 <= k < |Insert(nodes, x, s)| ==> Key(nodes, Insert(nodes, x, s)[k]) <= m
  {
    if s != [] && Key(nodes, s[|s| - 1]) > Key(nodes, x) {
      var init := s[..|s| - 1];
      assert forall k :: 0 <= k < |init| ==> init[k] == s[k];
      InsertBounded(nodes, x, init, m);
    }
  }

  lemma {:induction false} InsertSorted(nodes: seq<Node>, x: nat, s: seq<nat>)
    requires SortedAsc(nodes, s)
    ensures SortedAsc(nodes, Insert(nodes, x, s))
  {
    if s != [] && Key(nodes, s[|s| - 1]) > Key(nodes, x) {
      var init, last := s[..|s| - 1], s[|s| - 1];
      assert forall k :: 0 <= k < |init| ==> init[k] == s[k];
      InsertSorted(nodes, x, init);
      InsertBounded(nodes, x, init, Key(nodes, last));
      var r' := Insert(nodes, x, init);
      var r := r' + [last];
      assert Insert(nodes, x, s) == r;
      assert forall k :: 0 <= k < |r'| ==> r[k] == r'[k];
    }
  }

  /** The sorted frontier is ascending, so `pop()` returns a maximum. */
  lemma {:induction false} SortAscending(nodes: seq<Node>, s: seq<nat>)
    ensures SortedAsc(nodes, SortByReduction(nodes, s))
  {
    if s != [] {
      SortAscending(nodes, s[..|s| - 1]);
      InsertSorted(nodes, s[|s| - 1], SortByReduction(nodes, s[..|s| - 1]));
    }
  }

  lemma {:induction false} InsertStable(nodes: seq<Node>, x: nat, s: seq<nat>, v: real)
    ensures WithKey(nodes, Insert(nodes, x, s), v) ==
            WithKey(nodes, s, v) + (if Key(nodes, x) == v then [x] else [])
  {
    var r := Insert(nodes, x, s);
    if s == [] {
      assert r[..|r| - 1] == [];
    } else if Key(nodes, s[|s| - 1]) <= Key(nodes, x) {
      assert r[..|r| - 1] == s;
    } else {
      var init, last := s[..|s| - 1], s[|s| - 1];
      var r' := Insert(nodes, x, init);
      InsertStable(nodes, x, init, v);
      assert r == r' + [last];
      assert r[..|r| - 1] == r';
      assert WithKey(nodes, s, v) == WithKey(nodes, init, v) + (if Key(nodes, last) == v then [last] else []);
    }
  }

  /** `sorted` is stable: candidates with equal reductions keep their order. */
  lemma {:induction false} SortStable(nodes: seq<Node>, s: seq<nat>, v: real)
    ensures WithKey(nodes, SortByReduction(nodes, s), v) == WithKey(nodes, s, v)
  {
    var r := SortByReduction(nodes, s);
    assert forall y :: y in r ==> y in multiset(r);
    if s != [] {
      SortStable(nodes, s[..|s| - 1], v);
      InsertStable(nodes, s[|s| - 1], SortByReduction(nodes, s[..|s| - 1]), v);
    }
  }

  /** The last element of an ascending frontier has the largest reduction. */
  lemma LastIsMax(nodes: seq<Node>, s: seq<nat>, k: nat)
    requires SortedAsc(nodes, s) && k < |s|
    ensures Key(nodes, s[k]) <= Key(nodes, s[|s| - 1])
  {
    if k < |s| - 1 {
      assert s[k] in s;
    }
  }

  /** Sorting moves candidates, so a frontier ready to be popped stays ready. */
  lemma ReadySorted(nodes: seq<Node>, s: seq<nat>)
    requires Ready(nodes, s)
    ensures Ready(nodes, SortByReduction(nodes, s))
  {
    var r := SortByReduction(nodes, s);
    forall k | 0 <= k < |r|
      ensures r[k] < |nodes| && nodes[r[k]].impurityReduction.Some?
      ensures nodes[r[k]].leftTemp.Some? && nodes[r[k]].rightTemp.Some?
    {
      assert r[k] in multiset(r);
      assert r[k] in s;
    }
  }
}
