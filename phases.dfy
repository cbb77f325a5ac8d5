/** Phase validation (`check_phase`) and the restriction of a sample-index list
    to the samples whose new-phase row is complete (the inner loop of
    `add_new_phase`). A missing value (NaN) is a None cell. */
module Phases {
  import opened FigsNodes

  type Row = seq<Option<real>>

  /** A two-dimensional array of phase features: `width` columns per row. */
  datatype Table = Table(width: nat, rows: seq<Row>)

  /** `np.isnan(row).any()`, scanned cell by cell. */
  function RowHasNaN(row: Row): (b: bool)
    ensures b <==> exists c :: 0 <= c < |row| && row[c].None?
  {
    if row == [] then false else row[0].None? || RowHasNaN(row[1..])
  }

  /** `np.isnan(row).all()`. */
  function RowAllNaN(row: Row): (b: bool)
    ensures b <==> forall c :: 0 <= c < |row| ==> row[c].None?
  {
    if row == [] then true else row[0].None? && RowAllNaN(row[1..])
  }

  /** `np.isnan(table).any()`, row by row. */
  function AnyNaN(rows: seq<Row>): (b: bool)
  {
    if rows == [] then false else RowHasNaN(rows[0]) || AnyNaN(rows[1..])
  }

  /** `np.isnan(table).all()`, row by row. */
  function AllNaN(rows: seq<Row>): (b: bool)
  {
    if rows == [] then true else RowAllNaN(rows[0]) && AllNaN(rows[1..])
  }

  lemma {:induction false} AnyNaNMeans(rows: seq<Row>)
    ensures AnyNaN(rows) <==> exists r, c :: 0 <= r < |rows| && 0 <= c < |rows[r]| && rows[r][c].None?
  {
    if rows != [] {
      AnyNaNMeans(rows[1..]);
      if RowHasNaN(rows[0]) {
        var c :| 0 <= c < |rows[0]| && rows[0][c].None?;
        assert rows[0][c].None?;
      }
      if exists r, c :: 0 <= r < |rows| && 0 <= c < |rows[r]| && rows[r][c].None? {
        var r, c :| 0 <= r < |rows| && 0 <= c < |rows[r]| && rows[r][c].None?;
        if r > 0 { assert rows[1..][r - 1][c].None?; }
      }
    }
  }

  lemma {:induction false} AllNaNMeans(rows: seq<Row>)
    ensures AllNaN(rows) <==> forall r, c :: 0 <= r < |rows| && 0 <= c < |rows[r]| ==> rows[r][c].None?
  {
    if rows != [] {
      AllNaNMeans(rows[1..]);
      if AllNaN(rows) {
        forall r, c | 0 <= r < |rows| && 0 <= c < |rows[r]| ensures rows[r][c].None? {
          if r > 0 { assert rows[1..][r - 1] == rows[r]; }
        }
      }
      if forall r, c :: 0 <= r < |rows| && 0 <= c < |rows[r]| ==> rows[r][c].None? {
        assert RowAllNaN(rows[0]) by {
          forall c | 0 <= c < |rows[0]| ensures rows[0][c].None? { }
        }
        forall r, c | 0 <= r < |rows[1..]| && 0 <= c < |rows[1..][r]| ensures rows[1..][r][c].None? {
          assert rows[1..][r] == rows[r + 1];
        }
      }
    }
  }

  /** `check_phase(old_phases, new_phase)`: true when it raises. The loop over
      `range(len(old_phases))` tests one whole-array condition on every pass, so
      it raises exactly when there is at least one old row, the old phase has a
      NaN somewhere and the new phase is not NaN everywhere. */
  function CheckPhase(oldPhases: Table, newPhase: Table): (raises: bool)
    ensures raises ==> |oldPhases.rows| > 0 && |newPhase.rows| > 0
  {
    |oldPhases.rows| > 0 && AnyNaN(oldPhases.rows) && !AllNaN(newPhase.rows)
  }

  /** The check raises if and only if some cell of the old phase is missing and
      some cell of the new phase is present; which samples they belong to plays
      no part. */
  lemma CheckPhaseRaises(oldPhases: Table, newPhase: Table)
    ensures CheckPhase(oldPhases, newPhase) <==>
      (exists r, c :: 0 <= r < |oldPhases.rows| && 0 <= c < |oldPhases.rows[r]| && oldPhases.rows[r][c].None?) &&
      (exists r, c :: 0 <= r < |newPhase.rows| && 0 <= c < |newPhase.rows[r]| && newPhase.rows[r][c].Some?)
  {
    AnyNaNMeans(oldPhases.rows);
    AllNaNMeans(newPhase.rows);
  }

  /** A passing check guarantees the per-sample availability rule: a sample
      whose old-phase row has a NaN has no value in its new-phase row. */
  lemma CheckPhaseSound(oldPhases: Table, newPhase: Table, s: nat)
    requires !CheckPhase(oldPhases, newPhase)
    requires s < |oldPhases.rows| && s < |newPhase.rows| && RowHasNaN(oldPhases.rows[s])
    ensures RowAllNaN(newPhase.rows[s])
  {
    CheckPhaseRaises(oldPhases, newPhase);
    var c :| 0 <= c < |oldPhases.rows[s]| && oldPhases.rows[s][c].None?;
    assert oldPhases.rows[s][c].None?;
  }

  /** The whole-array check is stricter than the per-sample rule: it rejects a
      new phase in which the only sample with an old NaN has no new value. */
  lemma CheckPhaseStricterThanPerSample()
    ensures var oldP := Table(1, [[None], [Some(1.0)]]);
            var newP := Table(1, [[None], [Some(2.0)]]);
            CheckPhase(oldP, newP) &&
            forall s :: 0 <= s < 2 && RowHasNaN(oldP.rows[s]) ==> RowAllNaN(newP.rows[s])
  {
    var oldP := Table(1, [[None], [Some(1.0)]]);
    var newP := Table(1, [[None], [Some(2.0)]]);
    assert RowHasNaN(oldP.rows[0]);
    assert !RowAllNaN(newP.rows[1]) by { assert newP.rows[1][0].Some?; }
  }

  /** A row `np.isnan(...).any()` finds nothing missing in. */
  predicate Complete(row: Row)
  {
    !RowHasNaN(row)
  }

  predicate InRange(idx: seq<nat>, n: nat)
  {
    forall k :: 0 <= k < |idx| ==> idx[k] < n
  }

  /** The samples of `idx`, in order, whose new-phase row is complete. */
  function KeepComplete(idx: seq<nat>, rows: seq<Row>): (r: seq<nat>)
    requires InRange(idx, |rows|)
    ensures |r| <= |idx|
    ensures forall x :: x in r ==> x in idx && x < |rows| && Complete(rows[x])
  {
    if idx == [] then []
    else (if Complete(rows[idx[0]]) then [idx[0]] else []) + KeepComplete(idx[1..], rows)
  }

  /** `a` is `b` with some elements left out, the rest in their order. */
  predicate Subsequence(a: seq<nat>, b: seq<nat>)
  {
    a == [] || (b != [] && ((a[0] == b[0] && Subsequence(a[1..], b[1..])) || Subsequence(a, b[1..])))
  }

  lemma {:induction false} KeepCompleteAppend(a: seq<nat>, b: seq<nat>, rows: seq<Row>)
    requires InRange(a, |rows|) && InRange(b, |rows|)
    ensures InRange(a + b, |rows|)
    ensures KeepComplete(a + b, rows) == KeepComplete(a, rows) + KeepComplete(b, rows)
  {
    if a != [] {
      assert (a + b)[1..] == a[1..] + b;
      KeepCompleteAppend(a[1..], b, rows);
    } else {
      assert a + b == b;
    }
  }

  /** The restricted list keeps the order of the old one. */
  lemma {:induction false} KeepCompleteIsSubsequence(idx: seq<nat>, rows: seq<Row>)
    requires InRange(idx, |rows|)
    ensures Subsequence(KeepComplete(idx, rows), idx)
  {
    if idx != [] {
      KeepCompleteIsSubsequence(idx[1..], rows);
      var rest := KeepComplete(idx[1..], rows);
      if Complete(rows[idx[0]]) {
        assert KeepComplete(idx, rows) == [idx[0]] + rest;
        assert ([idx[0]] + rest)[1..] == rest;
      } else {
        assert KeepComplete(idx, rows) == rest;
      }
    }
  }

  /** The restricted list keeps every occurrence of each sample whose new row
      is complete and drops every other sample. */
  lemma {:induction false} KeepCompleteCounts(idx: seq<nat>, rows: seq<Row>, x: nat)
    requires InRange(idx, |rows|)
    ensures multiset(KeepComplete(idx, rows))[x] ==
            if x < |rows| && Complete(rows[x]) then multiset(idx)[x] else 0
  {
    if idx != [] {
      KeepCompleteCounts(idx[1..], rows, x);
      assert idx == [idx[0]] + idx[1..];
      assert multiset(idx) == multiset([idx[0]]) + multiset(idx[1..]);
    }
  }

  /** Restricting twice is restricting once. */
  lemma {:induction false} KeepCompleteIdempotent(idx: seq<nat>, rows: seq<Row>)
    requires InRange(idx, |rows|)
    ensures InRange(KeepComplete(idx, rows), |rows|)
    ensures KeepComplete(KeepComplete(idx, rows), rows) == KeepComplete(idx, rows)
  {
    if idx != [] {
      KeepCompleteIdempotent(idx[1..], rows);
      var rest := KeepComplete(idx[1..], rows);
      if Complete(rows[idx[0]]) {
        assert KeepComplete(idx, rows) == [idx[0]] + rest;
        KeepCompleteAppend([idx[0]], rest, rows);
        assert KeepComplete([idx[0]], rows) == [idx[0]] by {
          assert [idx[0]][1..] == [];
        }
      } else {
        assert KeepComplete(idx, rows) == rest;
      }
    }
  }

  /** The inner loop of `add_new_phase` over one node's `idx`: None when an
      index is past the last row of the new phase (numpy's IndexError). */
  method RestrictIdx(idx: seq<nat>, newPhase: Table) returns (r: Option<seq<nat>>)
    ensures r.Some? <==> InRange(idx, |newPhase.rows|)
    ensures r.Some? ==> r.value == KeepComplete(idx, newPhase.rows)
  {
    var newIdx := [];
    var i := 0;
    while i < |idx|
      invariant 0 <= i <= |idx|
      invariant InRange(idx[..i], |newPhase.rows|)
      invariant newIdx == KeepComplete(idx[..i], newPhase.rows)
    {
      if idx[i] >= |newPhase.rows| {
        return None;
      }
      var newFeature := newPhase.rows[idx[i]];
      assert idx[..i + 1] == idx[..i] + [idx[i]];
      KeepCompleteAppend(idx[..i], [idx[i]], newPhase.rows);
      if !RowHasNaN(newFeature) {
        newIdx := newIdx + [idx[i]];
      }
      i := i + 1;
    }
    assert idx[..i] == idx;
    return Some(newIdx);
  }

  /** A frontier node `add_new_phase` cannot restrict: it has no `idx` (the
      AttributeError) or one of its indices is past the last new-phase row
      (numpy's IndexError). */
  predicate BadIdx(n: Node, rows: seq<Row>)
  {
    n.idx.None? || !InRange(n.idx.value, |rows|)
  }

  /** `node.idx = new_idx` for one node. */
  function RestrictNode(n: Node, rows: seq<Row>): (r: Node)
    requires !BadIdx(n, rows)
    ensures r == n.(idx := r.idx) && r.idx.Some? && |r.idx.value| <= |n.idx.value|
    ensures forall x :: x in r.idx.value ==> x in n.idx.value && x < |rows| && Complete(rows[x])
  {
    n.(idx := Some(KeepComplete(n.idx.value, rows)))
  }

  /** The loop at lines 50-56 over the frontier in order: None as soon as a
      node cannot be restricted. */
  function RestrictAll(nodes: seq<Node>, ps: seq<nat>, rows: seq<Row>): (r: Option<seq<Node>>)
    requires forall k :: 0 <= k < |ps| ==> ps[k] < |nodes|
    ensures r.Some? ==> |r.value| == |nodes|
  {
    if ps == [] then Some(nodes)
    else
      var q := RestrictAll(nodes, ps[..|ps| - 1], rows);
      var p := ps[|ps| - 1];
      if q.None? || BadIdx(q.value[p], rows) then None
      else Some(q.value[p := RestrictNode(q.value[p], rows)])
  }

  /** A restricted node can be restricted again, to the same list. */
  lemma RestrictNodeAgain(n: Node, rows: seq<Row>)
    requires !BadIdx(n, rows)
    ensures !BadIdx(RestrictNode(n, rows), rows)
    ensures RestrictNode(RestrictNode(n, rows), rows) == RestrictNode(n, rows)
  {
    KeepCompleteIdempotent(n.idx.value, rows);
  }

  /** Lines 50-56 on success: every frontier node, however often it occurs in
      the frontier, ends with its `idx` restricted once; every other node and
      every other attribute is unchanged. */
  lemma {:induction false} RestrictAllResult(nodes: seq<Node>, ps: seq<nat>, rows: seq<Row>)
    requires forall k :: 0 <= k < |ps| ==> ps[k] < |nodes|
    ensures var r := RestrictAll(nodes, ps, rows);
      r.Some? ==> forall j :: 0 <= j < |nodes| ==>
        if j in ps then !BadIdx(nodes[j], rows) && r.value[j] == RestrictNode(nodes[j], rows) else r.value[j] == nodes[j]
  {
    if ps != [] {
      var init, p := ps[..|ps| - 1], ps[|ps| - 1];
      RestrictAllResult(nodes, init, rows);
      var q := RestrictAll(nodes, init, rows);
      var r := RestrictAll(nodes, ps, rows);
      if r.Some? {
        forall j | 0 <= j < |nodes|
          ensures if j in ps then !BadIdx(nodes[j], rows) && r.value[j] == RestrictNode(nodes[j], rows) else r.value[j] == nodes[j]
        {
          if j == p && j in init {
            RestrictNodeAgain(nodes[j], rows);
          }
          if j != p {
            assert j in ps <==> j in init;
          }
        }
      }
    }
  }

  /** Lines 50-56 fail exactly when some frontier node, as it was before the
      call, has no `idx` or an index past the last new-phase row. */
  lemma {:induction false} RestrictAllError(nodes: seq<Node>, ps: seq<nat>, rows: seq<Row>)
    requires forall k :: 0 <= k < |ps| ==> ps[k] < |nodes|
    ensures RestrictAll(nodes, ps, rows).None? <==> exists k :: 0 <= k < |ps| && BadIdx(nodes[ps[k]], rows)
  {
    if ps != [] {
      var init, p := ps[..|ps| - 1], ps[|ps| - 1];
      RestrictAllError(nodes, init, rows);
      RestrictAllResult(nodes, init, rows);
      var q := RestrictAll(nodes, init, rows);
      var bad := exists k :: 0 <= k < |ps| && BadIdx(nodes[ps[k]], rows);
      var badInit := exists k :: 0 <= k < |init| && BadIdx(nodes[init[k]], rows);
      assert bad <==> badInit || BadIdx(nodes[p], rows) by {
        if badInit {
          var k :| 0 <= k < |init| && BadIdx(nodes[init[k]], rows);
          assert ps[k] == init[k];
        }
        if bad {
          var k :| 0 <= k < |ps| && BadIdx(nodes[ps[k]], rows);
          if k < |init| { assert init[k] == ps[k]; }
        }
      }
      if q.Some? && p in init {
        RestrictNodeAgain(nodes[p], rows);
      }
    }
  }

  /** Once the loop has failed on a prefix of the frontier, it fails. */
  lemma {:induction false} RestrictAllStuck(nodes: seq<Node>, ps: seq<nat>, k: nat, rows: seq<Row>)
    requires forall j :: 0 <= j < |ps| ==> ps[j] < |nodes|
    requires k <= |ps| && RestrictAll(nodes, ps[..k], rows).None?
    ensures RestrictAll(nodes, ps, rows).None?
    decreases |ps| - k
  {
    if k == |ps| {
      assert ps[..k] == ps;
    } else {
      assert ps[..k + 1][..k] == ps[..k];
      RestrictAllStuck(nodes, ps, k + 1, rows);
    }
  }

  /** The loop stops on the node at position `k` that cannot be restricted,
      and then the whole call fails. */
  lemma RestrictAllStopped(nodes: seq<Node>, ps: seq<nat>, k: nat, rows: seq<Row>)
    requires forall j :: 0 <= j < |ps| ==> ps[j] < |nodes|
    requires k < |ps|
    requires var q := RestrictAll(nodes, ps[..k], rows); q.Some? && BadIdx(q.value[ps[k]], rows)
    ensures RestrictAll(nodes, ps, rows).None?
  {
    assert ps[..k + 1][..k] == ps[..k];
    RestrictAllStuck(nodes, ps, k + 1, rows);
  }
}
