/** Kahn-style orders. LayeredOrder is the projector's batch sort
    (librarian/projector.py, _batch_topological_order). */
module Kahn {
  import opened Graphs
  import opened Labels
  import opened Search

  ghost predicate Within(g: Graph<Label>, labels: set<Label>) {
    forall e :: e in g ==> e.0 in labels && e.1 in labels
  }

  /** Every entry stands behind everything it depends on. */
  ghost predicate Topological(g: Graph<Label>, order: seq<Label>) {
    forall i, d :: 0 <= i < |order| && (order[i], d) in g ==> d in order[..i]
  }

  lemma TopologicalExtends(g: Graph<Label>, order: seq<Label>, x: Label)
    requires Topological(g, order) && forall d :: (x, d) in g ==> d in order
    ensures Topological(g, order + [x])
  {
    var longer := order + [x];
    forall i, d | 0 <= i < |longer| && (longer[i], d) in g ensures d in longer[..i] {
      assert longer[..i] == order[..i];
      if i == |order| {
        TakeAll(order);
      } else {
        assert (order[i], d) in g;
      }
    }
  }

  lemma {:induction false} WalkStaysBefore(g: Graph<Label>, order: seq<Label>, w: seq<Label>, i: nat)
    requires Topological(g, order) && Walk(g, w) && |w| >= 2
    requires i < |order| && order[i] == w[0]
    ensures w[|w| - 1] in order[..i]
    decreases |w|
  {
    assert (w[0], w[1]) in g;
    var j :| 0 <= j < i && order[..i][j] == w[1];
    if |w| > 2 {
      var rest := w[1..];
      forall k | 0 <= k < |rest| - 1 ensures (rest[k], rest[k + 1]) in g {
        assert (w[k + 1], w[k + 2]) in g;
      }
      WalkStaysBefore(g, order, rest, j);
      var m :| 0 <= m < j && order[..j][m] == w[|w| - 1];
      assert order[..i][m] == w[|w| - 1];
    }
  }

  /** Only an acyclic graph can be ordered with every vertex behind its dependencies. */
  lemma TopologicalMeansAcyclic(g: Graph<Label>, labels: set<Label>, order: seq<Label>)
    requires Within(g, labels) && Topological(g, order) && Distinct(order)
    requires forall x :: x in labels ==> x in order
    ensures Acyclic(g)
  {
    forall w ensures !ClosedWalk(g, w) {
      if ClosedWalk(g, w) {
        assert (w[0], w[1]) in g;
        var i :| 0 <= i < |order| && order[i] == w[0];
        WalkStaysBefore(g, order, w, i);
      }
    }
  }

  type Outstanding = map<Label, set<Label>>

  /** What the sort still has to place, and which dependencies each label still waits for. */
  ghost predicate Pending(g: Graph<Label>, labels: set<Label>, order: seq<Label>, remaining: Outstanding) {
    && Distinct(order) && Topological(g, order)
    && (forall x :: x in labels <==> x in order || x in remaining)
    && (forall x :: x in order ==> x !in remaining)
    && (forall x :: x in remaining ==> remaining[x] == set d | d in DependenciesIn(g, x) && d !in order)
  }

  function DependenciesIn(g: Graph<Label>, x: Label): set<Label> {
    set e | e in g && e.0 == x :: e.1
  }

  method PlaceOne(ghost g: Graph<Label>, ghost labels: set<Label>, order: seq<Label>, remaining: Outstanding, x: Label)
    returns (order': seq<Label>, remaining': Outstanding)
    requires Within(g, labels) && Pending(g, labels, order, remaining)
    requires x in remaining && remaining[x] == {}
    ensures order' == order + [x] && remaining'.Keys == remaining.Keys - {x}
    ensures Pending(g, labels, order', remaining')
    ensures forall y :: y in remaining' && remaining[y] == {} ==> remaining'[y] == {}
  {
    order' := order + [x];
    remaining' := map y | y in remaining && y != x :: remaining[y] - {x};
    forall d | (x, d) in g ensures d in order {
      assert d in DependenciesIn(g, x);
      assert d !in remaining[x];
    }
    TopologicalExtends(g, order, x);
  }

  /** Places a whole layer of labels that wait for nothing. */
  method PlaceLayer(ghost g: Graph<Label>, ghost labels: set<Label>, order: seq<Label>, remaining: Outstanding,
                    ready: seq<Label>)
    returns (order': seq<Label>, remaining': Outstanding)
    requires Within(g, labels) && Pending(g, labels, order, remaining)
    requires Distinct(ready) && forall x :: x in ready ==> x in remaining && remaining[x] == {}
    ensures Pending(g, labels, order', remaining')
    ensures remaining'.Keys == remaining.Keys - Elements(ready)
  {
    order', remaining' := order, remaining;
    var i := 0;
    while i < |ready|
      invariant 0 <= i <= |ready|
      invariant Pending(g, labels, order', remaining')
      invariant remaining'.Keys == remaining.Keys - Elements(ready[..i])
      invariant forall k :: i <= k < |ready| ==> ready[k] in remaining' && remaining'[ready[k]] == {}
    {
      order', remaining' := PlaceOne(g, labels, order', remaining', ready[i]);
      TakeStep(ready, i);
      i := i + 1;
    }
    TakeAll(ready);
  }

  method LayeredOrder(g: Graph<Label>, labels: set<Label>) returns (order: Option<seq<Label>>)
    requires Within(g, labels)
    ensures order.Some? <==> Acyclic(g)
    ensures order.Some? ==> Distinct(order.value) && Topological(g, order.value)
    ensures order.Some? ==> forall x :: x in labels <==> x in order.value
  {
    var placed: seq<Label> := [];
    var remaining: Outstanding := map x | x in labels :: DependenciesIn(g, x);
    while remaining.Keys != {}
      invariant Pending(g, labels, placed, remaining)
      decreases |remaining.Keys|
    {
      var ready := SortedLabels(set x | x in remaining && remaining[x] == {});
      if ready == [] {
        NothingReadyMeansCycle(g, labels, placed, remaining);
        return None;
      }
      assert ready[0] in ready;
      ghost var before := remaining.Keys;
      placed, remaining := PlaceLayer(g, labels, placed, remaining, ready);
      assert ready[0] in before && ready[0] !in remaining.Keys;
      SmallerSet(remaining.Keys, before);
    }
    TopologicalMeansAcyclic(g, labels, placed);
    return Some(placed);
  }

  lemma NothingReadyMeansCycle(g: Graph<Label>, labels: set<Label>, order: seq<Label>, remaining: Outstanding)
    requires Within(g, labels) && Pending(g, labels, order, remaining)
    requires remaining.Keys != {} && forall x :: x in remaining ==> remaining[x] != {}
    ensures !Acyclic(g)
  {
    if Acyclic(g) {
      var m := MinimalExists(g, remaining.Keys);
    }
  }
}
